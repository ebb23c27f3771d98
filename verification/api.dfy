/** The moderation endpoint (app/main.py): the bearer-token check, the
    dispatch on the extension point, the choice of text and language from
    the request parameters, and the table that turns the two moderation
    flags into a verdict. */
module Api {
  import opened Wrappers
  import opened Text
  import opened Pii

  /** A JSON value as the request body decodes it. */
  datatype Value =
    | Null
    | Bool(b: bool)
    | Num(x: real)
    | Str(s: string)
    | List(items: seq<Value>)
    | Dict(fields: map<string, Value>)

  /** Python truthiness of a decoded JSON value. */
  predicate Truthy(v: Value)
  {
    match v
    case Null => false
    case Bool(b) => b
    case Num(x) => x != 0.0
    case Str(s) => s != ""
    case List(items) => items != []
    case Dict(fields) => fields != map[]
  }

  /** `d.get(key)`: the value under `key`, or None when it is absent. */
  function DictGet(d: map<string, Value>, key: string): (v: Value)
    ensures key in d ==> v == d[key]
    ensures key !in d ==> v == Null
  {
    if key in d then d[key] else Null
  }

  /** The request body: the extension point and its parameters. */
  datatype Request = Request(point: string, params: map<string, Value>)

  /** What the endpoint answers: `{"result": "pong"}` or a verdict
      `{"flagged", "action", "preset_response"}`. */
  datatype Response =
    | Pong
    | Verdict(flagged: bool, action: string, presetResponse: string)

  /** The exceptions the handler can end in: the 401 it raises itself, and
      the Python errors that malformed parameters or the unpacking at the
      moderation call raise. */
  datatype Raised =
    | HttpError(status: int, detail: string)
    | AttributeError
    | TypeError
    | ValueError

  const ExpectedApiKey := "123456"
  const Unauthorized := HttpError(401, "Unauthorized")
  const DirectOutput := "direct_output"

  /** The extension points answered by the moderation handler. */
  const ModerationPoints: seq<string> :=
    ["APP_MODERATION_INPUT", "APP_MODERATION_OUTPUT", "app.moderation.input", "app.moderation.output"]

  const PiiAndToxicMessage := "В вашем сообщении обнаружены персональные данные и высокая токсичность. Пожалуйста, отправьте корректный текст."
  const PiiMessage := "В вашем сообщении обнаружены персональные данные. Пожалуйста, удалите их и попробуйте снова."
  const ToxicMessage := "В вашем сообщении обнаружена высокая токсичность. Пожалуйста, переформулируйте ваш текст."

  // ---------------------------------------------------------------------
  // Authorization

  /** The `Authorization` header check: a missing or empty header is
      refused; otherwise the header is split at its first space, and the
      part before must be "bearer" ignoring case and the part after must be
      the expected key. */
  predicate Authorized(authorization: Option<string>)
    ensures authorization == None || authorization == Some("") ==> !Authorized(authorization)
    ensures Authorized(authorization) ==>
      |authorization.value| == 7 + |ExpectedApiKey| && authorization.value[7..] == ExpectedApiKey
  {
    match authorization
    case None => false
    case Some(h) =>
      h != "" &&
      var parts := Partition(h, ' ');
      Lower(parts.0) == "bearer" && parts.2 == ExpectedApiKey
  }

  /** The accepted headers, described without the split: exactly six
      characters spelling "bearer" in any case, one space, and the key. */
  lemma AuthorizedIff(authorization: Option<string>)
    ensures Authorized(authorization) <==>
      authorization.Some? && |authorization.value| >= 7
      && Lower(authorization.value[..6]) == "bearer"
      && authorization.value[6] == ' '
      && authorization.value[7..] == ExpectedApiKey
  {
    if authorization.Some? {
      var h := authorization.value;
      var parts := Partition(h, ' ');
      if Authorized(authorization) {
        assert parts.1 == " ";
        assert |parts.0| == 6;
        assert h == parts.0 + " " + parts.2;
        assert h[..6] == parts.0;
        assert h[7..] == parts.2;
      }
      if |h| >= 7 && Lower(h[..6]) == "bearer" && h[6] == ' ' && h[7..] == ExpectedApiKey {
        LowerKeepsSpaces(h[..6]);
        assert ' ' !in h[..6] by {
          forall i | 0 <= i < 6 ensures h[..6][i] != ' ' {
            assert Lower(h[..6])[i] != ' ';
          }
        }
        assert h == h[..6] + [' '] + h[7..];
        PartitionAt(h[..6], ' ', h[7..]);
      }
    }
  }

  /** The scheme is compared ignoring case. */
  lemma SchemeCaseIgnored()
    ensures Authorized(Some("bEaReR 123456"))
  {
    var h := "bEaReR 123456";
    assert h[..6] == "bEaReR" && h[6] == ' ' && h[7..] == ExpectedApiKey;
    assert Lower("bEaReR") == "bearer";
    AuthorizedIff(Some(h));
  }

  /** The key is compared exactly: a trailing space is refused. */
  lemma TrailingSpaceRefused()
    ensures !Authorized(Some("Bearer 123456 "))
  {
    AuthorizedIff(Some("Bearer 123456 "));
  }

  /** A second space before the key is refused: the split is at the first
      space. */
  lemma DoubleSpaceRefused()
    ensures !Authorized(Some("Bearer  123456"))
  {
    AuthorizedIff(Some("Bearer  123456"));
  }

  // ---------------------------------------------------------------------
  // Choosing the text and the language

  /** The text and the language the handler passes to `moderate_text`. */
  datatype Selection = Selection(text: Value, lang: Value)

  const DefaultSelection := Selection(Str(""), Str("ru"))

  /** The last branch: a truthy top-level "text", else the empty text. */
  function TextBranch(params: map<string, Value>): (s: Selection)
    ensures s.lang == Str("ru")
    ensures Truthy(DictGet(params, "text")) ==> s.text == params["text"]
    ensures !Truthy(DictGet(params, "text")) ==> s == DefaultSelection
  {
    if "text" in params && Truthy(params["text"]) then Selection(params["text"], Str("ru"))
    else DefaultSelection
  }

  /** `inputs.get("lang", "ru")`. */
  function InputsLang(inputs: map<string, Value>): (v: Value)
    ensures "lang" !in inputs ==> v == Str("ru")
    ensures "lang" in inputs ==> v == inputs["lang"]
  {
    if "lang" in inputs then inputs["lang"] else Str("ru")
  }

  /** The fields of an object value; no fields for any other value. */
  function DictOf(v: Value): map<string, Value>
  {
    if v.Dict? then v.fields else map[]
  }

  /** The three-way choice of `handle_moderation`: a truthy "query" wins;
      then a truthy "text" inside "inputs", whose "lang" (default "ru") is
      the only way to change the language; then a truthy top-level "text";
      otherwise the empty text. An "inputs" that is not an object has no
      `.get` and raises. */
  function SelectInput(params: map<string, Value>): (r: Result<Selection, Raised>)
    ensures r.Failure? <==>
      !Truthy(DictGet(params, "query")) && "inputs" in params && !params["inputs"].Dict?
    ensures r.Failure? ==> r.error == AttributeError
    ensures Truthy(DictGet(params, "query")) ==> r == Success(Selection(params["query"], Str("ru")))
    ensures r.Success? && r.value.lang != Str("ru") ==>
      && "inputs" in params && params["inputs"].Dict?
      && "lang" in params["inputs"].fields
      && r.value.text == DictGet(params["inputs"].fields, "text")
      && r.value.lang == params["inputs"].fields["lang"]
    ensures r.Success? ==> r.value == DefaultSelection || Truthy(r.value.text)
    ensures !Truthy(DictGet(params, "query")) && "inputs" in params && params["inputs"].Dict?
            && Truthy(DictGet(params["inputs"].fields, "text")) ==>
      r == Success(Selection(params["inputs"].fields["text"], InputsLang(params["inputs"].fields)))
    ensures !Truthy(DictGet(params, "query"))
            && !("inputs" in params && Truthy(DictGet(DictOf(params["inputs"]), "text")))
            && ("inputs" in params ==> params["inputs"].Dict?)
            && Truthy(DictGet(params, "text")) ==>
      r == Success(Selection(params["text"], Str("ru")))
  {
    if Truthy(DictGet(params, "query")) then Success(Selection(params["query"], Str("ru")))
    else if "inputs" in params then
      match params["inputs"]
      case Dict(inputs) =>
        if Truthy(DictGet(inputs, "text")) then
          Success(Selection(inputs["text"], InputsLang(inputs)))
        else Success(TextBranch(params))
      case _ => Failure(AttributeError)
    else Success(TextBranch(params))
  }

  /** Where the selected text comes from: each successful selection's text
      is the empty string or the value of one of the three keys, and
      every value the handler could have chosen before it was falsy. */
  lemma SelectionPrecedence(params: map<string, Value>)
    requires SelectInput(params).Success?
    ensures var s := SelectInput(params).value;
      || s == DefaultSelection
      || (s.text == DictGet(params, "query") && Truthy(s.text))
      || (!Truthy(DictGet(params, "query")) && "inputs" in params && params["inputs"].Dict?
          && s.text == DictGet(params["inputs"].fields, "text") && Truthy(s.text))
      || (!Truthy(DictGet(params, "query"))
          && !("inputs" in params && params["inputs"].Dict? && Truthy(DictGet(params["inputs"].fields, "text")))
          && s.text == DictGet(params, "text") && Truthy(s.text))
    ensures var s := SelectInput(params).value;
      s == DefaultSelection <==>
        && !Truthy(DictGet(params, "query"))
        && !Truthy(DictGet(params, "text"))
        && !("inputs" in params && params["inputs"].Dict? && Truthy(DictGet(params["inputs"].fields, "text")))
  {
  }

  /** The language `extract_pii` compares against "ru": a string value is
      itself; any other value can never equal "ru", and "" stands for it. */
  function LangTag(v: Value): (tag: string)
    ensures tag == "ru" <==> v == Str("ru")
  {
    match v
    case Str(s) => s
    case _ => ""
  }

  // ---------------------------------------------------------------------
  // The verdict table

  /** The response for the two flags: not flagged and an empty message when
      neither holds, otherwise flagged with the message naming what was
      found. */
  function Decide(hasPii: bool, isToxic: bool): (r: Response)
    ensures r.Verdict? && r.action == DirectOutput
    ensures r.flagged <==> hasPii || isToxic
    ensures r.presetResponse == "" <==> !r.flagged
  {
    if !hasPii && !isToxic then Verdict(false, DirectOutput, "")
    else if hasPii && isToxic then Verdict(true, DirectOutput, PiiAndToxicMessage)
    else if hasPii then Verdict(true, DirectOutput, PiiMessage)
    else Verdict(true, DirectOutput, ToxicMessage)
  }

  /** The flags a verdict's message reports, read back from the message. */
  ghost function ReadVerdict(r: Response): (flags: (bool, bool))
  {
    if r.Verdict? && r.presetResponse == PiiAndToxicMessage then (true, true)
    else if r.Verdict? && r.presetResponse == PiiMessage then (true, false)
    else if r.Verdict? && r.presetResponse == ToxicMessage then (false, true)
    else (false, false)
  }

  /** The message tells the two flags apart: reading a decided verdict back
      gives the flags it was decided from, so no two flag pairs share a
      response. */
  lemma DecideReadBack(hasPii: bool, isToxic: bool)
    ensures ReadVerdict(Decide(hasPii, isToxic)) == (hasPii, isToxic)
  {
    assert PiiAndToxicMessage != PiiMessage && PiiAndToxicMessage != ToxicMessage && PiiMessage != ToxicMessage by {
      assert |PiiAndToxicMessage| == 111 && |PiiMessage| == 92 && |ToxicMessage| == 89;
    }
  }

  // ---------------------------------------------------------------------
  // The moderation handler

  /** The value of a reported entry, `{"type": kind, "text": text}`. */
  function EntryValue(e: SpanRegistry.Entry): Value
  {
    Dict(map["type" := Str(e.kind), "text" := Str(e.text)])
  }

  /** `moderate_text`'s return value as the caller receives it: a tuple of
      three values. */
  function AsTuple(m: Moderation): (t: seq<Value>)
    ensures |t| == 3
    ensures t[0] == Bool(m.hasPii) && t[1] == Bool(m.isToxic)
  {
    [Bool(m.hasPii), Bool(m.isToxic), List(seq(|m.results|, i requires 0 <= i < |m.results| => EntryValue(m.results[i])))]
  }

  /** Tuple unpacking into `n` names: it succeeds exactly when the tuple
      has `n` elements, and raises ValueError otherwise. */
  function Unpack(t: seq<Value>, n: nat): (r: Result<seq<Value>, Raised>)
    ensures r.Success? <==> |t| == n
    ensures r.Success? ==> r.value == t
    ensures r.Failure? ==> r.error == ValueError
  {
    if |t| == n then Success(t) else Failure(ValueError)
  }

  /** The `i`-th value of a tuple, or None past its end. The handlers only
      read positions that the unpacking before them has checked exist. */
  function At(t: seq<Value>, i: int): Value
  {
    if 0 <= i < |t| then t[i] else Null
  }

  /** The rest of the handler after the unpacking: an unpacking that
      raised propagates, otherwise the first two values are read as the
      flags of the verdict. */
  function DecideUnpacked(u: Result<seq<Value>, Raised>): Result<Response, Raised>
  {
    match u
    case Failure(err) => Failure(err)
    case Success(names) => Success(Decide(Truthy(At(names, 0)), Truthy(At(names, 1))))
  }

  /** The handler as written: the three-element tuple is unpacked into two
      names, so no request gets a verdict, and every request that reaches
      the moderation call raises ValueError there. */
  function HandleModerationAsWritten(params: map<string, Value>, ctx: Collaborators): (r: Result<Response, Raised>)
    ensures r.Failure?
    ensures SelectInput(params).Success? && SelectInput(params).value.text.Str? ==> r == Failure(ValueError)
  {
    match SelectInput(params)
    case Failure(err) => Failure(err)
    case Success(sel) =>
      if !sel.text.Str? then Failure(TypeError)
      else
        var m := ModerateText(sel.text.s, LangTag(sel.lang), ctx);
        DecideUnpacked(Unpack(AsTuple(m), 2))
  }

  /** A request the corrected handler answers and the handler as written
      does not: a plain query. */
  lemma AsWrittenCounterexample(ctx: Collaborators)
    ensures HandleModerationAsWritten(map["query" := Str("привет")], ctx) == Failure(ValueError)
    ensures HandleModeration(map["query" := Str("привет")], ctx).Success?
  {
    assert Truthy(DictGet(map["query" := Str("привет")], "query"));
  }

  /** The handler with the unpacking corrected to the three values
      `moderate_text` returns: the verdict for the selected text's flags. */
  function HandleModeration(params: map<string, Value>, ctx: Collaborators): (r: Result<Response, Raised>)
    ensures r.Success? <==> SelectInput(params).Success? && SelectInput(params).value.text.Str?
    ensures r.Success? ==>
      var sel := SelectInput(params).value;
      var m := ModerateText(sel.text.s, LangTag(sel.lang), ctx);
      r.value == Decide(m.hasPii, m.isToxic)
  {
    match SelectInput(params)
    case Failure(err) => Failure(err)
    case Success(sel) =>
      if !sel.text.Str? then Failure(TypeError)
      else
        var m := ModerateText(sel.text.s, LangTag(sel.lang), ctx);
        DecideUnpacked(Unpack(AsTuple(m), 3))
  }

  /** A request whose parameters carry no usable text is answered, and it
      is flagged exactly when extraction reports something in the empty
      text: the empty text is never toxic. */
  lemma EmptyTextNotFlagged(params: map<string, Value>, ctx: Collaborators)
    requires SelectInput(params) == Success(DefaultSelection)
    ensures HandleModeration(params, ctx).Success?
    ensures HandleModeration(params, ctx).value.flagged <==> ExtractPii("", "ru", ctx) != []
    ensures ExtractPii("", "ru", ctx) == [] ==> HandleModeration(params, ctx) == Success(Verdict(false, DirectOutput, ""))
  {
  }

  /** A flagged verdict for a text carries the message of exactly the
      flags `moderate_text` computed for it. */
  lemma VerdictReportsFlags(params: map<string, Value>, ctx: Collaborators)
    requires HandleModeration(params, ctx).Success?
    ensures var sel := SelectInput(params).value;
      var m := ModerateText(sel.text.s, LangTag(sel.lang), ctx);
      && ReadVerdict(HandleModeration(params, ctx).value) == (m.results != [], m.isToxic)
      && (HandleModeration(params, ctx).value.flagged <==>
            m.results != [] || (sel.text.s != "" && ctx.toxicity(sel.text.s) >= ToxicThreshold))
  {
    var sel := SelectInput(params).value;
    var m := ModerateText(sel.text.s, LangTag(sel.lang), ctx);
    DecideReadBack(m.hasPii, m.isToxic);
  }

  // ---------------------------------------------------------------------
  // The endpoint

  /** The message for an extension point the service does not handle; it
      quotes the point's name. */
  function NotImplemented(point: string): (msg: string)
    ensures "Extension point '" + point <= msg
  {
    "Extension point '" + point + "' not implemented."
  }

  /** The answer for an authorized request, by extension point: the pong
      exactly for "ping"; the moderation handler's answer for the four
      moderation points, which are the only ones that can raise; a flagged
      verdict naming the point for every other point. */
  function Dispatch(req: Request, ctx: Collaborators): (r: Result<Response, Raised>)
    ensures r == Success(Pong) <==> req.point == "ping"
    ensures req.point in ModerationPoints ==> r == HandleModeration(req.params, ctx)
    ensures r.Failure? ==> req.point in ModerationPoints
    ensures req.point != "ping" && req.point !in ModerationPoints ==>
      r == Success(Verdict(true, DirectOutput, NotImplemented(req.point)))
  {
    if req.point == "ping" then Success(Pong)
    else if req.point in ModerationPoints then HandleModeration(req.params, ctx)
    else Success(Verdict(true, DirectOutput, NotImplemented(req.point)))
  }

  /** `dify_receive`: the header is checked before anything else. */
  function Receive(req: Request, authorization: Option<string>, ctx: Collaborators): (r: Result<Response, Raised>)
    ensures !Authorized(authorization) ==> r == Failure(Unauthorized)
    ensures Authorized(authorization) ==> r == Dispatch(req, ctx)
  {
    if !Authorized(authorization) then Failure(Unauthorized)
    else Dispatch(req, ctx)
  }

  /** `dify_receive` as written: it is the modelled endpoint except at the
      four moderation points, where an authorized request reaches the
      handler as written and so never gets a verdict. */
  function ReceiveAsWritten(req: Request, authorization: Option<string>, ctx: Collaborators): (r: Result<Response, Raised>)
    ensures req.point !in ModerationPoints ==> r == Receive(req, authorization, ctx)
    ensures !Authorized(authorization) ==> r == Failure(Unauthorized)
    ensures Authorized(authorization) && req.point in ModerationPoints ==> r.Failure?
    ensures Authorized(authorization) && req.point in ModerationPoints
            && SelectInput(req.params).Success? && SelectInput(req.params).value.text.Str? ==>
      r == Failure(ValueError) && Receive(req, authorization, ctx).Success?
  {
    if !Authorized(authorization) then Failure(Unauthorized)
    else if req.point in ModerationPoints then HandleModerationAsWritten(req.params, ctx)
    else Dispatch(req, ctx)
  }

  /** Every answer other than the pong is a direct-output verdict, and a
      refused request never reaches the moderation models. */
  lemma ReceiveShape(req: Request, authorization: Option<string>, ctx: Collaborators, other: Collaborators)
    ensures Receive(req, authorization, ctx).Success? && Receive(req, authorization, ctx).value != Pong ==>
      Receive(req, authorization, ctx).value.action == DirectOutput
    ensures !Authorized(authorization) ==> Receive(req, authorization, ctx) == Receive(req, authorization, other)
    ensures Authorized(authorization) && req.point != "ping" && req.point !in ModerationPoints ==>
      Receive(req, authorization, ctx).value.flagged
  {
  }
}
