/** `extract_pii` and `moderate_text` (app/pii.py). The recogniser, the
    regular-expression engine, the generic entity analyser and the
    toxicity classifier are collaborators whose outputs are inputs here;
    everything between their outputs and the verdict is modelled. */
module Pii {
  import opened Wrappers
  import opened Text
  import opened Dedup
  import opened NerGrouping
  import opened SpanRegistry

  /** Words whose presence in the lower-cased text triggers the address
      heuristic. */
  const AddressKeywords: seq<string> := ["адрес", "проживает", "улица", "ул.", "дом", "квартира", "кв.", "проспект"]

  /** Phrases after which a place name is read as a birth place. */
  const BirthKeywords: seq<string> := ["родился в", "родилась в", "родом из", "в городе"]

  /** Toxic-class probability at or above which a text counts as toxic. */
  const ToxicThreshold: real := 0.1

  const PersonType := "PERSON"
  const AddressType := "ADDRESS"
  const BirthPlaceType := "BIRTH_PLACE"
  const EmailType := "EMAIL_ADDRESS"

  /** One result of the generic entity analyser: a type and character
      offsets into the analysed text. */
  datatype AnalyzerResult = AnalyzerResult(entityType: string, start: int, end: int)

  /** One row of the pattern table loaded at start-up. */
  datatype PatternRule = PatternRule(entityType: string, regex: string)

  /** What `finditer` returned for one pattern: its type and the matched
      strings, in match order. */
  datatype PatternMatches = PatternMatches(entityType: string, spans: seq<string>)

  /** The process-wide models and tables `extract_pii` and `moderate_text`
      call, as functions of their arguments. */
  datatype Collaborators = Collaborators(
    /** `nlp_ru(text).sentences`, each sentence as its entities. */
    ner: string -> seq<seq<NerEntity>>,
    /** The first capture group of the birth-place search for a keyword in
        a text, or None when the search finds nothing. */
    birthSearch: (string, string) -> Option<string>,
    /** `pii_patterns`. */
    patterns: seq<PatternRule>,
    /** The matched strings of `re.compile(regex).finditer(text)`. */
    findAll: (string, string) -> seq<string>,
    /** `analyzer.analyze(text, entities=["EMAIL_ADDRESS"], language="en")`. */
    analyzeEmails: string -> seq<AnalyzerResult>,
    /** `analyzer.analyze(text, language="en")`. */
    analyzeAll: string -> seq<AnalyzerResult>,
    /** The toxic-class probability of the classifier for a text. */
    toxicity: string -> real)

  /** What `moderate_text` returns: `(has_pii, is_toxic, pii_results)`. */
  datatype Moderation = Moderation(hasPii: bool, isToxic: bool, results: seq<Entry>)

  /** The PERSON entries: one per grouped "PER" text, in group order. */
  function Persons(groups: map<string, seq<string>>): (r: seq<Entry>)
    ensures |r| == |Get(groups, "PER")|
    ensures forall i :: 0 <= i < |r| ==> r[i] == Entry(PersonType, Get(groups, "PER")[i])
  {
    seq(|Get(groups, "PER")|, i requires 0 <= i < |Get(groups, "PER")| => Entry(PersonType, Get(groups, "PER")[i]))
  }

  /** Some keyword occurs in `s`. */
  predicate AnyContains(s: string, keywords: seq<string>)
  {
    exists i :: 0 <= i < |keywords| && Contains(s, keywords[i])
  }

  /** The address heuristic's trigger: an address keyword occurs in the
      lower-cased text. */
  predicate MentionsAddress(text: string)
  {
    AnyContains(Lower(text), AddressKeywords)
  }

  /** The location texts and then the geopolitical texts. */
  function AddressParts(groups: map<string, seq<string>>): seq<string>
  {
    Get(groups, "LOC") + Get(groups, "GPE")
  }

  /** The address stage: at most one ADDRESS candidate, offered exactly
      when the text mentions an address and some location was found; its
      text joins the location parts with ", ". */
  function AddressCandidates(text: string, groups: map<string, seq<string>>): (r: seq<Candidate>)
    ensures |r| <= 1
    ensures r != [] <==> MentionsAddress(text) && AddressParts(groups) != []
    ensures r != [] ==> r[0] == Candidate(Lower(r[0].entry.text), Entry(AddressType, Join(AddressParts(groups), ", ")))
  {
    if MentionsAddress(text) && AddressParts(groups) != [] then
      var full := Join(AddressParts(groups), ", ");
      [Candidate(Lower(full), Entry(AddressType, full))]
    else []
  }

  /** The candidate for a place the birth-place search captured. */
  function BirthCandidate(place: string): Candidate
  {
    Candidate(Lower(place), Entry(BirthPlaceType, place))
  }

  /** The birth-place stage: for each keyword in order, the place its
      search captured, keyed by its lower-cased text. Every captured place
      is offered, and nothing else is. */
  function BirthCandidates(keywords: seq<string>, search: string -> Option<string>): (r: seq<Candidate>)
    ensures |r| <= |keywords|
    ensures forall c :: c in r ==> c.entry.kind == BirthPlaceType && c.key == Lower(c.entry.text)
    ensures forall c :: c in r ==> exists i :: 0 <= i < |keywords| && search(keywords[i]) == Some(c.entry.text)
    ensures forall i :: 0 <= i < |keywords| && search(keywords[i]).Some? ==>
      BirthCandidate(search(keywords[i]).value) in r
  {
    if keywords == [] then []
    else
      var init := BirthCandidates(keywords[..|keywords| - 1], search);
      var kw := keywords[|keywords| - 1];
      assert forall i :: 0 <= i < |keywords| - 1 ==> keywords[..|keywords| - 1][i] == keywords[i];
      match search(kw)
      case None => init
      case Some(place) => init + [BirthCandidate(place)]
  }

  /** The stage visits the keywords in order: the candidates for a list of
      keywords are those of its first part followed by those of the rest. */
  lemma {:induction false} BirthCandidatesAppend(k1: seq<string>, k2: seq<string>, search: string -> Option<string>)
    ensures BirthCandidates(k1 + k2, search) == BirthCandidates(k1, search) + BirthCandidates(k2, search)
    decreases |k2|
  {
    if k2 == [] {
      assert k1 + k2 == k1;
    } else {
      var k2' := k2[..|k2| - 1];
      assert (k1 + k2)[..|k1 + k2| - 1] == k1 + k2';
      BirthCandidatesAppend(k1, k2', search);
    }
  }

  /** One keyword offers its captured place, or nothing. */
  lemma BirthCandidatesOne(kw: string, search: string -> Option<string>)
    ensures BirthCandidates([kw], search) == (if search(kw).Some? then [BirthCandidate(search(kw).value)] else [])
  {
    assert [kw][..0] == [];
  }

  /** The candidates of one pattern, keyed by their digits-only form. */
  function PatternCandidates(m: PatternMatches): (r: seq<Candidate>)
    ensures |r| == |m.spans|
    ensures forall i :: 0 <= i < |r| ==> r[i] == Candidate(DigitsOnly(m.spans[i]), Entry(m.entityType, m.spans[i]))
  {
    seq(|m.spans|, i requires 0 <= i < |m.spans| => Candidate(DigitsOnly(m.spans[i]), Entry(m.entityType, m.spans[i])))
  }

  /** The regex stage: the matches of every pattern, pattern by pattern.
      Every candidate carries a pattern's type and one of its matches, and
      is keyed by the digits of that match. */
  function RegexCandidates(ms: seq<PatternMatches>): (r: seq<Candidate>)
    ensures forall c :: c in r ==> c.key == DigitsOnly(c.entry.text)
    ensures forall c :: c in r ==> exists k :: 0 <= k < |ms| && c.entry.kind == ms[k].entityType && c.entry.text in ms[k].spans
    ensures forall k, i :: 0 <= k < |ms| && 0 <= i < |ms[k].spans| ==>
      Candidate(DigitsOnly(ms[k].spans[i]), Entry(ms[k].entityType, ms[k].spans[i])) in r
  {
    if ms == [] then []
    else
      var init := RegexCandidates(ms[..|ms| - 1]);
      var last := PatternCandidates(ms[|ms| - 1]);
      assert forall c :: c in last ==> c.entry.kind == ms[|ms| - 1].entityType && c.entry.text in ms[|ms| - 1].spans;
      assert forall k :: 0 <= k < |ms| - 1 ==> ms[..|ms| - 1][k] == ms[k];
      init + last
  }

  /** The stage visits the patterns in table order: the candidates for a
      table are those of its first part followed by those of the rest. */
  lemma {:induction false} RegexCandidatesAppend(m1: seq<PatternMatches>, m2: seq<PatternMatches>)
    ensures RegexCandidates(m1 + m2) == RegexCandidates(m1) + RegexCandidates(m2)
    decreases |m2|
  {
    if m2 == [] {
      assert m1 + m2 == m1;
    } else {
      var m2' := m2[..|m2| - 1];
      var last := m2[|m2| - 1];
      assert (m1 + m2)[..|m1 + m2| - 1] == m1 + m2';
      assert (m1 + m2)[|m1 + m2| - 1] == last;
      assert RegexCandidates(m1 + m2) == RegexCandidates(m1 + m2') + PatternCandidates(last);
      assert RegexCandidates(m2) == RegexCandidates(m2') + PatternCandidates(last);
      RegexCandidatesAppend(m1, m2');
    }
  }

  /** One pattern offers each of its matches, in match order. */
  lemma RegexCandidatesOne(m: PatternMatches)
    ensures RegexCandidates([m]) == PatternCandidates(m)
  {
    assert [m][..0] == [];
  }

  /** The e-mail stage: each analyser result sliced out of the text, keyed
      by its lower-cased form. */
  function EmailCandidates(text: string, results: seq<AnalyzerResult>): (r: seq<Candidate>)
    ensures |r| == |results|
    ensures forall i :: 0 <= i < |r| ==>
      r[i].entry == Entry(EmailType, PySlice(text, results[i].start, results[i].end)) && r[i].key == Lower(r[i].entry.text)
  {
    seq(|results|, i requires 0 <= i < |results| =>
      var span := PySlice(text, results[i].start, results[i].end);
      Candidate(Lower(span), Entry(EmailType, span)))
  }

  /** The address, birth-place, regex and e-mail stages, sharing one
      registry that starts empty. */
  function Merge(text: string, groups: map<string, seq<string>>, search: string -> Option<string>,
                 matches: seq<PatternMatches>, emails: seq<AnalyzerResult>): (r: Registry)
    ensures r.spans == KeySet(AddressCandidates(text, groups)) + KeySet(BirthCandidates(BirthKeywords, search))
                     + KeySet(RegexCandidates(matches)) + KeySet(EmailCandidates(text, emails))
    ensures ClaimAll(Empty, AddressCandidates(text, groups)).other <= r.other
  {
    var afterAddress := ClaimAll(Empty, AddressCandidates(text, groups));
    var afterBirth := ClaimAll(afterAddress, BirthCandidates(BirthKeywords, search));
    var afterRegex := ClaimAll(afterBirth, RegexCandidates(matches));
    ClaimAll(afterRegex, EmailCandidates(text, emails))
  }

  /** All candidates of the four stages, in stage order. */
  ghost function AllCandidates(text: string, groups: map<string, seq<string>>, search: string -> Option<string>,
                         matches: seq<PatternMatches>, emails: seq<AnalyzerResult>): seq<Candidate>
  {
    AddressCandidates(text, groups) + BirthCandidates(BirthKeywords, search)
    + RegexCandidates(matches) + EmailCandidates(text, emails)
  }

  /** The final gate: SNILS entries (then persons) when any SNILS was
      reported; otherwise persons then other entries, but only when both
      kinds exist; otherwise nothing. */
  function Gate(persons: seq<Entry>, snils: seq<Entry>, other: seq<Entry>): (r: seq<Entry>)
    ensures snils != [] ==> r == snils + persons
    ensures snils == [] ==> (r != [] <==> persons != [] && other != [])
    ensures snils == [] && r != [] ==> r == persons + other
  {
    if snils != [] then snils + persons
    else if persons != [] && other != [] then persons + other
    else []
  }

  /** `extract_pii` for `lang == "ru"`. Every entry of the result is a
      person or an entry the registry reported. */
  function ExtractRu(text: string, doc: seq<seq<NerEntity>>, search: string -> Option<string>,
                     matches: seq<PatternMatches>, emails: seq<AnalyzerResult>): (r: seq<Entry>)
    ensures forall e :: e in r ==>
      || e in Persons(Group(Flatten(doc)))
      || e in Merge(text, Group(Flatten(doc)), search, matches, emails).snils
      || e in Merge(text, Group(Flatten(doc)), search, matches, emails).other
  {
    var groups := Group(Flatten(doc));
    var merged := Merge(text, groups, search, matches, emails);
    Gate(Persons(groups), merged.snils, merged.other)
  }

  /** `extract_pii` for any other language: the analyser's results mapped
      one to one, in order. */
  function ExtractOther(text: string, results: seq<AnalyzerResult>): (r: seq<Entry>)
    ensures |r| == |results|
    ensures forall i :: 0 <= i < |r| ==> r[i] == Entry(results[i].entityType, PySlice(text, results[i].start, results[i].end))
  {
    seq(|results|, i requires 0 <= i < |results| =>
      Entry(results[i].entityType, PySlice(text, results[i].start, results[i].end)))
  }

  /** For offsets inside the text, each reported text is exactly the
      characters between the offsets: as long as the offsets are apart and
      matching the text there character by character. */
  lemma ExtractOtherInRange(text: string, results: seq<AnalyzerResult>)
    requires forall i :: 0 <= i < |results| ==> 0 <= results[i].start <= results[i].end <= |text|
    ensures |ExtractOther(text, results)| == |results|
    ensures forall i :: 0 <= i < |results| ==>
      && ExtractOther(text, results)[i].kind == results[i].entityType
      && |ExtractOther(text, results)[i].text| == results[i].end - results[i].start
      && forall j :: 0 <= j < results[i].end - results[i].start ==>
           ExtractOther(text, results)[i].text[j] == text[results[i].start + j]
  {
  }

  /** Runs every pattern of the table over the text. */
  function MatchAll(patterns: seq<PatternRule>, findAll: (string, string) -> seq<string>, text: string): (r: seq<PatternMatches>)
    ensures |r| == |patterns|
    ensures forall i :: 0 <= i < |r| ==> r[i] == PatternMatches(patterns[i].entityType, findAll(patterns[i].regex, text))
  {
    seq(|patterns|, i requires 0 <= i < |patterns| =>
      PatternMatches(patterns[i].entityType, findAll(patterns[i].regex, text)))
  }

  /** `extract_pii(text, lang)` with its collaborators supplied. */
  function ExtractPii(text: string, lang: string, ctx: Collaborators): (r: seq<Entry>)
    ensures lang == "ru" ==> r == ExtractRu(text, ctx.ner(text), kw => ctx.birthSearch(kw, text),
                                           MatchAll(ctx.patterns, ctx.findAll, text), ctx.analyzeEmails(text))
    ensures lang != "ru" ==> r == ExtractOther(text, ctx.analyzeAll(text))
    ensures lang != "ru" ==> |r| == |ctx.analyzeAll(text)|
    ensures lang != "ru" ==> forall i :: 0 <= i < |r| ==> r[i].kind == ctx.analyzeAll(text)[i].entityType
  {
    if lang == "ru" then
      ExtractRu(text, ctx.ner(text), kw => ctx.birthSearch(kw, text),
                MatchAll(ctx.patterns, ctx.findAll, text), ctx.analyzeEmails(text))
    else ExtractOther(text, ctx.analyzeAll(text))
  }

  /** `moderate_text`: PII is present exactly when extraction found
      something; the text is toxic exactly when it is non-empty and the
      classifier's score reaches the threshold (the classifier is not
      consulted for the empty text). */
  function ModerateText(text: string, lang: string, ctx: Collaborators): (m: Moderation)
    ensures m.results == ExtractPii(text, lang, ctx)
    ensures m.hasPii <==> m.results != []
    ensures m.isToxic <==> text != "" && ctx.toxicity(text) >= ToxicThreshold
    ensures text == "" ==> !m.isToxic
  {
    var results := ExtractPii(text, lang, ctx);
    var isToxic := if text != "" then ctx.toxicity(text) >= ToxicThreshold else false;
    Moderation(|results| > 0, isToxic, results)
  }

  // ---------------------------------------------------------------------
  // Properties of the merge

  /** The candidates the four stages report, in stage order: those that
      are the first of their key among all candidates. */
  ghost function Reported(text: string, groups: map<string, seq<string>>, search: string -> Option<string>,
                    matches: seq<PatternMatches>, emails: seq<AnalyzerResult>): seq<Candidate>
  {
    var all := AllCandidates(text, groups, search, matches, emails);
    FirstsBy(all, KeyOf, {}, |all|)
  }

  /** The four stages behave as one registry offered all candidates in
      stage order: each list receives, in order, the reported candidates
      of its type, and the set ends up holding exactly the candidates'
      keys. */
  lemma MergeIsFirsts(text: string, groups: map<string, seq<string>>, search: string -> Option<string>,
                      matches: seq<PatternMatches>, emails: seq<AnalyzerResult>)
    ensures Merge(text, groups, search, matches, emails) == Registry(
      Bucket(Reported(text, groups, search, matches, emails), true),
      Bucket(Reported(text, groups, search, matches, emails), false),
      KeySet(AllCandidates(text, groups, search, matches, emails)))
  {
    MergeIsClaimAll(text, groups, search, matches, emails);
    ClaimAllFromEmpty(AllCandidates(text, groups, search, matches, emails));
  }

  /** The whole Russian path: the gate applied to the persons and to the
      two lists of first-of-key candidates, in stage order. */
  lemma ExtractRuIsGatedFirsts(text: string, doc: seq<seq<NerEntity>>, search: string -> Option<string>,
                               matches: seq<PatternMatches>, emails: seq<AnalyzerResult>)
    ensures ExtractRu(text, doc, search, matches, emails) == Gate(
      Persons(Group(Flatten(doc))),
      Bucket(Reported(text, Group(Flatten(doc)), search, matches, emails), true),
      Bucket(Reported(text, Group(Flatten(doc)), search, matches, emails), false))
  {
    MergeIsFirsts(text, Group(Flatten(doc)), search, matches, emails);
  }

  /** Running the stages one after another is offering their concatenated
      candidates to one empty registry. */
  lemma MergeIsClaimAll(text: string, groups: map<string, seq<string>>, search: string -> Option<string>,
                        matches: seq<PatternMatches>, emails: seq<AnalyzerResult>)
    ensures Merge(text, groups, search, matches, emails) == ClaimAll(Empty, AllCandidates(text, groups, search, matches, emails))
  {
    var a := AddressCandidates(text, groups);
    var b := BirthCandidates(BirthKeywords, search);
    var x := RegexCandidates(matches);
    var e := EmailCandidates(text, emails);
    ClaimAllAppend(Empty, a, b);
    ClaimAllAppend(Empty, a + b, x);
    ClaimAllAppend(Empty, a + b + x, e);
  }

  /** No two reported candidates share a key: the registry never reports
      the same normalised span twice, whichever stages offered it. */
  lemma ReportedDistinct(text: string, groups: map<string, seq<string>>, search: string -> Option<string>,
                         matches: seq<PatternMatches>, emails: seq<AnalyzerResult>)
    ensures forall i, j :: 0 <= i < j < |Reported(text, groups, search, matches, emails)| ==>
      Reported(text, groups, search, matches, emails)[i].key != Reported(text, groups, search, matches, emails)[j].key
  {
    ReportedKeysDistinct({}, AllCandidates(text, groups, search, matches, emails));
  }

  /** The matches the regex stage reports when it runs on registry `r`. */
  ghost function RegexReported(r: Registry, ms: seq<PatternMatches>): seq<Candidate>
  {
    var cs := RegexCandidates(ms);
    FirstsBy(cs, KeyOf, r.spans, |cs|)
  }

  /** The regex stage, whatever the registry holds before it: the matches
      it reports have pairwise different digits-only forms, none of them
      already claimed; in particular at most one reported match has no
      digit at all. */
  lemma RegexStageKeys(r: Registry, ms: seq<PatternMatches>)
    ensures forall i, j :: 0 <= i < j < |RegexReported(r, ms)| ==>
      DigitsOnly(RegexReported(r, ms)[i].entry.text) != DigitsOnly(RegexReported(r, ms)[j].entry.text)
    ensures forall j :: 0 <= j < |RegexReported(r, ms)| ==> DigitsOnly(RegexReported(r, ms)[j].entry.text) !in r.spans
    ensures forall i, j :: 0 <= i < j < |RegexReported(r, ms)| && DigitsOnly(RegexReported(r, ms)[i].entry.text) == "" ==>
      DigitsOnly(RegexReported(r, ms)[j].entry.text) != ""
  {
    var cs := RegexCandidates(ms);
    var f := RegexReported(r, ms);
    ReportedKeysDistinct(r.spans, cs);
    FirstsByKept(cs, KeyOf, r.spans, |cs|);
    forall j | 0 <= j < |f|
      ensures f[j].key == DigitsOnly(f[j].entry.text)
    {
      var m :| 0 <= m < |cs| && cs[m] == f[j] && FirstOfKey(cs, KeyOf, m);
      assert cs[m] in cs;
    }
  }

  /** The regex stage appends exactly its reported matches, SNILS matches
      to the SNILS list and the others to the other list, and claims the
      digits-only form of every match. */
  lemma RegexStageAppends(r: Registry, ms: seq<PatternMatches>)
    ensures ClaimAll(r, RegexCandidates(ms)) == Registry(
      r.snils + Bucket(RegexReported(r, ms), true),
      r.other + Bucket(RegexReported(r, ms), false),
      r.spans + KeySet(RegexCandidates(ms)))
  {
    ClaimAllIsFirsts(r, RegexCandidates(ms));
  }

  /** The address candidate, when there is one, is always reported, and
      it is the first entry of the other-PII list. */
  lemma AddressReportedFirst(text: string, groups: map<string, seq<string>>, search: string -> Option<string>,
                             matches: seq<PatternMatches>, emails: seq<AnalyzerResult>)
    requires MentionsAddress(text) && AddressParts(groups) != []
    ensures Merge(text, groups, search, matches, emails).other != []
    ensures Merge(text, groups, search, matches, emails).other[0] == Entry(AddressType, Join(AddressParts(groups), ", "))
  {
    var a := AddressCandidates(text, groups);
    var afterAddress := ClaimAll(Empty, a);
    assert a == [a[0]];
    assert a[..0] == [];
    assert ClaimAll(Empty, a[..0]) == Empty;
    assert afterAddress == Claim(ClaimAll(Empty, a[..0]), a[0]);
    assert afterAddress.other == [a[0].entry];
  }

  /** No search finds a place: the birth-place stage offers nothing. */
  lemma {:induction false} BirthCandidatesNone(keywords: seq<string>, search: string -> Option<string>)
    requires forall i :: 0 <= i < |keywords| ==> search(keywords[i]) == None
    ensures BirthCandidates(keywords, search) == []
  {
    if keywords != [] {
      BirthCandidatesNone(keywords[..|keywords| - 1], search);
    }
  }

  /** No pattern matches: the regex stage offers nothing. */
  lemma {:induction false} RegexCandidatesNone(ms: seq<PatternMatches>)
    requires forall k :: 0 <= k < |ms| ==> ms[k].spans == []
    ensures RegexCandidates(ms) == []
  {
    if ms != [] {
      RegexCandidatesNone(ms[..|ms| - 1]);
    }
  }

  /** The entities whose tag is not `kind`, in order. */
  function WithoutKind(ents: seq<NerEntity>, kind: string): (r: seq<NerEntity>)
    ensures forall e :: e in r ==> e.kind != kind
  {
    if ents == [] then []
    else
      var last := ents[|ents| - 1];
      WithoutKind(ents[..|ents| - 1], kind) + (if last.kind == kind then [] else [last])
  }

  /** Removing one tag leaves the texts of every other tag unchanged. */
  lemma {:induction false} TextsOfWithout(ents: seq<NerEntity>, kind: string, k: string)
    requires k != kind
    ensures TextsOf(WithoutKind(ents, kind), k) == TextsOf(ents, k)
  {
    if ents != [] {
      var init := ents[..|ents| - 1];
      var last := ents[|ents| - 1];
      TextsOfWithout(init, kind, k);
      if last.kind != kind {
        assert ents == init + [last];
        TextsOfSnoc(init, last, k);
        TextsOfSnoc(WithoutKind(init, kind), last, k);
      } else {
        assert WithoutKind(ents, kind) == WithoutKind(init, kind) + [];
        assert WithoutKind(ents, kind) == WithoutKind(init, kind);
        assert ents == init + [last];
        TextsOfSnoc(init, last, k);
        assert TextsOf(ents, k) == TextsOf(init, k) + [];
      }
    }
  }

  /** Person names never touch the registry: removing every "PER" entity
      from the recogniser's output leaves the four stages' result
      unchanged. */
  lemma PersonsNeverClaim(text: string, ents: seq<NerEntity>, search: string -> Option<string>,
                          matches: seq<PatternMatches>, emails: seq<AnalyzerResult>)
    ensures Merge(text, Group(ents), search, matches, emails)
         == Merge(text, Group(WithoutKind(ents, "PER")), search, matches, emails)
  {
    var without := WithoutKind(ents, "PER");
    GetGroup(ents, "LOC");
    GetGroup(without, "LOC");
    GetGroup(ents, "GPE");
    GetGroup(without, "GPE");
    TextsOfWithout(ents, "PER", "LOC");
    TextsOfWithout(ents, "PER", "GPE");
    assert AddressParts(Group(ents)) == AddressParts(Group(without));
  }

  /** The reported person names are pairwise different ignoring case. */
  lemma PersonsDistinct(doc: seq<seq<NerEntity>>)
    ensures var persons := Persons(Group(Flatten(doc)));
      forall i, j :: 0 <= i < j < |persons| ==> Lower(persons[i].text) != Lower(persons[j].text)
  {
    GetGroup(Flatten(doc), "PER");
    DedupCIProperties(TextsOf(Flatten(doc), "PER"));
  }

  /** A text in which only person names were found yields nothing: with
      no address mention, no birth-place match, no pattern match and no
      e-mail, the result is empty whatever the recogniser reported. */
  lemma NamesAloneSuppressed(text: string, doc: seq<seq<NerEntity>>, search: string -> Option<string>,
                             matches: seq<PatternMatches>)
    requires !MentionsAddress(text)
    requires forall kw :: search(kw) == None
    requires forall k :: 0 <= k < |matches| ==> matches[k].spans == []
    ensures ExtractRu(text, doc, search, matches, []) == []
  {
    var groups := Group(Flatten(doc));
    var all := AllCandidates(text, groups, search, matches, []);
    BirthCandidatesNone(BirthKeywords, search);
    RegexCandidatesNone(matches);
    assert all == [];
    MergeIsFirsts(text, groups, search, matches, []);
  }

  /** A name and a SNILS number: the SNILS entry comes first, followed by
      the person, whatever the rest of the text says, provided it mentions
      no address. */
  lemma NameWithSnils(text: string)
    requires !MentionsAddress(text)
    ensures ExtractRu(text, [[NerEntity("PER", "Иван")]], kw => None,
                      [PatternMatches(SnilsType, ["112-233-445 95"])], [])
         == [Entry(SnilsType, "112-233-445 95"), Entry(PersonType, "Иван")]
  {
    var doc := [[NerEntity("PER", "Иван")]];
    var flat := Flatten(doc);
    assert flat == [NerEntity("PER", "Иван")] by {
      assert doc[..0] == [];
    }
    assert TextsOf(flat, "PER") == ["Иван"] by {
      assert flat[..0] == [];
    }
    assert DedupCI(["Иван"]) == ["Иван"] by {
      assert ["Иван"][..0] == [];
    }
    GetGroup(flat, "PER");
    var groups := Group(flat);
    assert Persons(groups) == [Entry(PersonType, "Иван")];
    var search: string -> Option<string> := kw => None;
    var matches := [PatternMatches(SnilsType, ["112-233-445 95"])];
    BirthCandidatesNone(BirthKeywords, search);
    var snilsCandidate := Candidate(DigitsOnly("112-233-445 95"), Entry(SnilsType, "112-233-445 95"));
    assert RegexCandidates(matches) == [snilsCandidate] by {
      assert matches[..0] == [];
    }
    var afterBirth := ClaimAll(ClaimAll(Empty, []), []);
    assert afterBirth == Empty;
    assert ClaimAll(Empty, [snilsCandidate]) == Claim(Empty, snilsCandidate) by {
      assert [snilsCandidate][..0] == [];
    }
    assert Merge(text, groups, search, matches, []).snils == [Entry(SnilsType, "112-233-445 95")];
  }
}
