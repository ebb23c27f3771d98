# Content moderation: PII extraction and verdict

A Dafny model of the moderation service's decision core. A request arrives at
the moderation endpoint with a bearer token, an extension point and
parameters. The service checks the token and dispatches on the point. For the
moderation points it picks a text and a language from the parameters. It then
runs `moderate_text`, which has two parts:

- `extract_pii` finds personal data in the text;
- a toxicity classifier scores the text.

The two flags are turned into a fixed verdict with a Russian message.

As written, the handler unpacks `moderate_text`'s three results into two
names (app/main.py:47), so every moderation request with a string text
raises ValueError instead of getting a verdict; see Findings. The endpoint
`Api.Receive` routes the moderation points to the corrected handler
`Api.HandleModeration`. `Api.ReceiveAsWritten` is the endpoint as written
and is proved to differ from it exactly at those points.

For Russian texts `extract_pii` first groups the named-entity recogniser's
output by tag, removing duplicates without regard to case. It then runs four
detection stages that share one set of already-reported normalised spans:

1. the address heuristic;
2. the birth-place heuristic;
3. the pattern table's regular expressions, keyed by the digits of a match;
4. the e-mail analyser.

A final gate decides what is reported. SNILS numbers are reported with the
person names found. Names are reported with other data only when both kinds
exist. Otherwise nothing is reported. For other languages the generic analyser's
results are sliced out of the text.

Modules:

- `Wrappers`: `Option` and `Result`.
- `Text`: the string operations the code takes from Python's `str`:
  - lower-casing;
  - the digit filter;
  - `in`;
  - `join`;
  - slicing;
  - `partition`.
- `Dedup`: `FirstsBy`, a reference definition of "keep the first element of
  each key". Both deduplications in the code are proved equal to it.
- `NerGrouping`: the per-tag grouping loops.
- `SpanRegistry`: the shared `found_spans` set and the two result lists it
  guards.
- `Pii`: the four stages, the gate, `extract_pii` and `moderate_text`.
- `Api`: the endpoint, namely authorization, dispatch, text selection and the
  verdict table.

The recogniser, the regular-expression engine, the birth-place search, the
generic analyser and the toxicity classifier are collaborators. They are
parameters, bundled in `Pii.Collaborators` or passed as their outputs.

Three facts about the code shape the model:

- Every regex match is keyed by its digits only (app/pii.py:54), whatever the
  pattern's type. A match of a free-text kind is not keyed by its
  lower-cased text.
- Merging checks only whether a key was already claimed. It does no SNILS
  checksum and no other structural check of a match.
- The unpacking at app/main.py:47 always fails; see Findings.

## Model

| member | source | states |
|---|---|---|
| Text.DigitsOnlyAppend | app/pii.py:54 | The digits-only key of a concatenation is the concatenation of the keys. Separators inserted anywhere in a match never change its key. |
| Text.DigitsOnlyEmptyIff | app/pii.py:54 | A match's key is empty exactly when the match holds no digit. |
| Text.DigitsOnlyOfDigits | app/pii.py:54 | A match made only of digits is its own key. |
| Text.PySlice | app/pii.py:65 | Slicing with in-range offsets yields exactly that substring. Any offsets yield a string no longer than the text, and the slice never fails. |
| Text.Partition | app/main.py:16 | The three parts concatenate back to the header. The first part holds no space. The separator part is a space, or both later parts are empty. |
| Text.PartitionAt | app/main.py:16 | A header with no space before a given space splits exactly there. |
| Text.PartitionNone | app/main.py:16 | A header without a space is all first part. |
| NerGrouping.GroupEntities | app/pii.py:16-20 | The dict the nested loops build has exactly the tags that occur as keys. It maps each tag to the case-insensitive deduplication of that tag's texts. |
| NerGrouping.DedupCIIsFirsts | app/pii.py:19-20 | The list-scanning membership test keeps exactly the first text of each lower-cased form, in order, which is the reference `FirstsBy`. |
| NerGrouping.DedupCIProperties | app/pii.py:19-20 | No two stored texts are equal ignoring case. Each stored text is the first spelling of its lower-cased form among the inputs. Every input is represented by a stored text. |
| NerGrouping.AddEntityStep | app/pii.py:19-20 | One loop step keeps the dict equal to the grouping of the entities seen so far. |
| NerGrouping.GetGroup | app/pii.py:29 | Reading a tag with default `[]` yields its deduplicated texts, whether or not the tag occurred. |
| SpanRegistry.Claim | app/pii.py:55-60 | An offered span is appended, to the SNILS list or the other list by its type, exactly when its key is not yet claimed. The key is claimed afterwards, and the lists only grow. |
| SpanRegistry.ClaimAll | app/pii.py:52-60 | Offering a sequence claims exactly its keys, and the lists only grow. |
| SpanRegistry.ClaimAllCounts | app/pii.py:52-60 | The number of entries appended equals the number of newly claimed keys. |
| SpanRegistry.ClaimAllIsFirsts | app/pii.py:52-60 | Offering a sequence appends, per list, exactly the candidates that are the first of their key and whose key was not claimed before. |
| SpanRegistry.ClaimAllAppend | app/pii.py:13 | Stages that share the one set behave as a single stage over their concatenated candidates. |
| SpanRegistry.ReportedKeysDistinct | app/pii.py:55-60 | No two reported candidates share a key, and none reuses a key claimed before. |
| Pii.AddressCandidates | app/pii.py:26-34 | There is at most one ADDRESS candidate. It exists exactly when an address keyword occurs in the lower-cased text and some LOC or GPE text was found. Its text is the LOC texts then the GPE texts joined with ", ", keyed by its lower-cased form. |
| Pii.Persons | app/pii.py:22-23 | One PERSON entry per deduplicated "PER" text, in order. There are none when no "PER" entity was found. |
| Pii.BirthCandidates | app/pii.py:37-44 | At most one BIRTH_PLACE candidate per keyword, keyed by its lower-cased text. Each one is what the search captured for some keyword. Conversely, every captured place is offered. |
| Pii.BirthCandidatesAppend | app/pii.py:37-44 | Scanning two keyword lists one after the other offers the candidates of the first list, then those of the second. |
| Pii.BirthCandidatesOne | app/pii.py:38-44 | A single keyword offers its captured place, keyed by the place's lower-cased text, or nothing when the search fails. |
| Pii.BirthCandidatesNone | app/pii.py:38-40 | When no search captures a place, the stage offers nothing. |
| Pii.RegexCandidates | app/pii.py:47-54 | Every regex candidate is keyed by the digits of its text and carries some pattern's type and one of that pattern's matches. Conversely, every match of every pattern is offered with its pattern's type. |
| Pii.RegexCandidatesAppend | app/pii.py:47-54 | Running two parts of the pattern table one after the other offers the first part's matches, then the second part's. |
| Pii.RegexCandidatesOne | app/pii.py:47-54 | A single pattern offers its matches in order, each with the pattern's type and keyed by its digits. |
| Pii.RegexCandidatesNone | app/pii.py:52 | When no pattern matches, the stage offers nothing. |
| Pii.EmailCandidates | app/pii.py:63-68 | One EMAIL_ADDRESS candidate per analyser result, in order, whose text is the result's slice of the text, keyed by its lower-cased form. |
| Pii.Gate | app/pii.py:70-76 | With SNILS entries, the result is the SNILS entries then the persons. Without them, the result is non-empty exactly when both persons and other entries exist, and it is then the persons followed by the other entries. |
| Pii.Merge | app/pii.py:26-68 | After the four stages the shared set holds exactly the keys of every stage's candidates. The address stage's entries stay at the head of the other list. |
| Pii.ExtractRu | app/pii.py:9-76 | Every reported entry is a grouped person or an entry the shared set let through. |
| Pii.ExtractRuIsGatedFirsts | app/pii.py:9-76 | The Russian path is the gate applied to the grouped persons and to the first-of-key candidates of each type over all four stages. |
| Pii.ExtractOther | app/pii.py:78-80 | One entry per analyser result, in order, with the result's type and the slice of the text between its offsets. |
| Pii.ExtractPii | app/pii.py:7-82 | For "ru" the result is the Russian path run on the collaborators' outputs for the text. For any other language it is one entry per generic analyser result, in order, carrying that result's type and its slice of the text. |
| Pii.ExtractOtherInRange | app/pii.py:78-80 | For any other language, each analyser result with offsets inside the text is reported as its type and exactly the characters between its offsets. The results are reported one to one, in order, and nothing else is reported. |
| Pii.ModerateText | app/pii.py:84-95 | `has_pii` holds exactly when extraction reported something. `is_toxic` holds exactly when the text is non-empty and its toxic probability is at least 0.1, so the empty text is never toxic. |
| Pii.MergeIsClaimAll | app/pii.py:26-68 | The four stages in order equal one registry offered all their candidates in stage order. |
| Pii.MergeIsFirsts | app/pii.py:26-68 | Each result list receives, in stage order, exactly the candidates of its type that are the first of their key among all stages' candidates. The set ends up holding every candidate's key. |
| Pii.ReportedDistinct | app/pii.py:32-68 | No two reported entries share a normalised key, whichever stages offered them. |
| Pii.RegexStageKeys | app/pii.py:52-60 | The matches the regex stage reports have pairwise different digits-only forms, none claimed by an earlier stage. At most one reported match has no digit. |
| Pii.RegexStageAppends | app/pii.py:55-60 | The regex stage appends its reported SNILS matches to the SNILS list and its other reported matches to the other list, and claims every match's key. |
| Pii.AddressReportedFirst | app/pii.py:26-34 | When the address heuristic fires, its entry is always reported and is the first entry of the other list. |
| Pii.TextsOfWithout | app/pii.py:16-20 | Dropping one tag's entities leaves every other tag's texts unchanged. |
| Pii.PersonsNeverClaim | app/pii.py:22-68 | Person names never touch the shared set. Removing every "PER" entity leaves the four stages' outcome unchanged. |
| Pii.PersonsDistinct | app/pii.py:19-23 | The reported persons are pairwise different ignoring case. |
| Pii.NamesAloneSuppressed | app/pii.py:70-76 | A text with no address mention, no birth place, no pattern match and no e-mail yields nothing, whatever names were found. |
| Pii.NameWithSnils | app/pii.py:70-73 | A name and a SNILS number yield the SNILS entry followed by the PERSON entry. |
| Api.Authorized | app/main.py:14-18 | A missing or empty header is refused. An accepted header is seven characters of scheme and space followed by exactly the key "123456". |
| Api.AuthorizedIff | app/main.py:14-18 | A header is accepted exactly when it is six characters spelling "bearer" in any case, one space, and the key "123456". A missing or empty header is refused. |
| Api.SchemeCaseIgnored | app/main.py:17 | "bEaReR 123456" is accepted. |
| Api.TrailingSpaceRefused | app/main.py:17 | "Bearer 123456 " is refused because the key is compared exactly. |
| Api.DoubleSpaceRefused | app/main.py:16-17 | "Bearer  123456" is refused because the split is at the first space. |
| Api.SelectInput | app/main.py:36-44 | Selection raises exactly when "query" is falsy and "inputs" is present but not an object. A truthy "query" always wins with language "ru". Otherwise a truthy "inputs.text" wins, with the "inputs.lang" value or "ru". Otherwise a truthy top-level "text" wins with "ru". A language other than "ru" comes only from an "inputs" object carrying "lang". The selected text is the empty default or a truthy value. |
| Api.SelectionPrecedence | app/main.py:38-44 | The chosen text is the default or the value of "query", "inputs.text" or "text". Each is reached only when the earlier ones are falsy, so "text" is chosen only when "inputs.text" is falsy. The default is chosen exactly when all three are falsy. |
| Api.LangTag | app/pii.py:9 | A language value selects the Russian path exactly when it is the string "ru". |
| Api.Decide | app/main.py:49-66 | Every verdict is direct output. It is flagged exactly when PII or toxicity was found. Its message is empty exactly when it is not flagged. |
| Api.DecideReadBack | app/main.py:56-61 | The three messages are distinct. Reading a verdict's message back gives the two flags it was decided from. |
| Api.Unpack | app/main.py:47 | Unpacking succeeds exactly when the tuple has as many values as names, and raises ValueError otherwise. |
| Api.HandleModerationAsWritten | app/main.py:35-66 | The handler as written never produces a verdict. Every request whose selected text is a string ends in ValueError. |
| Api.AsWrittenCounterexample | app/main.py:47 | For the parameters `{"query": "привет"}` the handler as written raises ValueError, while the corrected handler answers. |
| Api.HandleModeration | app/main.py:35-66 | The corrected handler answers exactly when selection succeeds with a string text. It answers with the verdict for the flags `moderate_text` computes on that text and language. |
| Api.EmptyTextNotFlagged | app/main.py:36-54 | Parameters without any usable text are always answered. The verdict is flagged exactly when extraction reports something in the empty text, since the empty text is never toxic. When it reports nothing, the verdict is the unflagged one. |
| Api.VerdictReportsFlags | app/main.py:47-66 | A verdict's message reads back to whether PII was reported and whether the text is toxic. It is flagged exactly when either holds. |
| Api.Dispatch | app/main.py:20-32 | The pong is answered exactly for "ping". The four moderation points get the corrected handler's answer and are the only points that can raise. Every other point gets a flagged direct-output verdict naming it. |
| Api.Receive | app/main.py:13-32 | An unauthorized request is refused with 401 before anything else. An authorized one is dispatched. |
| Api.ReceiveAsWritten | app/main.py:13-32 | The endpoint as written refuses an unauthorized request with 401 and agrees with the modelled endpoint at every point except the four moderation points. There an authorized request never gets a verdict, and a string text ends in ValueError where the modelled endpoint answers. |
| Api.ReceiveShape | app/main.py:14-32 | Every answer other than the pong is direct output. A refused request does not depend on the models. An unknown point is always flagged. |

## Left out

- Text.Lower: lower-cases only ASCII A-Z and the Cyrillic capitals U+0400..U+042F, because Python's full Unicode case mapping is a large table outside the logic modelled. Other characters are left unchanged.
- Text.DigitsOnly: keeps ASCII digits only. Python's `str.isdigit` also accepts other Unicode digits, superscripts among them.
- Pii.BirthCandidates: the regular expression at app/pii.py:39 is a collaborator (`birthSearch`). The model proves nothing about which place names it captures.
- Pii.RegexCandidates: the pattern table and the regular-expression engine (`re.compile`, `finditer`) are collaborators. The table is loaded from a spreadsheet by app/deps.py, which is not part of this model. Only the list of matched strings per pattern is modelled.
- Pii.ModerateText: the tokenizer, the 512-token truncation and the classifier are one collaborator returning the toxic-class probability. That probability is a mathematical real, so floating-point rounding is not modelled.
- Named-entity recognition (stanza), the generic Presidio analyser and the e-mail analyser are collaborators. Their outputs are inputs.
- Api.HandleModeration: a selected text that is not a string is treated as raising TypeError, in this handler and in Api.HandleModerationAsWritten. The real exception type depends on the libraries it reaches.
- Api.Dispatch: the moderation points are routed to the corrected Api.HandleModeration, not to the handler as written. As written, such a request with a string text ends in ValueError (app/main.py:26, 47), which FastAPI turns into HTTP 500. Api.ReceiveAsWritten states that endpoint.
- Api.Receive: FastAPI's request validation is not modelled. Neither is the conversion of exceptions into HTTP 500 responses or the JSON serialisation. The request schema (app/schemas.py) is not part of this model; the body is a point string and a parameter object.
- app/deps.py is not part of this model: loading the models, the phone-region table and the pattern table.
- The code at app/pii.py and app/main.py computes no SNILS checksum and does no phone-region lookup, so neither is modelled.
- Api.HandleModeration: exceptions raised by the collaborators are not modelled. These are the recogniser (`nlp_ru`), `analyzer.analyze` and the toxicity model, and also `re.error` from `re.compile` (app/pii.py:50) on a malformed pattern. Every collaborator is a total function, so the corrected handler's promise to answer holds only under that abstraction.

## Findings

| source | as written | input that shows it | evidently intended | confidence | as-written member | corrected member |
|---|---|---|---|---|---|---|
| app/main.py:47 | `has_pii, is_toxic = moderate_text(text, lang)` unpacks the three values `moderate_text` returns (app/pii.py:95) into two names. It raises ValueError, so no moderation request is ever answered with a verdict. | Any authorized request to "app.moderation.input" with parameters `{"query": "привет"}`. | Take the first two values, for example `has_pii, is_toxic, _ = moderate_text(text, lang)`, and build the verdict from them. | not executed; follows from Python's unpacking rule | Api.AsWrittenCounterexample | Api.HandleModeration |
