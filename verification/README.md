# Interview question bank and interview session, in Dafny

This project models the core of a small interview agent written in Python.
The model covers three pieces:

- **The question loader.** Question files are made of `--- header --- body` blocks. Each block becomes a `Question` record:
  - a string id;
  - the technology, taken from the file name;
  - the role list and the tag list;
  - the year range;
  - the question text;
  - an optional explanation.
- **Question selection.** Questions are filtered on technology, role and years. The filter is relaxed step by step through four tiers until one has enough candidates. The chosen tier is shuffled and cut to `n`.
- **The interview session.** A session is an ordered list of selected questions, a cursor that only moves forward, and an answer map keyed by question id.

Files:

- `results.dfy` (`Results`): `Option` and `Result`.
- `text.dfy` (`PyText`): the Python string built-ins the loader relies on:
  - `str.strip()`, with Python's `isspace` set;
  - `str.split(",")`, which keeps empty pieces, and how it behaves around one separator;
  - `str(int)`;
  - `int(str)`, with surrounding whitespace, a sign, and digits with single underscores.

  `Join` is there only to state the inverse of `split`; the loader never joins.
- `metadata.dfy` (`Metadata`): one YAML value (`Raw`), a parsed header, truthiness, `x or y`, `dict.get`, `str`/`repr` and `int()`.
- `questions_loader.dfy` (`QuestionsLoader`): the normalisers, the per-block field derivation, `parse_questions_from_text` and `load_questions`.
- `selection.dfy` (`Selection`): the four tiers, CPython's `random.shuffle` and the `[:n]` slice.
- `session.dfy` (`Sessions`): `InterviewSession` and `get_explanation`.

Randomness is a parameter. `random.shuffle` is modelled as CPython's Fisher–Yates loop. It runs `for i in reversed(range(1, len(x)))`, exchanging position `i` with position `randbelow(i + 1)`. The `k`-th number it draws is `draws[k] % (i + 1)`, or 0 once `draws` is exhausted.

The loader works on files that have already been read and split into blocks. Each block header arrives as the outcome of `yaml.safe_load`:

- a parse failure;
- a mapping;
- any other document.

Behaviours of the code that the model keeps, and that a reader might not expect:

- **Year bounds.** The fallback of 0 or 100 applies only through the alias keys `min_year` and `max_year`. A primary key (`min_years`, `max_years`) that is present is always passed to `int()`. With a null value that is `int(None)`, which raises (`NullYearKeyFails`). A string that is not an integer raises too (`NonNumericYearFails`).
- **Non-mapping headers.** A truthy header document that is not a mapping (say, a bare string) has no `get`. The block raises, and so does the whole load.
- **`int()` and whitespace.** `int()` skips the same surrounding whitespace as `strip()`, except the information separators U+001C..U+001F. A string holding one of those is never a number (`InfoSeparatorIsNotIntSpace`).
- **Empty role lists.** With no truthy `role`, a `roles` value of `""`, `" , "` or `[]` normalises to no roles at all. Such a question matches no role, so the strict and relax-years tiers never choose it (`EmptyRoleValues`, `NoRolesExcluded`). A falsy `role` (`""`) with no `roles` key gives the sentinel `["any"]` instead.
- **Ids are not unique.** Generated ids never collide with each other (`GeneratedIdsUnique`). An explicit id can still equal another block's generated id. For example, block 1 with `id: py-2` and block 2 whose header does not parse both give `py-2` (`ExplicitIdMayCollide`).
- **Default count.** When `n` is not given, `select_questions` picks up to 5 questions (`SelectDefault`).
- **Negative `n`.** The code has no guard for it. With `n < 0` the strict tier always qualifies, and `[:n]` drops the last `-n` candidates instead of returning nothing (`NegativeCount`).

## Model

| member | source | states |
|---|---|---|
| PyText.Strip | questions_loader.py:60 | the stripped text has no whitespace at either end and is no longer than the input |
| PyText.StripIsInfix | questions_loader.py:60 | `strip` removes exactly a whitespace run at each end; a text holding any non-whitespace character does not strip to empty |
| PyText.StripIdempotent | questions_loader.py:29 | stripping twice is stripping once |
| PyText.Split | questions_loader.py:29 | `split(",")` gives at least one piece and no piece contains the separator |
| PyText.SplitAppend | questions_loader.py:29 | text split around one separator gives the pieces of the part before it followed by the pieces of the part after it |
| PyText.JoinSplit | questions_loader.py:29 | joining the pieces of a split with the separator gives the text back |
| PyText.SplitJoin | questions_loader.py:39 | splitting separator-free pieces joined with the separator gives the pieces back |
| PyText.NatToString | questions_loader.py:54 | `str(n)` is a non-empty run of digits without a leading zero |
| PyText.NatToStringValue | questions_loader.py:54 | reading back the digits `str(n)` writes gives `n` |
| PyText.NatToStringInjective | questions_loader.py:54 | different numbers print differently |
| PyText.ParseIntToString | questions_loader.py:56-57 | `int(str(i)) == i` for every integer, negative ones included |
| PyText.LettersAreNotAnInt | questions_loader.py:56 | `int("abc")` raises |
| PyText.InfoSeparatorIsNotIntSpace | questions_loader.py:56-57 | `strip()` removes a leading U+001C but `int()` refuses the string; for example `int(" 5\n")` is 5 |
| PyText.ParseInt | questions_loader.py:56-57 | `int()` accepts a string only when it holds no information separator and does not strip to empty |
| PyText.StripPadded | questions_loader.py:60 | a text with whitespace around a part that begins and ends with non-whitespace strips to exactly that part |
| PyText.ParseIntPadded | questions_loader.py:56-57 | `int()` reads `str(i)` with any whitespace other than U+001C..U+001F before and after it as `i` |
| Metadata.TruthyRule | questions_loader.py:51-57 | `bool()` of a number or boolean is true exactly when `int()` of it is not 0, of a string exactly when its `str()` is not empty; `None` is false and prints as `None` |
| Metadata.Show | questions_loader.py:31-42 | `str()` of a string is the string itself, its `repr` adds one quote at each end, and a list prints between brackets |
| Metadata.Or | questions_loader.py:55 | `x or y` is truthy exactly when one operand is, and is one of the two operands |
| Metadata.Lookup | questions_loader.py:54-59 | `meta.get(key)` is the stored value, or `None` for a missing key |
| Metadata.ToInt | questions_loader.py:56-57 | `int()` keeps an integer, raises on `None` and on a list, and every failure names the offending value; strings go through `int(str)` (`ParseIntToString`, `LettersAreNotAnInt`) |
| Metadata.ToIntOfPrintedInt | questions_loader.py:56-57 | a year written as a number or as its decimal text reads back as that number |
| Metadata.MetaOf | questions_loader.py:50-53 | a header YAML cannot parse reads as the empty mapping; a mapping is used as is; another document raises exactly when it is truthy |
| QuestionsLoader.NonBlankPieces | questions_loader.py:29 | the kept pieces are non-empty and trimmed, no more than the pieces split off, and every piece that is not blank is kept (stripped) |
| QuestionsLoader.NonBlankPiecesFrom | questions_loader.py:29 | every kept name is the stripped text of one of the pieces |
| QuestionsLoader.NonBlankPiecesFlat | questions_loader.py:29 | the kept names are the concatenation, over the pieces in order, of each piece's stripped text, or nothing for a blank piece |
| QuestionsLoader.NonBlankPiecesAppend | questions_loader.py:29 | pieces are handled in order: the names of two runs of pieces are the names of the first run followed by those of the second |
| QuestionsLoader.AllBlankPieces | questions_loader.py:29 | pieces that are all blank give no names |
| QuestionsLoader.NonBlankPiecesAvoid | questions_loader.py:29 | a character that no piece contains is in no kept piece either |
| QuestionsLoader.Normalize | questions_loader.py:26-27 | `None` normalises to the given default |
| QuestionsLoader.NormalizeStringRules | questions_loader.py:28-29 | a string normalises as the text before a comma followed by the text after it, and comma-free text gives its stripped self or nothing when blank; these two rules fix the result, order included, for every string |
| QuestionsLoader.NormalizeShape | questions_loader.py:28-32 | string input: non-blank, trimmed, comma-free names, each the stripped text of some piece, no more names than pieces, every non-blank piece present. List input: same length, element `k` is `str(item k).strip()`, blank ones kept. Any other value: its `str` alone |
| QuestionsLoader.StrippedShowsAt | questions_loader.py:31 | element `k` of the list normalisation is the stripped `str` of item `k` |
| QuestionsLoader.NormalizeRoles | questions_loader.py:25-32 | `None` becomes the sentinel `["any"]`; every other value normalises exactly as a tag value does |
| QuestionsLoader.NormalizeTags | questions_loader.py:35-37 | `None` becomes the empty list |
| QuestionsLoader.NormalizeCommaJoined | questions_loader.py:38-39 | clean names written as one comma-separated string normalise back to the same list, for tags and roles alike |
| QuestionsLoader.GeneratedIdsDiffer | questions_loader.py:54 | generated ids `"{tech}-{k}"` differ whenever the positions differ |
| QuestionsLoader.ParseBlock | questions_loader.py:48-70 | a parsed block carries the file's technology and the stripped body as its text |
| QuestionsLoader.HeaderFallbacks | questions_loader.py:50-59 | an unparsable or falsy header, the empty mapping included, gives the generated id, roles `["any"]`, years 0 to 100, no tags and no explanation; a truthy non-mapping header raises |
| QuestionsLoader.IdRule | questions_loader.py:54 | a truthy `id` is kept as its `str`; a missing or falsy one becomes `"{tech}-{k}"` |
| QuestionsLoader.EmptyRoleValues | questions_loader.py:55 | with no truthy `role`, a `roles` value that is `[]` or a string of blank pieces gives no roles, while a missing `roles` key gives `["any"]` |
| QuestionsLoader.RolePrecedence | questions_loader.py:55 | a truthy `role` wins over `roles`; with neither key the roles are `["any"]`; tags come from `tags` |
| QuestionsLoader.MinYearsRule | questions_loader.py:56 | the lower bound is `int()` of `min_years` whenever that key is present, whatever its value; otherwise `int()` of a truthy `min_year`; otherwise 0 |
| QuestionsLoader.MaxYearsRule | questions_loader.py:57 | the upper bound is `int()` of `max_years` whenever that key is present, whatever its value; otherwise `int()` of a truthy `max_year`; otherwise 100 |
| QuestionsLoader.YearValueErrors | questions_loader.py:56-57 | a present `min_years`/`max_years`, or, when that key is absent, a truthy `min_year`/`max_year`, whose value `int()` rejects makes the block raise with that value; the lower bound is checked first |
| QuestionsLoader.NonNumericYearFails | questions_loader.py:56 | `min_years: abc` makes the block raise, naming `"abc"` |
| QuestionsLoader.NullYearKeyFails | questions_loader.py:56 | a `min_years` key holding `None` is not defaulted: the block raises on `int(None)` |
| QuestionsLoader.IntegerYearsParse | questions_loader.py:56-57 | a mapping whose year keys hold integers, or are absent, always parses |
| QuestionsLoader.ExplanationKept | questions_loader.py:59 | the `explanation` value is carried over untouched, `None` when missing |
| QuestionsLoader.ParseEach | questions_loader.py:47-71 | the per-block loop yields one result per block and keeps the results already gathered |
| QuestionsLoader.ParseEachInOrder | questions_loader.py:48-70 | the loop succeeds exactly when every step does, and result `i` is item `i` handled as number `i + 1` |
| QuestionsLoader.ParseEachFirstError | questions_loader.py:48-70 | a failing loop fails with the error of its first failing step |
| QuestionsLoader.ParseQuestionsFromText | questions_loader.py:45-71 | a parsed file has exactly one question per block |
| QuestionsLoader.ParsedInBlockOrder | questions_loader.py:48-71 | a file parses exactly when every block does, and question `i` is block `i` parsed as block number `i + 1` |
| QuestionsLoader.FirstBlockErrorWins | questions_loader.py:48-70 | a failing file reports the exception of its first failing block |
| QuestionsLoader.MalformedHeaderDefaults | questions_loader.py:50-53 | a block whose header does not parse is kept, as a question with the generated id and every default |
| QuestionsLoader.ParsedAt | questions_loader.py:61-70 | in a parsed file, question `i` is what block `i` gives, and that block parsed |
| QuestionsLoader.ParsedIdAt | questions_loader.py:54 | in a parsed file, the question from a block without an explicit id has the id generated from its 1-based position |
| QuestionsLoader.GeneratedIdsUnique | questions_loader.py:54 | within one file, no two questions with generated ids share an id |
| QuestionsLoader.ExplicitIdMayCollide | questions_loader.py:54 | ids are not unique in a file: block 1 with `id: py-2` and block 2 with a header that does not parse both get the id `py-2` |
| QuestionsLoader.ParsedTech | questions_loader.py:63 | every question of a parsed file carries the file's technology |
| QuestionsLoader.ConcatEach | questions_loader.py:76-84 | no files give no questions |
| QuestionsLoader.ConcatEachOk | questions_loader.py:78-83 | the concatenation succeeds exactly when every item parses |
| QuestionsLoader.ConcatEachFirstError | questions_loader.py:82 | a failing concatenation fails with the error of its first failing item |
| QuestionsLoader.ConcatEachAppend | questions_loader.py:83 | concatenating over two runs of items is concatenating the two results; a failure in the first run is the whole result |
| QuestionsLoader.ConcatEachLength | questions_loader.py:83 | the concatenation's length is the total of the items' sizes |
| QuestionsLoader.ConcatEachKeeps | questions_loader.py:83 | a property of every element of every part holds of every element of the whole |
| QuestionsLoader.LoadQuestions | questions_loader.py:74-84 | loading no files gives no questions |
| QuestionsLoader.LoadQuestionsOk | questions_loader.py:78-83 | the load succeeds exactly when every file parses |
| QuestionsLoader.LoadQuestionsFirstError | questions_loader.py:82 | a failed load reports the exception of the first file that raised |
| QuestionsLoader.LoadQuestionsAppend | questions_loader.py:83 | loading two groups of files in turn is loading them together: the questions are concatenated in file order |
| QuestionsLoader.LoadQuestionsLength | questions_loader.py:76-84 | a load yields one question per block over all files |
| QuestionsLoader.LoadQuestionsTechs | questions_loader.py:79 | every loaded question carries the technology of one of the files |
| Selection.Candidates | interview_agent.py:12 | a tier's candidates are no more than the input and each is admitted by the tier |
| Selection.CandidatesCount | interview_agent.py:12 | a tier keeps every copy of each question it admits and no copy of any other |
| Selection.TierImplies | interview_agent.py:12-30 | what the strict tier admits every tier admits; what any tier admits the technology-only tier admits |
| Selection.CandidatesGrow | interview_agent.py:18-30 | a looser tier never has fewer candidates |
| Selection.ChosenTier | interview_agent.py:13-32 | with `n <= 0` the strict tier is chosen, with `n` above the number of questions the fallback is; a tier other than the fallback has at least `n` candidates |
| Selection.ChosenTierIsFirst | interview_agent.py:13-32 | every tier tried before the chosen one has fewer than `n` candidates; the chosen one has at least `n` unless it is the fallback |
| Selection.NoRolesExcluded | interview_agent.py:12-18 | a question with an empty role list is never a candidate of the strict or the relax-years tier |
| Selection.InvertedRangeExcluded | interview_agent.py:12 | a question with `min_years > max_years` is never a candidate of a tier that filters on years |
| Selection.Swap | interview_agent.py:14 | an exchange keeps the length |
| Selection.SwapPermutes | interview_agent.py:14 | an exchange moves exactly the two elements and keeps the multiset |
| Selection.ShuffleFrom | interview_agent.py:14 | the shuffle loop keeps the length |
| Selection.ShuffleFromPermutes | interview_agent.py:14 | the shuffle loop is a permutation |
| Selection.ShuffleFromKeepsSettled | interview_agent.py:14 | the shuffle loop never moves a position it has already settled |
| Selection.ShuffleFromIdentity | interview_agent.py:14 | draws that always pick the current position leave the order unchanged |
| Selection.Shuffle | interview_agent.py:20 | `random.shuffle` keeps the length |
| Selection.ShufflePermutes | interview_agent.py:31 | `random.shuffle` neither loses, duplicates nor invents an element |
| Selection.Take | interview_agent.py:15 | `s[:n]` is a prefix of `s`, of length `min(n, len(s))` for `n >= 0` and `max(0, len(s) + n)` for `n < 0` |
| Selection.PrefixMultiset | interview_agent.py:32 | a prefix holds no more of any element than the whole |
| Selection.SelectQuestions | interview_agent.py:7-32 | for `n >= 0` at most `n` questions are selected |
| Selection.SelectDefault | interview_agent.py:7 | without an explicit `n`, five questions are selected, or all the technology has when it has fewer |
| Selection.SelectedFromTier | interview_agent.py:13-32 | the selection is a sub-multiset of the chosen tier's candidates, hence of the input |
| Selection.SelectedAdmitted | interview_agent.py:12-15 | every selected question is about the technology and admitted by the chosen tier; when the strict tier has `n` candidates, every one matches the role (or `any`) and the years |
| Selection.SelectedCount | interview_agent.py:12-32 | for `n >= 0` exactly `min(n, m)` questions are selected, `m` being the number about the technology |
| Selection.NegativeCount | interview_agent.py:13-15 | a negative `n` settles on the strict tier and drops its last `-n` candidates |
| Selection.NoQuestionsForTech | interview_agent.py:30-32 | with no question about the technology nothing is selected |
| Sessions.NewSession | interview_agent.py:36-43 | a new session keeps its arguments, the session id included, starts at cursor 0 with no answers, and is valid |
| Sessions.IsFinished | interview_agent.py:55-56 | an unfinished session has a question under the cursor; in a valid session it is finished exactly when the cursor is at the end |
| Sessions.GetNextQuestion | interview_agent.py:45-50 | it returns nothing exactly when the session is finished, and then leaves the session as it was; otherwise it returns the question under the cursor and moves the cursor one step; the cursor stays within the list; the list and the answers are unchanged |
| Sessions.RecordAnswer | interview_agent.py:52-53 | the answer for `qid` is set; every other key and every other field are unchanged |
| Sessions.RecordAnswerOverwrites | interview_agent.py:53 | a second answer for the same question replaces the first |
| Sessions.RecordAnswerCommutes | interview_agent.py:53 | answers to different questions can be recorded in either order |
| Sessions.RecordAnswerKeepsProgress | interview_agent.py:52-56 | recording an answer changes neither whether the session is finished nor the next question |
| Sessions.AskMany | interview_agent.py:45-50 | `k` calls give `k` results and leave the list and the answers alone |
| Sessions.AskManyInOrder | interview_agent.py:45-50 | successive calls return the remaining questions in list order, then nothing; the cursor ends `k` further on, capped at the end |
| Sessions.FreshSessionRunsThrough | interview_agent.py:42-50 | a new session hands out every question exactly once, in order, then only nothing, and is finished |
| Sessions.FinishedExactlyAtEnd | interview_agent.py:55-56 | a new session is finished after `k` calls exactly when `k` reaches the number of questions |
| Sessions.RunToEnd | interview_agent.py:45-50 | calling until nothing comes back yields exactly the rest of the list and ends finished |
| Sessions.ExplanationFromHeader | interview_agent.py:59-60 | the explanation offered for a question is its header's `explanation` value, or nothing when the header had none or did not parse |

## Left out

- The `_FRONT_MATTER_RE` regular expression and `yaml.safe_load` are library behaviour. A file arrives already split into blocks, and each header arrives as the parse outcome (`Header`).
- YAML mapping keys other than strings are not represented.
- `load_questions` does file-system work, which is not modelled: `glob`, reading files and taking the base name.
  - The files arrive as `(tech, blocks)` pairs in the order the listing produced.
  - The listing order itself is arbitrary and is not modelled.
- `int()` of a float and of other YAML scalars (dates, for instance) is left out. Every such value is an `Other` and raises. A `bytes` value is not modelled either.
- PyText.ParseInt: the cap on the number of digits `int()` accepts (4300 by default from Python 3.11, and configurable at run time) is not modelled. Longer digit strings read as numbers, and `ParseIntToString` holds for every integer.
- `int()` of a string accepts ASCII digits only. Python also accepts other Unicode decimal digits.
- `repr` of a string is written as the text between single quotes. Python's choice between quote styles and its escaping are not modelled.
- Selection.Shuffle: the draws parameter fixes which exchanges happen. That `randbelow` picks uniformly, and that every permutation can be reached, is not stated.
- Sessions.GetExplanation: returns the stored value as is. Its contract is stated through `ExplanationFromHeader` rather than on the function.
- `app.py` is not part of this model. It holds only the chat UI, the OpenAI and Pushover calls and PDF extraction.
- The conversational flow is not part of any modelled file: the name → project → answers flow, the `explain` command, and answer summaries.
- The `__main__` smoke tests print to the console and are not modelled.
