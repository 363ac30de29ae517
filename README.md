# SQL-injection detector: query preprocessing, encoding, verdict, and benchmark converter

This project models two parts of the SQL-injection detector in Dafny and proves properties of them.

The first part is the `AutoEncoder` pipeline of `utils/scripts/prediction.py`:

- `pre_process` is the fixed chain of string rewrites that canonicalises a query:
  - newline removal, lower-casing and trimming;
  - fourteen regular-expression substitutions: one collapses runs of whitespace, and the others replace e-mail addresses, dotted names, times, dates, series, `char(...)` calls, numbers, repeated characters, single word characters (letters, digits, `_`) other than 'a', and special characters by placeholders such as `<EMAIL>` or `<REGEX>`;
  - comma removal.
- `encode` turns the tokens of the preprocessed query into 40 ids. It removes the `Ġ` markers, drops empty tokens, replaces single letters and integers by `<oov>` in place, looks the tokens up and pads.
- `check_input` rejects inputs with too few real ids.
- `masked_sparse_categorical_accuracy` is the share of scored positions that the network reproduces.
- `analyse` combines the above into a 0/1 verdict against the threshold.

The second part is the benchmark converter of `utils/scripts/txt_to_json_ForTest.py`. It reads the cleaned lines of a benchmark file, which consist of:

- a `--` type header;
- the label line after it;
- content lines up to the next header.

It produces one `{content, type, label}` record per content line.

Modules:

- `Text`: the Python `str` operations used (`strip`, `lower`, `replace` of one character, `startswith`) and the character classes `\s`, `\d`, `\w`.
- `Patterns`: each substitution of `pre_process` as the length of the match at a position. `Sub` is `re.sub`: scan left to right, replace a match and skip past it, otherwise copy one character. Look-arounds and `\b` look at the input string, as Python's do. Where a pattern could backtrack, the match functions say which shorter match, if any, Python ends up with.
- `Substitutions`: run-by-run reference definitions of the whitespace, repetition and special-character steps, proved equal to the scanning definition.
- `PreProcessing`: the whole chain and what its output can no longer contain.
- `Classifier`:
  - `encode` is a method whose loop overwrites bare tokens in an array in place.
  - `check_input`, the masked accuracy and the verdict are functions.
  - `analyse` is a method proved against the verdict function.
  - The tokenizer and the network are values the caller supplies.
  - `AutoEncoder` is a datatype, because its fields are set once and never changed.
- `BenchmarkConverter`: the parsing loop is a method with two nested `while` loops. It is proved equal to the mutually recursive specification `Parse`/`Section`, whose properties are proved as lemmas.

The converter's docstring shows the label line as `-- Label [l] --`. The code reads the label as the character at index 9, which in that layout is `[`. So the documented layout makes `int(...)` raise. The model follows the code: the label is the digit at index 9, and any other line is an error (`LabelLayouts` shows all three cases).

## Model

| member | source | states |
|---|---|---|
| Text.RemoveAll | utils/scripts/prediction.py:80 | `replace(c, "")` leaves no `c`, and keeps every other character with its multiplicity |
| Text.RemoveAllAppend | utils/scripts/prediction.py:80 | removal distributes over concatenation, so the kept characters stay in their order |
| Text.RemoveAllSingle | utils/scripts/prediction.py:80 | a single character is dropped iff it is the removed one |
| Text.RemoveAllAbsent | utils/scripts/prediction.py:100 | removing a character that is not there changes nothing |
| Text.RemoveAllKeepsOut | utils/scripts/prediction.py:100 | removing one character never brings in a character the input lacks |
| Text.Lower | utils/scripts/prediction.py:81 | `lower()` keeps the length, maps each character by itself, and leaves no upper-case ASCII letter |
| Text.LeadingSpaces | utils/scripts/prediction.py:82 | the count of leading whitespace: all of those characters are whitespace, and the next one is not |
| Text.TrailingSpaces | utils/scripts/prediction.py:82 | the count of trailing whitespace: all of those characters are whitespace, and the one before is not |
| Text.Strip | utils/scripts/prediction.py:82 | `strip()` gives the infix after the leading whitespace; only whitespace follows it; its ends are not whitespace |
| Text.StripKeepsTrimmed | utils/scripts/txt_to_json_ForTest.py:62 | stripping a string that has no whitespace at its ends changes nothing, so stripping is idempotent |
| Patterns.RunMatch | utils/scripts/prediction.py:84 | `\s{2,}` and `[...]{2,}` match the whole maximal run from i when it has at least two characters, and nothing otherwise |
| Patterns.MatchEmail | utils/scripts/prediction.py:85 | an e-mail match starts with a local-part character and ends with a letter |
| Patterns.LastTopLevelDot | utils/scripts/prediction.py:85 | the last '.' followed by two letters strictly between the bounds, where the domain part gives back characters; the lower bound iff there is none |
| Patterns.MatchDotted | utils/scripts/prediction.py:86 | a dotted-name match starts and ends with a word character and contains a '.' |
| Patterns.DottedEnd | utils/scripts/prediction.py:86 | the greedy `(?:\.\w+)*` covers whole groups: it starts with '.', every '.' in it is followed by a word character inside it, it holds only word characters and dots, ends at the end of a word run, and stops where no `.` plus word character follows |
| Patterns.MatchTime | utils/scripts/prediction.py:87 | a time match starts with a digit and contains ':' |
| Patterns.TimeEnd | utils/scripts/prediction.py:87 | the last `\d+:` group is given back iff no digit follows it; otherwise what it covers is digit groups joined by ':' (only digits, and colons each followed by a digit inside it), ending at the end of a digit run that no `:` plus digit follows |
| Patterns.MatchDate | utils/scripts/prediction.py:88 | a date match is 10 characters long, with '-' at offsets 4 and 7 |
| Patterns.MatchSeries | utils/scripts/prediction.py:89-90 | a series match (of words or of numbers) contains ',' |
| Patterns.NextItem | utils/scripts/prediction.py:89-90 | a further item exists iff ',' is followed by the first item again (words) or by a digit (numbers); it then ends after that copy, or at the end of the digit run |
| Patterns.SeriesEnd | utils/scripts/prediction.py:89-90 | the series end after backtracking is the previous item's end, or a word boundary at or after the current item's end |
| Patterns.MatchCharCall | utils/scripts/prediction.py:91 | a `char(...)` match starts with `char(`, ends with ')', and has at least 7 characters |
| Patterns.PlusDigitsEnd | utils/scripts/prediction.py:91 | the greedy `(?:\+\d+)*` covers whole groups: it starts with '+', every '+' in it is followed by a digit inside it, it holds only digits and '+', ends at the end of a digit run, and stops where no '+' plus digit follows |
| Patterns.MatchSeriesChain | utils/scripts/prediction.py:92 | a chain match starts with `<SERIES>` and is at least 17 characters long, the length of two of them joined by '+' |
| Patterns.ChainEnd | utils/scripts/prediction.py:92 | the greedy `(?:\+<SERIES>)*` takes whole 9-character blocks, each of them `+<SERIES>`, and stops where no `+<SERIES>` follows |
| Patterns.MatchNumber | utils/scripts/prediction.py:93 | a number match starts and ends with a digit, and a word boundary follows it |
| Patterns.MatchRepetition | utils/scripts/prediction.py:94 | `(.)\1{2,}` matches exactly a maximal run of three or more copies of a character other than newline |
| Patterns.MatchSingle | utils/scripts/prediction.py:95 | a `<SINGLE>` match is one word character other than 'a' |
| Patterns.Span | utils/scripts/prediction.py:84-99 | the maximal run of a class from i: every character in it is in the class, and the next one is not |
| Patterns.MatchLen | utils/scripts/prediction.py:84-99 | a match never runs past the end of the input |
| Substitutions.SubFromUnchanged | utils/scripts/prediction.py:84-99 | where a pattern matches nowhere, `re.sub` returns its input |
| Substitutions.SubFromAvoids | utils/scripts/prediction.py:84-99 | a substitution that matches every character of a class, with a replacement free of that class, leaves none in its output |
| Substitutions.SubKeepsOut | utils/scripts/prediction.py:84-99 | a substitution never inserts a character that is neither in its input nor in its replacement |
| Substitutions.RunPatternCollapses | utils/scripts/prediction.py:98 | a run pattern's `re.sub` equals the run-by-run reference `CollapseRuns` |
| Substitutions.CollapseSpaces | utils/scripts/prediction.py:84 | every maximal run of two or more whitespace characters becomes one space, and a lone one stays |
| Substitutions.RunPatternLeavesNoPair | utils/scripts/prediction.py:84 | after `\s{2,}` → " ", no two whitespace characters are adjacent |
| Substitutions.NoAdjacentPairAppend | utils/scripts/prediction.py:84 | joining two strings with no adjacent pair keeps that property when the join point is clean |
| Substitutions.SpacesKeepSingles | utils/scripts/prediction.py:84 | a string with no two adjacent whitespace characters is unchanged, so the step is idempotent |
| Substitutions.Outside | utils/scripts/prediction.py:84 | the characters outside a class, in order |
| Substitutions.OutsideAppend | utils/scripts/prediction.py:84 | the characters outside a class distribute over concatenation |
| Substitutions.OutsideOfRun | utils/scripts/prediction.py:84 | a run of the class has nothing outside it |
| Substitutions.SpacesKeepText | utils/scripts/prediction.py:84 | the whitespace step keeps every character that is not whitespace, in order |
| Substitutions.ShortRunCopied | utils/scripts/prediction.py:94 | a run of one or two copies, or of newlines, is copied unchanged |
| Substitutions.RepetitionCollapses | utils/scripts/prediction.py:94 | `(.)\1{2,}` → `<REPETITIVE>` equals the run-by-run reference `CollapseRepeats` |
| Substitutions.CollapseRepetitions | utils/scripts/prediction.py:94 | each maximal run of three or more identical characters becomes exactly `<REPETITIVE>`; shorter runs stay |
| Substitutions.EachSpecial | utils/scripts/prediction.py:99 | the reference for the single-character step leaves no special character |
| Substitutions.EachSpecialAppend | utils/scripts/prediction.py:99 | the single-character step distributes over concatenation |
| Substitutions.EachSpecialUnchanged | utils/scripts/prediction.py:99 | a string without special characters is unchanged |
| Substitutions.SpecialCharIsEachSpecial | utils/scripts/prediction.py:99 | `re.sub` of the special class equals the reference `EachSpecial` |
| Substitutions.NoSpecialInRegex | utils/scripts/prediction.py:98-99 | `<REGEX>` has no special character for the last step to replace |
| Substitutions.EachSpecialOfCollapsed | utils/scripts/prediction.py:97-99 | the two special-character steps together equal the reference `MarkSpecials` |
| Substitutions.SpecialsReplaced | utils/scripts/prediction.py:97-99 | a run of two or more special characters becomes one `<REGEX>` and an isolated one `<SPECIAL>`; none is left |
| PreProcessing.CleanHasNoNewline | utils/scripts/prediction.py:80-82 | after the first three steps the text has no newline |
| PreProcessing.SubAllKeepsOut | utils/scripts/prediction.py:84-99 | a chain of substitutions whose replacements lack a character never brings it back |
| PreProcessing.NoNewlineAfterSteps | utils/scripts/prediction.py:80-99 | no substitution puts a newline back |
| PreProcessing.LastStepAvoidsSpecial | utils/scripts/prediction.py:99 | after the `<SPECIAL>` step no special character remains |
| PreProcessing.RemoveCommasAvoidsSpecial | utils/scripts/prediction.py:100 | removing commas brings in no special character |
| PreProcessing.PreProcessOutput | utils/scripts/prediction.py:80-100 | the output of `pre_process` holds no newline, no comma and none of `@ $ % ^ ! ~ / [ ] - \`` |
| PreProcessing.PreProcessMarksSpecials | utils/scripts/prediction.py:97-100 | `pre_process` ends with the special-character marking of the text left by the first twelve steps, then comma removal |
| PreProcessing.SubAllEmpty | utils/scripts/prediction.py:84-99 | the substitutions leave the empty text empty |
| PreProcessing.PreProcessEmpty | utils/scripts/prediction.py:69-102 | the empty query preprocesses to the empty text |
| Classifier.CleanTokens | utils/scripts/prediction.py:117-118 | there are no more tokens than before, and every token left is non-empty and has no `Ġ` |
| Classifier.CleanTokensAppend | utils/scripts/prediction.py:117-118 | a token loses its `Ġ` markers and is dropped iff nothing is left; cleaning distributes over concatenation, so the surviving tokens keep their order |
| Classifier.CleanTokensKeepsClean | utils/scripts/prediction.py:117-118 | tokens that are already clean pass unchanged |
| Classifier.MarkOovMeaning | utils/scripts/prediction.py:120-122 | the marking keeps every position; it changes a token iff the token is one ASCII letter or `-?\d+`; it leaves no such token; it is idempotent |
| Classifier.MarkBareTokens | utils/scripts/prediction.py:120-122 | the in-place loop leaves the array equal to the marking of its old contents |
| Classifier.ToIds | utils/scripts/prediction.py:124-125 | every id comes from the vocabulary; when all tokens are known, the ids are exactly their lookups, in order |
| Classifier.ToIdsSingle | utils/scripts/prediction.py:124-125 | one token gives its id when the vocabulary has it and nothing otherwise |
| Classifier.ToIdsAppend | utils/scripts/prediction.py:124-125 | a known token gives its id and an unknown one is dropped; lookup distributes over concatenation, so the ids keep the tokens' order |
| Classifier.PadTruncate | utils/scripts/prediction.py:126 | exactly 40 ids: the first ones kept in place, then zeros |
| Classifier.Encode | utils/scripts/prediction.py:115-127 | `encode` returns the 40 ids of the cleaned, marked, looked-up and padded tokens of the preprocessed query |
| Classifier.NonPadding | utils/scripts/prediction.py:171 | `input[input != 0]` holds only nonzero ids from the input, and every nonzero id of the input |
| Classifier.CheckInputMeaning | utils/scripts/prediction.py:171-177 | an input is accepted iff at least three of its ids are nonzero and one of them is not 1 |
| Classifier.NonPaddingAppend | utils/scripts/prediction.py:171 | filtering out the zeros distributes over concatenation |
| Classifier.NonPaddingOfZeros | utils/scripts/prediction.py:171 | padding zeros are all filtered out |
| Classifier.PaddingNotCounted | utils/scripts/prediction.py:126 | padding adds no id that `check_input` counts |
| Classifier.MaskCount | utils/scripts/prediction.py:132-134 | the number of scored positions (true id neither 0 nor 1) is at most the length |
| Classifier.HitCount | utils/scripts/prediction.py:135-138 | the correct scored predictions are at most the scored positions |
| Classifier.AllHit | utils/scripts/prediction.py:135-139 | the hits equal the scored positions iff the prediction is right at every scored position |
| Classifier.Ratio | utils/scripts/prediction.py:139-145 | the ratio of hits to scored positions lies in [0,1]; it is 0 when nothing is scored, and 1 iff every scored position is a hit |
| Classifier.RatioAtLeast | utils/scripts/prediction.py:143 | when at least one position is scored, the ratio reaches t iff the hits reach t times the scored count |
| Classifier.MaskedAccuracy | utils/scripts/prediction.py:131-145 | the accuracy lies in [0,1]; it is 0 when no position is scored, and 1 iff at least one position is scored and the network is right at every scored position |
| Classifier.AccuracyAtLeast | utils/scripts/prediction.py:196 | when at least one position is scored, the accuracy reaches the threshold iff the hit count reaches threshold × scored count |
| Classifier.ScoredCounted | utils/scripts/prediction.py:132-134 | a position whose true id is neither 0 nor 1 makes the scored count positive |
| Classifier.AcceptedIsScored | utils/scripts/prediction.py:171-177 | an input that passes `check_input` has at least one scored position |
| Classifier.DefaultThresholdRatio | utils/scripts/prediction.py:45-47 | with at least one scored position, a ratio of hits reaches the default threshold 0.35 iff 20 × hits ≥ 7 × scored positions |
| Classifier.DefaultThresholdVerdict | utils/scripts/prediction.py:45-59 | for a model whose threshold is the default 0.35, an input that `check_input` accepts is flagged iff 20 × hits ≥ 7 × scored positions |
| Classifier.Predictions | utils/scripts/prediction.py:194 | one predicted class per input position |
| Classifier.Analyse | utils/scripts/prediction.py:181-196 | `analyse` returns 0 or 1, namely the verdict on the encoded query |
| Classifier.VerdictMeaning | utils/scripts/prediction.py:191-196 | the verdict is 1 iff the input passes `check_input` and the accuracy reaches the threshold; a rejected input gets 0 whatever the network |
| Classifier.VerdictExtremes | utils/scripts/prediction.py:196 | an accepted input is always flagged at threshold ≤ 0, and never at threshold > 1 |
| Classifier.FewTokensAreBenign | utils/scripts/prediction.py:171-175 | a query the tokenizer splits into at most two tokens gets verdict 0 |
| Classifier.EmptyQueryIsBenign | utils/scripts/prediction.py:115-127 | the empty query encodes to 40 zeros and gets verdict 0 |
| BenchmarkConverter.PrependAppend | utils/scripts/txt_to_json_ForTest.py:64-68 | appending records in two steps is appending them at once |
| BenchmarkConverter.CleanLines | utils/scripts/txt_to_json_ForTest.py:43 | no more lines than the file; every line kept is non-empty and has no whitespace at either end |
| BenchmarkConverter.CleanLinesCons | utils/scripts/txt_to_json_ForTest.py:43 | one line reaches the parser stripped iff it strips to something non-empty |
| BenchmarkConverter.CleanLinesAppend | utils/scripts/txt_to_json_ForTest.py:43 | cleaning distributes over concatenation, so the parser sees exactly the stripped non-blank lines, in file order |
| BenchmarkConverter.CleanLinesKeeps | utils/scripts/txt_to_json_ForTest.py:43 | every line with a non-whitespace character reaches the parser, stripped |
| BenchmarkConverter.CleanLinesEmpty | utils/scripts/txt_to_json_ForTest.py:43 | nothing reaches the parser iff every line is empty or all whitespace |
| BenchmarkConverter.CleanLinesTrimmed | utils/scripts/txt_to_json_ForTest.py:43 | already-clean lines are unchanged, so cleaning is idempotent |
| BenchmarkConverter.RemoveDashPairs | utils/scripts/txt_to_json_ForTest.py:52 | `replace("--", "")` never lengthens, and keeps a leading dash only from a leading dash |
| BenchmarkConverter.RemoveDashPairsLeavesNone | utils/scripts/txt_to_json_ForTest.py:52 | the result has no `--`; it is shorter only if the line had one |
| BenchmarkConverter.RemoveDashPairsPair | utils/scripts/txt_to_json_ForTest.py:52 | a leading `--` is removed and the rest is processed on its own, so nothing after it is lost |
| BenchmarkConverter.RemoveDashPairsAbsent | utils/scripts/txt_to_json_ForTest.py:52 | a line without `--` is unchanged |
| BenchmarkConverter.RemoveDashPairsAppend | utils/scripts/txt_to_json_ForTest.py:52 | a prefix without `--` that does not end in '-' is kept, and the rest is processed on its own |
| BenchmarkConverter.Title | utils/scripts/txt_to_json_ForTest.py:52 | a title is no longer than its header |
| BenchmarkConverter.TitleMeaning | utils/scripts/txt_to_json_ForTest.py:52 | a title has no `--`, is trimmed, and is its own title |
| BenchmarkConverter.DashPairsOfHeaderExample | utils/scripts/txt_to_json_ForTest.py:52 | `-- SQL Injection --` loses both dash pairs |
| BenchmarkConverter.StripHeaderExample | utils/scripts/txt_to_json_ForTest.py:52 | stripping removes the spaces around the title |
| BenchmarkConverter.HeaderTitleExample | utils/scripts/txt_to_json_ForTest.py:51-52 | `-- SQL Injection --` is a header with title `SQL Injection` |
| BenchmarkConverter.LabelOf | utils/scripts/txt_to_json_ForTest.py:57 | the label is the digit at index 9, in 0..9; a line shorter than 10 is an index error, and a non-digit there is a value error |
| BenchmarkConverter.LabelLayouts | utils/scripts/txt_to_json_ForTest.py:6 | the docstring's `-- Label [1] --` is rejected, `-- Label 1 --` gives 1, and a short line is an index error |
| BenchmarkConverter.Convert | utils/scripts/txt_to_json_ForTest.py:43-73 | the loop's records, or its exception, are exactly `Parse` of the cleaned lines |
| BenchmarkConverter.PreambleSkipped | utils/scripts/txt_to_json_ForTest.py:72-73 | lines before a header yield nothing and are skipped one at a time |
| BenchmarkConverter.SectionRecords | utils/scripts/txt_to_json_ForTest.py:61-69 | one record per content line, in order, with the section's title and label |
| BenchmarkConverter.SectionCons | utils/scripts/txt_to_json_ForTest.py:62-68 | a trimmed content line yields itself as the record's content |
| BenchmarkConverter.SectionUpTo | utils/scripts/txt_to_json_ForTest.py:61-69 | a section yields one record per line up to the next header or the end, then parsing resumes there |
| BenchmarkConverter.HeaderSection | utils/scripts/txt_to_json_ForTest.py:51-69 | a header with a good label line yields its section's records, then the rest; a bad label line fails the whole run |
| BenchmarkConverter.LastHeaderStops | utils/scripts/txt_to_json_ForTest.py:70-71 | a header that is the last line keeps the records so far and adds none |
| BenchmarkConverter.ParseWellFormed | utils/scripts/txt_to_json_ForTest.py:46-73 | every record is an input line that is not a header, with a title without `--` and a label in 0..9 |
| BenchmarkConverter.SectionWellFormed | utils/scripts/txt_to_json_ForTest.py:61-69 | the same holds for the records of a section and of everything after it |

## Left out

- Unicode: `\w`, `\d`, `\s`, `str.isspace`, `strip` and `lower` are modelled on ASCII (whitespace includes `\x1c`–`\x1f`, as for `str.isspace`). Python's Unicode classes and case mapping are not modelled.
- The GPT-2 tokenizer's byte-level BPE is a function from text to tokens that the caller supplies, and the vocabulary is a map. The placeholders registered as special tokens are just entries of that map.
- Classifier.ToIds: a token missing from the map is dropped, as the `None` filter on line 125 expects. The library's own lookup, which would return an unknown-token id, is not part of this model.
- The network (`load_model`, `predict`) is a function the caller supplies, which gives the argmax class at each position.
- Classifier.MaskedAccuracy: computed with exact rational division instead of float32, so rounding near the threshold is not modelled.
- `masked_sparse_categorical_crossentropy` (floating-point loss with logarithms) is left out.
- The class attributes `VOCAB_PATH`, `MERGES_PATH` and `MODEL_PATH` are file paths used only for loading, and are left out. `THRESHOLD` is a field of `AutoEncoder`. Its default 0.35 is the constant `DefaultThreshold`, which `DefaultThresholdRatio` and `DefaultThresholdVerdict` are about.
- File reading, `json.dump` and `print` in the converter are left out. Its input is the file's lines, and its output the records, or the error that `int(...)` would raise.
- `utils/scripts/test.py` (a driver with fixed paths) and `Fortinet events logs/log_to_csv.py` are not part of this model.
- Python `int()` also accepts non-ASCII decimal digits; the label model accepts only '0'–'9'.
- Patterns.MatchEmail: contract states only the shape of a match; the exact match follows from the definition.
- Patterns.MatchDotted: contract states only the shape of a match; the exact match follows from the definition.
- Patterns.MatchTime: contract states only the shape of a match; the exact match follows from the definition.
- Patterns.MatchDate: contract states only the shape of a match; the exact match follows from the definition.
- Patterns.MatchSeries: contract states only the shape of a match; the exact match, including the backtracking for `\b`, follows from the definition.
- Patterns.MatchCharCall: contract states only the shape of a match; the exact match follows from the definition.
- Patterns.MatchSeriesChain: contract states only the shape of a match; the exact match follows from the definition.
- Patterns.MatchNumber: contract states only the shape of a match; the exact match follows from the definition.
- Patterns.MatchSingle: contract states only the shape of a match; the exact match follows from the definition.
- Patterns.SeriesEnd: states that the series ends at the previous item's end or at a word boundary. It does not state which repetition is given back when `\b` fails; the definition does.
- Patterns.MatchLen: contract states only that a match ends within the input. The whitespace, repetition and special-character patterns have reference definitions in `Substitutions`; the other patterns do not.
