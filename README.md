# gframe string and path helpers, modelled in Dafny

This project models string and path helpers defined in `gframe/utils.h`.
Most are members of the game client's `Utils` class. `GetFilePath` is the
exception: the header defines it as a free template at line 82. The
`Utils::GetFilePath` declared at line 46 has no definition in the header,
so the model follows the free template's body.

- `GetFileExtension` returns the lower-cased text after the last `.` of a
  path. It leaves separators as they are, so `a.b\c` gives `b\c`.
- `GetFilePath` and `GetFileName` first turn `\` into `/`, then slice the
  path at its last `/`. Their `size_t` arithmetic is written out.
- `TokenizeString` splits a text at each occurrence of a delimiter that
  `find` meets when it searches again from the end of the previous
  delimiter, and drops empty pieces. An occurrence overlapping one already
  used is not split on: "aaa" split at "aa" gives "a".
- `ToUpperNoAccents` folds some Latin-1 letters, in both cases, to plain
  capitals, and upper-cases everything else:
  - À–Å/à–å (192-197, 224-229) fold to `A`;
  - È–Ë/è–ë (200-203, 232-235) fold to `I`, where `E` is evidently
    intended (see "## Findings");
  - Ò–Ö/ò–ö (210-214, 242-246) fold to `O`;
  - Ù–Ü/ù–ü (217-220, 249-252) fold to `U`;
  - Ñ/ñ (209, 241) fold to `N`.

  Ì–Ï/ì–ï (204-207, 236-239) are not folded as written. Ø/ø, Ý/ý and ÿ
  are not folded at all, either as written or in the intended fold.
  `EqualIgnoreCase` and `CompareIgnoreCase` compare folded texts.
- `KeepOnlyDigits` erases from a wide string everything but decimal
  digits and, when negatives are allowed, a leading minus. It reports
  whether anything was erased.

All helpers except `KeepOnlyDigits` are templates over `std::string` and
`std::wstring`. `KeepOnlyDigits` takes only a `std::wstring&`. All texts
are modelled as one type, `CodeUnits.Text`, a sequence of code units
(`seq<nat>`).

The files:

- `code_units.dfy` (module `CodeUnits`): code units, the ASCII case
  mappings and `find_last_of`.
- `paths.dfy` (module `Paths`): the three path functions, plus lemmas
  that take apart a path built as directory + name + `.` + extension.
- `tokenizer.dfy` (module `Tokenizer`): the `TokenizeString` loop, proved
  equal to a recursive definition, `Tokens`. Lemmas then prove:
  - every piece is non-empty and does not contain the delimiter;
  - the text between the pieces (`Gaps`) consists only of delimiters;
  - interleaving gaps and pieces gives back the input.
- `folding.dfy` (module `Folding`): the fold as written and the fold its
  branches evidently intend (see "## Findings"). `ToUpperNoAccents`,
  `EqualIgnoreCase` and `CompareIgnoreCase` are built on the intended fold.
  `EqualIgnoreCaseAsWritten` and `CompareIgnoreCaseAsWritten` are the
  comparisons as the source computes them. Both pairs are proved to be
  an equivalence and a strict weak order.
- `digits.dfy` (module `Digits`): the `KeepOnlyDigits` loop, proved equal
  to a recursive definition, `OnlyDigits`. Lemmas prove what that result
  contains.

## Model

| member | source | states |
|---|---|---|
| CodeUnits.LastIndexOf | gframe/utils.h:73-74 | `find_last_of` of one unit: None exactly when the unit is absent, otherwise an index holding it with no occurrence after it |
| CodeUnits.LastIndexOfUnique | gframe/utils.h:84 | an occurrence with none after it is the one `find_last_of` returns |
| CodeUnits.ToLower | gframe/utils.h:77 | the ASCII part of `towlower`: the result is never an ASCII capital; a capital moves to its small letter, every other unit is unchanged |
| CodeUnits.ToUpper | gframe/utils.h:145-148 | the ASCII part of `towupper`/`toupper`: the result is never a small ASCII letter; a small letter moves to its capital, every other unit is unchanged |
| CodeUnits.LowerAll | gframe/utils.h:77 | `towlower` applied to every unit: same length, each unit lower-cased (ASCII part) |
| Paths.ForwardSlashes | gframe/utils.h:83 | `std::replace` of `\` by `/`: same length, no `\` left, every other unit unchanged |
| Paths.SizeSub | gframe/utils.h:105 | `size_t` subtraction: the difference when it is non-negative, otherwise the difference plus 2^64 |
| Paths.Substr | gframe/utils.h:105 | `substr(pos, count)` takes `count` units from `pos`, clamped to what is left |
| Paths.GetFileExtension | gframe/utils.h:71-79 | empty when there is no `.`; otherwise the lower-cased text after the last `.`, which contains no `.` |
| Paths.GetFilePath | gframe/utils.h:81-89 | `./` when the normalised path has no `/`; otherwise its prefix up to the last `/`, with no `/` after it; always ends in `/` |
| Paths.NameStart | gframe/utils.h:94-98 | `dashpos`: just after the last `/`, or 0; no `/` from there on |
| Paths.BaseName | gframe/utils.h:94-98 | the suffix of the normalised path after its last `/`, which contains no `/` |
| Paths.Stem | gframe/utils.h:100-105 | a name without `.` is kept whole; otherwise the part before its last `.` |
| Paths.NameEnd | gframe/utils.h:99-104 | `dotpos`: the end of the path when the extension is kept or there is no `.`, otherwise the last `.` |
| Paths.GetFileName | gframe/utils.h:91-107 | the base name of the normalised path; without the extension, the stem of that base name; never contains a separator |
| Paths.NameSlice | gframe/utils.h:105 | `substr(dashpos, dotpos - dashpos)` with wrapping `size_t` arithmetic is the base name, or its stem |
| Paths.NameSliceWhole | gframe/utils.h:99-105 | keeping the extension, the slice is the whole base name |
| Paths.NameSliceStem | gframe/utils.h:100-105 | without the extension, the slice is the stem of the base name, including when the last `.` lies in the directory part |
| Paths.PathAndNameReassemble | gframe/utils.h:81-107 | with a separator, directory part + file name = normalised path; without one, the directory part is `./` and the name is the whole path |
| Paths.NameStartUnique | gframe/utils.h:94-98 | a position with `/` just before it and no `/` after it is `dashpos` |
| Paths.ForwardSlashesAppend | gframe/utils.h:83 | the separator replacement distributes over concatenation |
| Paths.BaseNameAfterDirectory | gframe/utils.h:91-98 | a directory followed by a separator-free tail has that tail as its base name |
| Paths.PathAfterDirectory | gframe/utils.h:81-89 | a directory followed by a separator-free tail has the normalised directory (or `./`) as its path |
| Paths.ComposedExtension | gframe/utils.h:71-79 | the extension of dir + name + `.` + ext is ext lower-cased |
| Paths.StemOfComposedName | gframe/utils.h:100-105 | the stem of name + `.` + ext is name when ext has no `.` |
| Paths.ComposedStem | gframe/utils.h:91-107 | `GetFileName(dir + name + "." + ext, false)` is name |
| Paths.ComposedName | gframe/utils.h:91-107 | `GetFileName(dir + name + "." + ext, true)` is name + `.` + ext |
| Paths.ComposedPath | gframe/utils.h:81-89 | `GetFilePath(dir + name + "." + ext)` is the normalised dir, or `./` when dir is empty |
| Paths.DotInDirectoryIgnored | gframe/utils.h:99-105 | a `.` in the directory part never cuts a dot-free name: the wrapped count keeps the whole name |
| Tokenizer.OccursAt | gframe/utils.h:113 | the match test inside `find`, unit by unit: an occurrence lies inside the text |
| Tokenizer.Find | gframe/utils.h:113 | `find(token, pos2)`: a found position is at or after `pos2` and the delimiter fits after it |
| Tokenizer.FindOccurs | gframe/utils.h:113 | a found position is an occurrence |
| Tokenizer.FindFirst | gframe/utils.h:113 | the found position is the first occurrence from `pos2`; `npos` exactly when there is none |
| Tokenizer.OccursAtMeansSlice | gframe/utils.h:113 | an occurrence at `i` means the slice of the text at `i` equals the delimiter |
| Tokenizer.TokensFrom | gframe/utils.h:113-119 | the pieces the loop emits from `pos2` on: at most one per unit left, since each piece takes at least one unit |
| Tokenizer.Tokens | gframe/utils.h:109-121 | the pieces of the whole input: at most one per unit of the input |
| Tokenizer.TokensFromNext | gframe/utils.h:113-116 | the pieces from `pos2` are the non-empty piece before the next delimiter, then the pieces after it |
| Tokenizer.TokensStep | gframe/utils.h:113-116 | one loop round moves that piece into the result and keeps the remaining pieces the same |
| Tokenizer.TokenizeString | gframe/utils.h:109-121 | the loop returns exactly Tokens(input, token), whose properties the lemmas below prove |
| Tokenizer.TokensNonEmpty | gframe/utils.h:114-119 | no piece is empty |
| Tokenizer.TokensAvoidDelimiter | gframe/utils.h:113-116 | the delimiter occurs in no piece |
| Tokenizer.TokensReassemble | gframe/utils.h:109-121 | there is one more gap than pieces, and gaps and pieces interleaved give back the input |
| Tokenizer.GapsAreDelimiters | gframe/utils.h:113-119 | every gap is zero or more copies of the delimiter, and every inner gap has at least one |
| Tokenizer.TokensSpec | gframe/utils.h:109-121 | all of the above for the whole input: non-empty pieces without the delimiter, separated by runs of whole delimiters (at least one between two pieces), which together give back the input |
| Tokenizer.TokensOfEmpty | gframe/utils.h:118-120 | an empty input gives no pieces |
| Tokenizer.TokensWithoutDelimiter | gframe/utils.h:113-119 | a non-empty input without the delimiter is one piece, the input itself |
| Tokenizer.TokensOverlapExample | gframe/utils.h:113-116 | the search restarts after the delimiter just used: "aaa" split at "aa" gives only "a", although "aa" also occurs at 1 |
| Tokenizer.TokensExample | gframe/utils.h:109-121 | "a,,b," split at "," gives "a" and "b" |
| Folding.InInterval | gframe/utils.h:126 | `IN_INTERVAL(start, end)`: start <= c <= end, so the bounds are in order |
| Folding.FoldUnitAsWritten | gframe/utils.h:125-148 | the per-unit fold as written never yields a small ASCII letter |
| Folding.ToUpperNoAccentsAsWritten | gframe/utils.h:123-154 | the text fold as written: same length, each unit folded by FoldUnitAsWritten |
| Folding.FoldUnitAsWrittenTable | gframe/utils.h:127-148 | as written: A for 192-197/224-229, I for 200-203/232-235, O for 210-214/242-246, U for 217-220/249-252, N for 209/241, upper-casing elsewhere |
| Folding.FoldsToCapitalE | gframe/utils.h:130-132 | as written, only `e` and `E` fold to `E`: the E branch never fires |
| Folding.CafeAsWritten | gframe/utils.h:127-135 | as written, "café" folds to "CAFI", which differs from the fold of "CAFE" |
| Folding.FoldUnit | gframe/utils.h:125-148 | the intended per-unit fold never yields a small ASCII letter |
| Folding.ToUpperNoAccents | gframe/utils.h:123-154 | same length, each unit folded by the intended fold |
| Folding.FoldUnitTable | gframe/utils.h:127-148 | A for 192-197/224-229, E for 200-203/232-235, I for 204-207/236-239, O for 210-214/242-246, U for 217-220/249-252, N for 209/241, upper-casing elsewhere |
| Folding.FoldUnitCorrection | gframe/utils.h:127-135 | the intended and written folds differ exactly on 200-207 and 232-239 |
| Folding.CafeIntended | gframe/utils.h:58-61 | with the intended fold, "café" folds to "CAFE" and EqualIgnoreCase("café", "CAFE") holds |
| Folding.FoldUnitIdempotent | gframe/utils.h:125-148 | folding a folded unit changes nothing |
| Folding.ToUpperNoAccentsAsWrittenIdempotent | gframe/utils.h:123-154 | as written, ToUpperNoAccents is idempotent: folding a folded text changes nothing |
| Folding.ToUpperNoAccentsIdempotent | gframe/utils.h:123-154 | ToUpperNoAccents is idempotent |
| Folding.FoldIgnoresCase | gframe/utils.h:127-148 | an ASCII capital and its small letter fold alike, and so do both cases of every accented range |
| Folding.EqualIgnoreCase | gframe/utils.h:58-61 | equality of the intended folds; texts equal ignoring case are as long |
| Folding.LexLess | gframe/utils.h:64 | `basic_string`'s `operator<`: no text is less than itself |
| Folding.CompareIgnoreCase | gframe/utils.h:62-65 | `operator<` on the intended folds; texts less in one direction are not equal ignoring case |
| Folding.EqualIgnoreCaseUnitwise | gframe/utils.h:58-61 | EqualIgnoreCase holds exactly when the lengths agree and the units fold alike position by position |
| Folding.EqualIgnoreCaseOfCaseChanges | gframe/utils.h:58-61 | a text equals its lower-cased and its folded form, ignoring case |
| Folding.EqualIgnoreCaseEquivalence | gframe/utils.h:58-61 | EqualIgnoreCase is reflexive, symmetric and transitive |
| Folding.LexLessTransitive | gframe/utils.h:64 | `operator<` on texts is transitive |
| Folding.LexLessTrichotomy | gframe/utils.h:64 | of two different texts exactly one is less |
| Folding.CompareIgnoreCaseOrder | gframe/utils.h:62-65 | CompareIgnoreCase is a strict weak order: irreflexive, transitive, and exactly one of less, greater or EqualIgnoreCase holds |
| Folding.CompareIgnoreCasePrefix | gframe/utils.h:62-65 | a text that folds to a proper prefix of the other's fold is less |
| Folding.PrefixIsLess | gframe/utils.h:64 | a proper prefix is less under `operator<` |
| Folding.EqualIgnoreCaseAsWritten | gframe/utils.h:58-61 | `EqualIgnoreCase` as the source computes it, on the fold as written; texts equal ignoring case are as long |
| Folding.CompareIgnoreCaseAsWritten | gframe/utils.h:62-65 | `CompareIgnoreCase` as the source computes it, on the fold as written; texts less in one direction are not equal ignoring case |
| Folding.ComparisonsAsWrittenOrder | gframe/utils.h:58-65 | as written, equality ignoring case is an equivalence, and CompareIgnoreCaseAsWritten is a strict weak order with it as its equivalence |
| Folding.ComparisonsDiffer | gframe/utils.h:58-65 | "é" and "E" are equal ignoring case with the intended fold but not as written, where "E" sorts before "é" |
| Digits.IsErased | gframe/utils.h:163 | the wrap-around test never erases a digit and always erases the minus |
| Digits.ErasedIffNotDigit | gframe/utils.h:163 | for a unit below 2^32, `(unsigned)(c - L'0') > 9` holds exactly for non-digits |
| Digits.KeepFrom | gframe/utils.h:158-169 | what the loop keeps from a position on: never longer than the rest of the input, and as long only when nothing is erased |
| Digits.OnlyDigits | gframe/utils.h:156-171 | the content the function leaves in its argument: never longer than the input, and as long only when it is the input |
| Digits.Kept | gframe/utils.h:159-168 | a unit is kept when it is a minus at the current beginning with negatives allowed, or when the wrap-around test does not erase it; a digit is always kept, a minus only at the beginning with negatives allowed |
| Digits.KeepFromStep | gframe/utils.h:158-169 | what is kept from position `k` on: the unit at `k` is kept or erased by the three tests, then the rest follows |
| Digits.ScannedStep | gframe/utils.h:158-169 | one loop round, keeping or erasing the current unit, keeps the loop invariant with one input unit fewer to go |
| Digits.KeepOnlyDigits | gframe/utils.h:156-171 | the loop leaves exactly OnlyDigits(input, negative), and reports a change exactly when something was erased |
| Digits.DigitsOf | gframe/utils.h:163 | the units the test keeps, in order: none of them is erasable, and there are no more than in the input |
| Digits.KeepFromShape | gframe/utils.h:158-169 | nothing the test would erase survives, except a minus in first position when negatives are allowed |
| Digits.KeepFromDigits | gframe/utils.h:163-168 | every unit the test keeps survives, in order |
| Digits.OnlyDigitsSpec | gframe/utils.h:156-171 | for a wide string, every unit left is a digit except a leading minus kept only when negatives are allowed, and the digits are the input's in order |
| Digits.KeepFromWide | gframe/utils.h:158-169 | kept units come from the input, so they stay below 2^32 |
| Digits.LeadingMinus | gframe/utils.h:159-162 | a minus is left in front exactly when negatives are allowed and the input has a minus before which every unit is erased |
| Digits.OnlyDigitsIdempotent | gframe/utils.h:156-171 | a second call keeps the text as it is and reports no change |
| Digits.KeepsAll | gframe/utils.h:163-168 | a text of digits alone is left unchanged |
| Digits.KeepOnlyDigitsSignedExamples | gframe/utils.h:156-171 | with negatives: "-12a3" gives "-123", "a-12" gives "-12", "1-2" gives "12" |
| Digits.KeepOnlyDigitsUnsignedExamples | gframe/utils.h:156-171 | without negatives: "-12a3" gives "123", and "123" is unchanged |

## Left out

- Text is one sequence type for both `std::string` and `std::wstring`. Code units are unbounded naturals.
- `towlower`, `towupper` and `toupper` are modelled on their ASCII part only. The locale-dependent mapping of other characters is not part of this model.
- Folding.FoldUnitAsWritten: for a narrow `std::string` with signed `char`, units from 128 up are negative, so none of the accent branches fire. The model treats every unit as non-negative, as a `wchar_t` or an `unsigned char` is. The same holds for Folding.FoldUnit.
- Tokenizer.TokenizeString requires a non-empty delimiter. With an empty one, `find` returns `pos2` every time and the loop never ends.
- Paths.GetFileName requires the path to be shorter than 2^64, the size a `size_t` can hold.
- Digits.KeepOnlyDigits takes the text and returns its new content with the flag. It does not erase through a reference in place, so aliasing is not modelled.
- Digits.OnlyDigitsSpec requires every unit to be below 2^32 (a 32-bit `wchar_t`). The model's `unsigned` wrap-around test is exact only for such units. OnlyDigits itself is defined for all units.
- Paths.GetFilePath models the free template `GetFilePath` defined at `gframe/utils.h:82`. The static member `Utils::GetFilePath` declared at line 46 has no definition in the header, so what a call to it links against is not part of this model.
- The other members of `Utils` are not part of this model: file system access, `NormalizePath`, `ContainsSubstring`, the UTF-8 conversions and the GUI helpers of `gframe/utils_gui.h`.

## Findings

| source | as written | input that shows it | evidently intended | confidence | as-written member | corrected member |
|---|---|---|---|---|---|---|
| gframe/utils.h:127-135 | the E branch repeats the A branch's ranges (192-197, 224-229), so it never fires; the ranges 200-203/232-235 (È-Ë, è-ë) fall into the I branch, and Ì-Ï/ì-ï (204-207, 236-239) are not folded | "café" folds to "CAFI", so EqualIgnoreCase("café", "CAFE") is false | E for 200-203/232-235 and I for 204-207/236-239 | not executed | Folding.CafeAsWritten | Folding.CafeIntended |
