# First-difference diff and country-code reconciliation, in Dafny

This project models, and proves properties of, the two pieces of real logic in
two small instructional Python scripts:

1. **The first-difference text diff** (`2_Py_Data_Representations/2.4project.py`).
   `singleline_diff` finds the first index where two lines differ and returns
   `IDENTICAL` (-1) for equal lines. When one line is a strict prefix of the other, it
   returns the shorter line's length. `singleline_diff_format` builds the
   three-line `line1 / ===^ / line2` report. `multiline_diff` finds the first
   differing line and the column in it. `file_diff_format` builds the
   `Line N:` report. `get_file_lines` cuts a file's text into lines.
2. **Case-insensitive country-code reconciliation** (`4_Py_Data_Visualization/4.4project.py`).
   `build_country_code_converter` reduces the parsed code table to a
   plot-code to data-code converter. `reconcile_countries_by_code` joins plot
   codes through it onto the GDP table's keys. It compares codes
   case-insensitively but returns them in their original case.
   `build_map_dict_by_code` splits the plot codes into three groups: not in
   the GDP data, no figure for the year, and has a figure.

Files:

- `strings.dfy` (module `Strings`): the Python string built-ins the scripts
  use. These are `"=" * n`, `str.split`, `filter(None, ...)`, `str(n)` and an
  ASCII-only `str.lower`. Each comes with its round-trip or content lemma.
- `line_diff.dfy` (module `LineDiff`): the diff. The two loops
  (`singleline_diff`, `multiline_diff`) are methods with `for`/`break` loops,
  like the source. Each is proved equal to a reference definition
  (`FirstDifference`, `FirstLineDifference`) built on `CommonPrefixLength`.
  The lemmas then prove what the doc comments promise about those
  definitions. The formatters and the splitting are functions.
- `country_codes.dfy` (module `CountryCodes`): the reconciliation. The
  methods build their maps and sets key by key in loops, like the source. The
  CSV tables come in already parsed, as maps from a row's key to the row, and
  a row is a map from column name to field text.

Line breaks and text mode:

- `get_file_lines` opens the file in text mode, so `read()` has already
  turned `"\r\n"` and a lone `'\r'` into `'\n'` (universal newlines).
  `TranslateNewlines` models that reading of the raw content.
  `split("\n" or "\r")` is `split("\n")`, because `"\n" or "\r"` is `"\n"`.
  The text it splits holds no `'\r'`, though, so the quirk cannot be
  seen through `get_file_lines`. `GetFileLinesFromRaw` proves the lines
  of the raw content are exactly those cut at both `'\n'` and `'\r'`
  (`GetFileLinesStrict`), so no line holds either, as the doc comment
  promises. `GetFileLinesKeepsCarriageReturn` shows the quirk on a string
  that holds `'\r'`, which `read()` never returns.

One behaviour follows the code rather than the documentation:

- `file_diff_format` indexes `lst1[i]` and `lst2[i]` even when `multiline_diff`
  returned `i == min(len)`, that is, when one list of lines extends the other.
  Python then raises `IndexError`. `FileDiffFormat` returns `Report.IndexError`
  in exactly that case. `FileDiffOutcome` proves it happens exactly when one
  list is a strict prefix of the other. See Findings.

Python dictionaries keep insertion order, so when two keys fold to the same
lower-case code, the one added later (the later CSV row) wins in the
case-folded tables of `reconcile_countries_by_code`. The model's maps carry no
order, so that row order is not modelled, and the folded tables are described
by what holds whichever key wins: every key's folded form is present, and each
entry comes from some key that folds to it. `MatchedJoins` proves that a joined code reaches its GDP key through some converter entry, and `JoinsThroughMatched` proves the converse, with the exact GDP key, when the codes
differ in more than case.

## Model

| member | source | states |
|---|---|---|
| `LineDiff.CommonPrefixLength` | 2_Py_Data_Representations/2.4project.py:22-26 | the number of leading positions where two sequences agree: within both lengths, equal prefixes up to it, and unequal elements at it when both sequences continue |
| `LineDiff.CommonPrefixLengthUnique` | 2_Py_Data_Representations/2.4project.py:22-30 | those three facts determine the common prefix length |
| `LineDiff.SinglelineDiff` | 2_Py_Data_Representations/2.4project.py:8-32 | the `for ... break` loop and the length fix-up return exactly `FirstDifference(line1, line2)` |
| `LineDiff.FirstDifferenceMeaning` | 2_Py_Data_Representations/2.4project.py:19-32 | the result is `IDENTICAL` exactly when the lines are equal; it lies in `[-1, min len]`; a result `k` below `min len` has equal prefixes before it and differing characters at it; a result equal to `min len` means the lengths differ and the shorter line is a prefix of the longer |
| `LineDiff.FirstDifferenceSelf` | 2_Py_Data_Representations/2.4project.py:17 | a line compared with itself gives `IDENTICAL` |
| `LineDiff.FirstDifferenceStrictPrefix` | 2_Py_Data_Representations/2.4project.py:28-30 | when one line is a strict prefix of the other, the result is the shorter length |
| `LineDiff.FirstDifferenceAt` | 2_Py_Data_Representations/2.4project.py:23-26 | when the lines agree before a shared index `k` and differ at it, the result is `k` |
| `Strings.Repeat` | 2_Py_Data_Representations/2.4project.py:63 | `c * n` has length `n` and every character is `c` |
| `LineDiff.Marker` | 2_Py_Data_Representations/2.4project.py:63 | the marker line has `idx` `'='` then `'^'` at column `idx` |
| `LineDiff.SinglelineDiffFormat` | 2_Py_Data_Representations/2.4project.py:35-65 | `""` when either line holds `'\n'` or `'\r'`, whatever the index; `""` when `idx < 0` or `idx > min len`; otherwise exactly `line1 + "\n" + Marker(idx) + "\n" + line2 + "\n"` |
| `LineDiff.SinglelineDiffFormatLines` | 2_Py_Data_Representations/2.4project.py:42-43 | a non-empty report, split at newlines, reads back as `[line1, Marker(idx), line2, ""]`, and its index was in range |
| `LineDiff.MultilineDiff` | 2_Py_Data_Representations/2.4project.py:68-103 | the loop, the `(minlist, 0)` fix-up and the empty-list branches return exactly `FirstLineDifference(lines1, lines2)` |
| `LineDiff.FirstLineDifferenceMeaning` | 2_Py_Data_Representations/2.4project.py:80-103 | `(-1, -1)` exactly when the lists are equal; one empty and one non-empty gives `(0, 0)`; a line index `i` below `min len` has every earlier pair equal, `lines1[i] != lines2[i]`, and a column equal to `FirstDifference(lines1[i], lines2[i])` that lies in `[0, min len]` of the two lines |
| `LineDiff.FirstLineDifferenceExtraLines` | 2_Py_Data_Representations/2.4project.py:92-94 | when every paired line matches but the lengths differ, the result is `(min len, 0)` |
| `Strings.SplitOn` | 2_Py_Data_Representations/2.4project.py:121 | `str.split`: at least one piece, and no piece holds a separator |
| `Strings.JoinSplit` | 2_Py_Data_Representations/2.4project.py:121 | joining the pieces of a one-character split with that character gives back the text |
| `Strings.SplitJoin` | 2_Py_Data_Representations/2.4project.py:121 | splitting the join of separator-free pieces gives back the pieces |
| `Strings.SplitAtSeparator` | 2_Py_Data_Representations/2.4project.py:121 | the split of `a + sep + b` is the split of `a` followed by the split of `b` |
| `Strings.SplitAfterPlain` | 2_Py_Data_Representations/2.4project.py:121 | a separator-free prefix becomes the start of the first piece |
| `Strings.DropEmpty` | 2_Py_Data_Representations/2.4project.py:122 | `filter(None, ...)`: keeps exactly the non-empty pieces and no more elements than it was given |
| `Strings.DropEmptyConcat` | 2_Py_Data_Representations/2.4project.py:122 | filtering a concatenation is concatenating the filtered parts, so order is kept |
| `Strings.DropEmptySingle` | 2_Py_Data_Representations/2.4project.py:122 | a single piece is kept exactly when it is not empty |
| `Strings.DropEmptyKeepsAll` | 2_Py_Data_Representations/2.4project.py:122 | when no piece is empty, the filter returns its input unchanged, order and duplicates included |
| `Strings.SplitLines` | 2_Py_Data_Representations/2.4project.py:121-122 | the non-empty pieces of a split, none holding a separator |
| `Strings.FlattenDropEmpty` | 2_Py_Data_Representations/2.4project.py:122 | dropping empty pieces loses no character |
| `Strings.FlattenSplit` | 2_Py_Data_Representations/2.4project.py:121 | the pieces together hold exactly the text's characters other than separators, in order |
| `LineDiff.GetFileLines` | 2_Py_Data_Representations/2.4project.py:121-122 | every line is non-empty and holds no `'\n'` |
| `LineDiff.GetFileLinesContent` | 2_Py_Data_Representations/2.4project.py:121-122 | the lines hold every character of the text except the newlines, in order |
| `LineDiff.GetFileLinesRoundTrip` | 2_Py_Data_Representations/2.4project.py:121-122 | non-empty lines without `'\n'`, written out with `'\n'` between them, read back as the same list |
| `LineDiff.GetFileLinesAppend` | 2_Py_Data_Representations/2.4project.py:121-122 | the lines of `a + "\n" + b` are the lines of `a` followed by the lines of `b` |
| `LineDiff.GetFileLinesKeepsCarriageReturn` | 2_Py_Data_Representations/2.4project.py:121 | lines 121-122 applied to the string `"a\r\nb"` give `["a\r", "b"]`, and the first line holds a line break |
| `LineDiff.GetFileLinesStrict` | 2_Py_Data_Representations/2.4project.py:110-113 | splitting raw content at both `'\n'` and `'\r'` gives non-empty lines with no line break, as the doc comment promises |
| `LineDiff.TranslateNewlines` | 2_Py_Data_Representations/2.4project.py:118-119 | reading in text mode: the text holds no `'\r'` and is no longer than the raw content |
| `LineDiff.PlainLines` | 2_Py_Data_Representations/2.4project.py:121-122 | a text without line breaks is one line, or none when empty, under both ways of cutting |
| `LineDiff.GetFileLinesStrictAppend` | 2_Py_Data_Representations/2.4project.py:110-113 | a `'\n'` or `'\r'` between two raw texts separates their strict lines |
| `LineDiff.GetFileLinesFromRawAfter` | 2_Py_Data_Representations/2.4project.py:118-122 | for a break-free prefix already read, the lines of prefix plus read content equal the strict lines of prefix plus raw content |
| `LineDiff.GetFileLinesFromRaw` | 2_Py_Data_Representations/2.4project.py:110-122 | `get_file_lines` on raw content (read in text mode, split at `'\n'`, empties dropped) gives exactly `GetFileLinesStrict` of the raw content, so no line holds `'\n'` or `'\r'` |
| `LineDiff.ReadCarriageReturnExample` | 2_Py_Data_Representations/2.4project.py:118-122 | the raw content `"a\r\nb"` reads as `"a\nb"` and gives the lines `["a", "b"]` |
| `LineDiff.GetFileLinesStrictContent` | 2_Py_Data_Representations/2.4project.py:110-113 | the strict lines hold every character of the text except the line breaks, in order |
| `Strings.Decimal` | 2_Py_Data_Representations/2.4project.py:157 | `str(n)` for `n >= 0`: at least one digit, only digits, no leading zero |
| `Strings.DecimalRoundTrip` | 2_Py_Data_Representations/2.4project.py:157 | the numeral reads back as the number |
| `LineDiff.FormatFileDiff` | 2_Py_Data_Representations/2.4project.py:149-157 | for a line index of at least -1: `"No differences\n"` exactly when the index is -1; `IndexError` exactly when the index is past the end of either list |
| `LineDiff.FormatFileDiffHeader` | 2_Py_Data_Representations/2.4project.py:155-157 | for an index inside both lists, the report opens with `"Line "`, a run of digits that reads back as the index, and `":\n"`, followed by the one-line report of that pair of lines |
| `LineDiff.ReportSplit` | 2_Py_Data_Representations/2.4project.py:155-157 | a `"Line i:"` header followed by a non-empty three-line report splits at newlines into the header, the two lines around the marker, and `""` |
| `LineDiff.IndexErrorExample` | 2_Py_Data_Representations/2.4project.py:146-157 | for the line lists `["a"]` and `["a", "b"]`, `multiline_diff` gives `(1, 0)`, the as-written tail raises `IndexError`, and the padded tail gives `"Line 1:\n\n^\nb\n"` |
| `LineDiff.FormatFileDiffPadded` | 2_Py_Data_Representations/2.4project.py:132-157 | the tail as documented: `"No differences\n"` for index -1, otherwise a report opening with `"Line "` that never indexes past a list |
| `LineDiff.FileDiffPaddedLines` | 2_Py_Data_Representations/2.4project.py:132-136 | for differing lists of break-free lines, the padded report is always four lines: header, the two lines (a missing one as `""`) and the marker |
| `LineDiff.FileDiffPaddedOnIndexError` | 2_Py_Data_Representations/2.4project.py:149-157 | exactly where the as-written tail raises `IndexError`, the padded report is the report on the first extra line at column 0 |
| `LineDiff.FileDiffFormat` | 2_Py_Data_Representations/2.4project.py:146-157 | `"No differences\n"` exactly when the line lists are equal; `IndexError` exactly when they differ and one extends the other; otherwise `"Line " + str(i) + ":\n"` followed by the one-line report of line `i` at column `j`, where `(i, j)` is the first difference |
| `LineDiff.FileDiffOutcome` | 2_Py_Data_Representations/2.4project.py:149-154 | given `multiline_diff`'s pair, the tail reports "No differences" exactly for equal lists and fails with `IndexError` exactly when one list is a strict prefix of the other |
| `LineDiff.FileDiffReportLines` | 2_Py_Data_Representations/2.4project.py:132-157 | for lists that differ within their common length, the column found is always one the formatter accepts, so the three-line part is empty only when one of the two lines holds a line break; otherwise the report splits into `"Line i:"`, the two lines and the marker |
| `LineDiff.Scenarios` | 2_Py_Data_Representations/2.4project.py:8-103 | `"apple"/"apply"` gives 4, `"cat"/"cat"` gives -1, `"cat"/"cats"` gives 3 and formats as `"cat\n===^\ncats\n"`; `["a","b"]` against itself gives `(-1, -1)`, against `["a","c"]` gives `(1, 0)`; `[]` against `["x"]` gives `(0, 0)` |
| `Strings.LowerChar` | 4_Py_Data_Visualization/4.4project.py:79 | a capital `A`-`Z` becomes the small letter at the same place in the alphabet; every other character is unchanged; no capital is left |
| `Strings.LowerCharAlike` | 4_Py_Data_Visualization/4.4project.py:79 | two characters fold alike exactly when they are equal or the capital and small form of one letter |
| `Strings.Lower` | 4_Py_Data_Visualization/4.4project.py:79 | `str.lower` on ASCII: same length, each character folded |
| `Strings.LowerAlikeIfSameLetters` | 4_Py_Data_Visualization/4.4project.py:79 | strings of one length that agree position by position up to case fold to the same string |
| `Strings.SameLettersIfLowerAlike` | 4_Py_Data_Visualization/4.4project.py:79 | strings that fold to the same string have one length and agree position by position up to case |
| `CountryCodes.BuildCountryCodeConverter` | 4_Py_Data_Visualization/4.4project.py:49-52 | the converter has exactly the code table's keys, and each value is that row's data-code field |
| `CountryCodes.FoldsConverterStep` | 4_Py_Data_Visualization/4.4project.py:78-79 | folding one more converter entry keeps the fold invariant |
| `CountryCodes.LowerConverter` | 4_Py_Data_Visualization/4.4project.py:77-79 | every converter key's folded form is a key, and each entry is the folded value of a converter key that folds to it |
| `CountryCodes.LowerGdpKeys` | 4_Py_Data_Visualization/4.4project.py:81-83 | every GDP key's folded form is a key, and maps back to a GDP key with that folded form |
| `CountryCodes.ReconcileCountriesByCode` | 4_Py_Data_Visualization/4.4project.py:55-94 | every plot code lands in exactly one of the output's keys and `missing`, and nothing else does; a code is in the output exactly when its folded form is a folded converter key whose folded value is a folded GDP key; output keys and `missing` are plot codes as given, and each output value is an actual GDP key |
| `CountryCodes.MatchedJoins` | 4_Py_Data_Visualization/4.4project.py:85-90 | whichever colliding key won the folding, a joined code reaches, through some converter entry, the GDP key it was given |
| `CountryCodes.JoinsThroughMatched` | 4_Py_Data_Visualization/4.4project.py:77-90 | when converter keys differ in more than case, a plot code that reaches a GDP key through the inputs is joined; when GDP keys also differ in more than case, it is joined to that key |
| `CountryCodes.SplitByYear` | 4_Py_Data_Visualization/4.4project.py:121-132 | the not-joined set passes through unchanged; the joined codes split into two disjoint groups covering them all: `missing_gdp_values` holds exactly those whose year field is `""`, and the map holds the rest with their field text |
| `CountryCodes.BuildMapDictByCode` | 4_Py_Data_Visualization/4.4project.py:97-132 | given the year column in every GDP row a plot code reaches through the converter: every joined code's GDP row has the year column; the three returned groups are disjoint and together are exactly the plot codes; the not-joined group is exactly reconcile's `missing`; a joined code goes to `missing_gdp_values` exactly when its GDP row's year field is empty, and to the map, with that field, exactly when it is not |

## Left out

- File I/O: `open`/`read`/`close` in `get_file_lines` and the two calls in `file_diff_format` (2.4project.py:118-120, 142-143). `FileDiffFormat` takes the two line lists.
- `read_csv_as_nested_dict` (4.4project.py:13-33): file I/O and the `csv` library. Tables come in parsed. `BuildCountryCodeConverter` takes the code table and the data-code column name in place of `codeinfo`. `ReconcileCountriesByCode` and `BuildMapDictByCode` take the converter that `BuildCountryCodeConverter` builds in place of `codeinfo`, and `BuildMapDictByCode` takes the parsed GDP table and the year in place of `gdpinfo`.
- `render_world_map` and `test_render_world_map` (4.4project.py:135-209): `pygal` rendering to an SVG file.
- `CountryCodes.BuildMapDictByCode`: the map value is the year field's text, not `math.log10(float(...))` of it; floating point and every error `math.log10(float(...))` can raise are not modelled: the `ValueError` for a non-numeric field, and the `ValueError` from `math.log10` for a figure of zero or below.
- `CountryCodes.SplitByYear`: the same; its map value is the field text.
- `Strings.Lower`: folds only ASCII `A`-`Z`; Python's Unicode `str.lower` is not modelled.
- `CountryCodes.ReconcileCountriesByCode`: does not say which of two keys that fold to the same lower-case code wins (Python keeps the later one, in CSV row order); the maps carry no order, so it states only what holds whichever key wins.
- `CountryCodes.LowerConverter`: the same; each entry comes from some colliding key, not a specified one.
- `CountryCodes.LowerGdpKeys`: the same.
- `CountryCodes.BuildCountryCodeConverter`: requires the data-code column in every row; Python would raise `KeyError` otherwise.
- `CountryCodes.SplitByYear`: requires the year column in every joined GDP row; Python would raise `KeyError` otherwise.
- `CountryCodes.BuildMapDictByCode`: requires the year column in every GDP row that a plot code reaches through any converter entry, up to case. Python reads the column only for the row that the join actually picks. Two other rows are also covered by the requires, and either may lack the column in Python: a GDP key that loses the case-folding to another GDP key with the same lower-case form, and a GDP row that only a losing converter entry reaches (for example `"us"` and `"US"` with different data codes). The `KeyError` case is not modelled.
- `LineDiff.FormatFileDiff` requires a line index of at least -1, the only values `multiline_diff` returns; Python's negative indexing for other values is not modelled.
- The second call to `singleline_diff` at 2.4project.py:87 is merged with the first; both give the same value.
- The text-mode reading is modelled on characters (`TranslateNewlines`); decoding bytes to characters is not modelled.
- `get_file_lines` documents undefined behaviour for unreadable files; that is I/O and not modelled.

## Findings

| source | as written | input that shows it | evidently intended | confidence | as-written member | corrected member |
|---|---|---|---|---|---|---|
| 2_Py_Data_Representations/2.4project.py:154 | the report on line `i` indexes `lst1[i]` and `lst2[i]`, but `multiline_diff` returns `i == min(len)` when one list of lines extends the other | files whose lines are `["a"]` and `["a", "b"]`: `multiline_diff` gives `(1, 0)` and `lst1[1]` raises `IndexError` | "a four line string" for any two differing files (lines 132-136), the missing line compared as `""` | not executed | `LineDiff.IndexErrorExample` | `LineDiff.FileDiffPaddedLines` |
