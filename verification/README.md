# Looker Studio regex pattern generator — Dafny model

The generator turns a block of text with one literal value per line into a
single regular expression that matches any of those values. Its core is the
pure function `convert_to_regex` and its helper `escape_regex`. The transform
works in six steps:

1. Split the text on `'\n'`, strip every line, and keep the non-blank lines in order.
2. Optionally upper-case (`"upper"`) or lower-case (`"lower"`) every value.
3. Escape every value as a regex literal.
4. Optionally wrap every escaped value in `\b ... \b`.
5. Join the pieces with `|`.
6. Anchor by match type:
   - `"exact"` gives `^(?:j)$`;
   - `"startsWith"` gives `^(?:j)`;
   - `"endsWith"` gives `(?:j)$`;
   - `"contains"`, or any other value, leaves `j` as it is.

Text that is all whitespace gives the empty pattern.

The project has five modules:

- `Strings` (`strings.dfy`): Python's whitespace, `strip`, `split` and `join` for a one-character separator, with their round trips.
- `Casing` (`casing.dfy`): per-character upper and lower casing.
- `Escaping` (`escaping.dfy`): the escape table, `Escape`, and its inverse `Unescape`.
- `RegexGenerator` (`regex_generator.dfy`): the six steps and `ConvertToRegex`. Steps 3 to 6 each have a partner that reads their output back:
  - `Unescape` for step 3;
  - `Unwrap` for step 4;
  - `SplitAlternatives` for step 5;
  - `Unanchor` for step 6.

  `NonBlank`, the positions of the non-blank lines, is the reference for step 1, and `Recover` reads the whole pattern back.

  The main theorem is `RecoverConvert`. For every input and every option, `Recover` reads the pattern back into exactly the case-transformed values, in input order.
- `RegexExamples` (`examples.dfy`): the pattern of text written one plain value per line, and the patterns of three small inputs.

The match-type and case options are strings, compared as the source compares
them. An unrecognised match type behaves like `"contains"`, and an unrecognised
case option leaves the values unchanged. There is no option-validation error.
For `"contains"` the alternation is returned without a `(?:...)` group, as the
code does.

## Model

| member | source | states |
|---|---|---|
| RegexGenerator.ConvertToRegex | srteamlit_app.py:9-43 | The pattern is empty exactly when the input is all whitespace, and exactly when the value list is empty. |
| RegexGenerator.RecoverConvert | srteamlit_app.py:9-43 | Reading the pattern back with the same match type and word-boundary flag gives exactly the case-transformed values, in input order. This holds for every input, and a blank input gives the empty list. |
| RegexGenerator.Values | srteamlit_app.py:11-15 | The `strip()` guard and the filtered comprehension agree: the value list is empty exactly when the input is all whitespace. Every value is non-empty, and it neither starts nor ends with whitespace. |
| RegexGenerator.CleanLinesEmpty | srteamlit_app.py:15 | No line survives the filter exactly when every line is blank. |
| RegexGenerator.SplitBlank | srteamlit_app.py:11-15 | A text is all whitespace exactly when each of its `'\n'`-separated lines is. |
| RegexGenerator.CleanLines | srteamlit_app.py:15 | There are never more values than lines. Every value is non-empty, and it neither starts nor ends with whitespace. |
| RegexGenerator.NonBlank | srteamlit_app.py:15 | The positions of the kept lines are valid, strictly increasing, and point at non-blank lines. |
| RegexGenerator.NonBlankComplete | srteamlit_app.py:15 | Every non-blank line's position is among the kept ones. |
| RegexGenerator.CleanLinesInOrder | srteamlit_app.py:15 | The k-th value is the stripped line at the k-th non-blank position. |
| Strings.Strip | srteamlit_app.py:11 | `strip()` shortens at most. It is empty exactly for all-whitespace text, and otherwise neither starts nor ends with whitespace. |
| Strings.StripInfix | srteamlit_app.py:15 | Stripping removes only whitespace, and only at the two ends. |
| Strings.StripIdempotent | srteamlit_app.py:15 | Stripping twice is stripping once. |
| Strings.StripPadded | srteamlit_app.py:11 | Whitespace added around a text does not change its stripped form. |
| Strings.TrimStart | srteamlit_app.py:11 | `lstrip` never lengthens the text and leaves no leading whitespace. |
| Strings.TrimStartDrops | srteamlit_app.py:11 | `lstrip` keeps a suffix of the text, and what it drops is all whitespace. |
| Strings.TrimEnd | srteamlit_app.py:11 | `rstrip` never lengthens the text and leaves no trailing whitespace. |
| Strings.TrimEndKeeps | srteamlit_app.py:11 | `rstrip` keeps a prefix of the text, and what it drops is all whitespace. |
| Strings.Split | srteamlit_app.py:15 | `split('\n')` gives at least one piece, and no piece holds the separator. |
| Strings.JoinSplit | srteamlit_app.py:15 | Joining the pieces of a split gives back the text. |
| Strings.SplitJoin | srteamlit_app.py:33 | Splitting a join of separator-free pieces gives back the pieces. |
| Strings.Join | srteamlit_app.py:33 | The join is empty exactly for no pieces or one empty piece. |
| Strings.JoinFirst | srteamlit_app.py:33 | The join starts with the first piece. |
| Strings.JoinLast | srteamlit_app.py:33 | The join ends with the last piece. |
| RegexGenerator.ApplyCase | srteamlit_app.py:18-21 | `"upper"` gives every value's upper-case image and `"lower"` its lower-case image. Any other option leaves the values unchanged. The number of values, each value's length, and trimmedness are kept. |
| RegexGenerator.CasedValuesInOrder | srteamlit_app.py:15-21 | The k-th transformed value is the case image of the k-th non-blank input line, stripped. |
| Casing.UpperChar | srteamlit_app.py:19 | The result is never a lower-case letter, and a lower-case letter becomes the upper-case letter at the same place in the alphabet. Only lower-case letters change, and whitespace status is kept. |
| Casing.LowerChar | srteamlit_app.py:21 | The result is never an upper-case letter, and an upper-case letter becomes the lower-case letter at the same place in the alphabet. Only upper-case letters change, and whitespace status is kept. |
| Casing.CaseRoundTrip | srteamlit_app.py:19-21 | A letter changed to the other case changes back. |
| Casing.Upper | srteamlit_app.py:19 | An upper-cased value keeps its length, and each character is its `UpperChar` image, so a lower-case letter becomes its upper-case letter. It has no lower-case letter. Every other character stays where it was, and whitespace positions are kept. |
| Casing.Lower | srteamlit_app.py:21 | A lower-cased value keeps its length, and each character is its `LowerChar` image, so an upper-case letter becomes its lower-case letter. It has no upper-case letter. Every other character stays where it was, and whitespace positions are kept. |
| Casing.UpperIdempotent | srteamlit_app.py:19 | Upper-casing twice is upper-casing once. |
| Casing.LowerIdempotent | srteamlit_app.py:21 | Lower-casing twice is lower-casing once. |
| Escaping.Escape | srteamlit_app.py:5-7 | Escaping at most doubles a value's length and never shortens it. |
| Escaping.Unescape | srteamlit_app.py:5-7 | A decoded value is never longer than its escaped text. |
| Escaping.UnescapeEscape | srteamlit_app.py:5-7 | Removing the escape backslashes gives back the value. |
| Escaping.EscapeUnescape | srteamlit_app.py:5-7 | Every text that `Unescape` accepts is the escaping of what it returns. |
| Escaping.EscapeIff | srteamlit_app.py:5-7 | `t` is the escaping of `s` exactly when `Unescape(t)` is `s`. |
| Escaping.EscapeSpecialsPreceded | srteamlit_app.py:5-7 | In an escaped value every special character other than the backslash has a backslash right before it. |
| Escaping.EscapeBarFree | srteamlit_app.py:24 | An escaped value has no unescaped bar character. |
| Escaping.EscapeEdges | srteamlit_app.py:24 | A non-empty escaped value starts with a backslash or an ordinary character, and any final `$` in it is escaped. |
| Escaping.EscapePlain | srteamlit_app.py:24 | A value without special characters is its own escaping. |
| RegexGenerator.EscapeAll | srteamlit_app.py:24 | Each value is escaped exactly once: unescaping each piece gives that value back, and no piece has a bare bar character. |
| RegexGenerator.Wrap | srteamlit_app.py:28 | `Unwrap` takes the markers off a wrapped piece and gives back exactly the escaped value. |
| RegexGenerator.WrapIff | srteamlit_app.py:26-30 | With word boundaries a piece is `\b` + escaped value + `\b`, and without them the escaped value itself. `Unwrap` recognises exactly these. |
| RegexGenerator.Process | srteamlit_app.py:26-30 | The markers are added after escaping, so unwrapping each piece gives exactly its escaped value. No bare bar character is introduced. |
| RegexGenerator.DecodeProcess | srteamlit_app.py:24-30 | Unwrapping and unescaping the processed pieces gives back the values, in order. |
| RegexGenerator.SplitAlternatives | srteamlit_app.py:33 | Cutting at every unescaped bar character always gives at least one piece. |
| RegexGenerator.SplitJoinAlternatives | srteamlit_app.py:33 | Pieces with no bare bar character, joined with the bar character, split back at every unescaped bar character into exactly those pieces, in order. |
| RegexGenerator.JoinSplitAlternatives | srteamlit_app.py:33 | Joining the pieces of a split with the bar character gives back the text. |
| RegexGenerator.Anchor | srteamlit_app.py:36-43 | Anchoring never shortens the alternation. |
| RegexGenerator.AnchorIff | srteamlit_app.py:36-43 | `Unanchor` removes exactly the shape each match type adds. Other match types give `j` unchanged. |
| RegexGenerator.ConvertAnchors | srteamlit_app.py:36-43 | The match type of a non-blank input shows at the pattern's ends. It starts with `^` exactly for `exact` and `startsWith`, and with `(` exactly for `endsWith`. It ends with `)$` exactly for `exact` and `endsWith`. Any other match type gives the bare alternation. |
| RegexGenerator.SingleValueIsStrippedInput | srteamlit_app.py:11-15 | When exactly one line is not blank, the single value is the whole input, stripped. |
| RegexGenerator.SingleValue | srteamlit_app.py:15-43 | Take one value without special characters, no case transform, no word boundary, and an unanchored match type. The pattern is then the input, stripped. |
| RegexExamples.ValuesOfLines | srteamlit_app.py:15 | Text of trimmed lines, one value per line, has exactly those lines as values. |
| RegexExamples.PlainList | srteamlit_app.py:9-43 | Plain values, one per line, with no case transform or word boundary, give the anchored join, on the bar character, of the values themselves. |
| RegexExamples.PaddedValues | srteamlit_app.py:15 | Two space-padded lines with a blank line between them give the two values, stripped, in order. |
| RegexExamples.UpperOne | srteamlit_app.py:9-43 | One line, upper-cased, unanchored, without word boundaries, gives the upper-cased line when it has no special character. |
| RegexExamples.UpperContains | srteamlit_app.py:9-43 | `Cat` with `"upper"` and `"contains"` gives `CAT`. |
| RegexExamples.BoundaryOne | srteamlit_app.py:9-43 | One plain line with word boundaries, unanchored, gives the line inside the two `\b` markers. |
| RegexExamples.BoundaryContains | srteamlit_app.py:9-43 | `cat` with word boundaries and `"contains"` gives `\bcat\b`. |
| RegexExamples.BoundaryTwo | srteamlit_app.py:24-33 | Two values with word boundaries give each escaped value in markers, joined with the bar character. |
| RegexExamples.BoundaryExact | srteamlit_app.py:9-43 | The text ` a`, bar, `b ` / blank line / ` c ` with `"exact"` and word boundaries gives `^(?:`, then `\ba\` + bar + `b\b`, a bar, `\bc\b`, then `)$`. The bar inside the value is escaped and the blank line is dropped. |

## Left out

- The Streamlit page, with its layout, selectors, checkbox, code display and help text (srteamlit_app.py:45-122). It is interface code with no logic of its own.
- The clipboard copy through `pyperclip` and its fallback message (srteamlit_app.py:3, 97-103). It is external I/O.
- Escaping.Escape: escaping uses a fixed table, the special-character set of `re.escape` in Python 3.7 and later. It does not follow other Python versions. `re` is not part of this model.
- Casing.UpperChar and Casing.LowerChar: they map only the ASCII letters. Python's full Unicode case mapping, including characters whose case image has a different length, is not modelled.
- Strings.IsSpace: whitespace is the fixed set of code points that `str.isspace` accepts, written out by hand. It is not derived from a Unicode database.
- What the generated expression matches when a regex engine runs it. Only the pattern's structure is modelled.
- Wrapping the `"contains"` alternation in a `(?:...)` group. The code returns the bare alternation, and the model follows the code.
- Option validation. Unrecognised options fall through as in the code, so there is no error path for them.
