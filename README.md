# Regex pattern library generator, modelled in Dafny

`regex_pattern_generator.py` is a small web tool. It turns an uploaded CSV
file of matching rules into Python source for a `REGEX_PATTERNS =
OrderedDict([...])` literal. This project models the part that does the work:

- the upload guard `allowed_file`;
- the helpers `clean_pattern_name`, `escape_regex_for_string` and
  `generate_default_color`;
- the body of `process_csv_to_patterns`, from the parsed rows to the result
  record.

`process_csv_to_patterns` works in these steps:

1. It lower-cases and trims every column name.
2. It fills canonical columns from their synonyms.
3. It drops rows without a non-empty `pattern_name` and `pattern`.
4. It fills in the description, priority and colour.
5. It sorts the rows stably by `(int(priority), pattern_name)`.
6. It renders four header lines, seven lines per rule and a closing `])`,
   joined with newlines.
7. It returns the code with three counters, or an error message.

Modules, one file each:

- `Options` (options.dfy): the `Option` type that stands for Python's `None`.
- `Text` (text.dfy): character classes, `lower()` and `strip()`, the
  extension guard, the key cleaner and the quote escaper.
- `Numbers` (numbers.dfy): `int(float(text))` for the priority column, and
  `str()` of an int.
- `Columns` (columns.dfy): the column-name normalisation and the synonym
  table. Each is a method with a loop, proved equal to a specification
  function.
- `Rules` (rules.dfy): the palette, the defaults, and whether a mapped row is
  kept.
- `Ordering` (ordering.dfy): Python's order on `(int, str)` keys, and a
  stable sort. The sort is proved to be the only stable sorted arrangement,
  so it stands for `list.sort`.
- `Render` (render.dfy): the generated lines and their joining. A reader
  `ReadCode` parses the text back into rules; it is the inverse the
  rendering is proved against.
- `Generator` (generator.dfy): the specification `Generate` and the
  imperative `ProcessCsvToPatterns` proved equal to it, with lemmas on
  failures, counts, colours and order.

Some facts about the code are easy to miss, and the model keeps them:

- The default description is the raw `pattern_name`, not the cleaned one
  (regex_pattern_generator.py:328).
- The default colour is chosen by the row's position among all data rows,
  skipped rows included, not among the kept rows
  (regex_pattern_generator.py:308, :339).
- The rendered key is the cleaned name, while the rows are sorted on the raw
  name (regex_pattern_generator.py:351, :362). So the rendered keys need not
  look sorted, and they may be empty.

The page the tool serves says that patterns are processed in the order they
appear in the CSV file (regex_pattern_generator.py:148). The code sorts them
by `(int(priority), pattern_name)` instead (regex_pattern_generator.py:351).
The model follows the code.

## Model

| member | source | states |
|---|---|---|
| Text.IsSpace | regex_pattern_generator.py:251-252 | `\s`, the whitespace that `strip()` and `split()` remove: ASCII space, tab to carriage return, the separators U+001C to U+001F and the Unicode spaces |
| Text.IsWordChar | regex_pattern_generator.py:251 | `\w`, restricted to ASCII letters, digits and `_` |
| Text.IsNameChar | regex_pattern_generator.py:251 | the characters `[^\w\s-]` does not match, which the first substitution keeps |
| Text.Strip | regex_pattern_generator.py:252 | the result of `strip()` has no whitespace at either end |
| Text.StripSpec | regex_pattern_generator.py:252 | `strip()` removes only whitespace: its result is an infix of the input with nothing but whitespace outside it |
| Text.AllowedFile | regex_pattern_generator.py:245-246 | the upload guard: a dot, and the text after the last dot lower-cased equal to `csv`; `AllowedFileSpec` characterises it |
| Text.AllowedFileSpec | regex_pattern_generator.py:245-246 | a file name is accepted iff it has a dot and the text after its last dot, lower-cased, is `csv` |
| Text.AllowedFileAtDot | regex_pattern_generator.py:245-246 | once a position holds the last dot of a name, the name is accepted iff the text after it, lower-cased, is `csv` |
| Text.AllowedFileAccepts | regex_pattern_generator.py:245-246 | `.csv` and `rules.CSV` are accepted |
| Text.AllowedFileRejects | regex_pattern_generator.py:245-246 | `csv` (no dot) and `rules.csv.bak` are rejected |
| Text.Lower | regex_pattern_generator.py:246 | `lower()`, the case mapping applied to the extension and to column names |
| Text.RemoveDisallowed | regex_pattern_generator.py:251 | after the first substitution only word characters, whitespace and hyphens remain |
| Text.RemoveDisallowedOne | regex_pattern_generator.py:251 | the first substitution works character by character: a character survives iff it is a word character, whitespace or a hyphen, and the text on either side of it is filtered on its own |
| Text.CollapseSpacesForm | regex_pattern_generator.py:252 | after the second substitution every whitespace character is a single space, no two are adjacent, and other characters come from the input, and the result starts with whitespace exactly when the input does |
| Text.CollapseSpaces | regex_pattern_generator.py:252 | the second substitution: every run of whitespace becomes a single space |
| Text.Words | regex_pattern_generator.py:252 | `str.split()`: the maximal runs of characters other than whitespace, in order |
| Text.JoinWords | regex_pattern_generator.py:252 | `" ".join(words)` |
| Text.SqueezeWords | regex_pattern_generator.py:252 | replacing every whitespace run by one space and then `strip()` gives the same text as `" ".join(text.split())` |
| Text.CleanPatternName | regex_pattern_generator.py:248-253 | a cleaned key holds only word characters, spaces and hyphens, has no space at either end and never two spaces in a row |
| Text.RemoveDisallowedKeeps | regex_pattern_generator.py:251 | the first substitution keeps every word character and hyphen of the name, in order, and no other character that is not whitespace |
| Text.CollapseSpacesKeeps | regex_pattern_generator.py:252 | the second substitution keeps every character that is not whitespace, in order |
| Text.StripKeeps | regex_pattern_generator.py:252 | `strip()` keeps every character that is not whitespace, in order |
| Text.CleanPatternNameKeeps | regex_pattern_generator.py:248-253 | the non-whitespace characters of a cleaned key are exactly the word characters and hyphens of the name, in order |
| Text.CleanPatternNameExample | regex_pattern_generator.py:248-253 | two words with doubled spaces around them and a stray `!` (as in `  Home  Page! `) clean to the words joined by one space |
| Text.CleanPatternNameNoSpaces | regex_pattern_generator.py:248-253 | a name without whitespace cleans to exactly its word characters and hyphens, in order |
| Text.CleanPatternNameWords | regex_pattern_generator.py:248-253 | a cleaned key is the words of the name, after the disallowed characters are removed, joined by single spaces |
| Text.CleanPatternNameIdempotent | regex_pattern_generator.py:248-253 | cleaning a cleaned key changes nothing |
| Text.EscapeQuotes | regex_pattern_generator.py:255-259 | every quote in the escaped text is preceded by a backslash |
| Text.EscapeLength | regex_pattern_generator.py:255-259 | the escaped text is longer than the input by the number of quotes in it |
| Text.EscapeRoundTrip | regex_pattern_generator.py:255-259 | deleting the character before each quote of the escaped text gives the input back |
| Text.EscapeWithoutQuotes | regex_pattern_generator.py:255-259 | text without quotes is unchanged by escaping |
| Numbers.NatToString | regex_pattern_generator.py:334 | `str()` of a non-negative int is a non-empty string of digits, with no leading zero except in `0` |
| Numbers.IntToString | regex_pattern_generator.py:334 | `str()` of an int: non-empty, a leading `-` exactly for a negative value, and digits after it |
| Numbers.ParseTruncated | regex_pattern_generator.py:334 | `int(float(text))` in the model: trim, optional sign, digits with an optional fraction, truncated; None for any other text, and for text holding one of the controls U+001C to U+001F, which `float()` neither trims nor parses |
| Numbers.ParseTruncatesFraction | regex_pattern_generator.py:334 | `int(float(text))` of a signed decimal with a fractional part is its whole part with the sign, truncated toward zero |
| Numbers.ParseIntToString | regex_pattern_generator.py:366 | the priority text `str(n)` stored in a row reads back as `n` |
| Numbers.IntToStringInjective | regex_pattern_generator.py:384 | two priorities have the same text only if they are equal, so distinct texts count distinct priorities |
| Numbers.ParseRejects | regex_pattern_generator.py:333-336 | text starting with a character that is neither whitespace nor part of a number does not parse |
| Numbers.ParseSignedDigits | regex_pattern_generator.py:334 | an optional minus sign followed by digits reads as their signed value |
| Numbers.ParseExampleWhole | regex_pattern_generator.py:334 | `2` reads as 2 |
| Numbers.ParseExampleWord | regex_pattern_generator.py:333-336 | `abc` does not parse |
| Numbers.ParseExampleSeparator | regex_pattern_generator.py:333-336 | `\x1c2` does not parse, so its priority falls back to 1 |
| Numbers.ParseExampleNoBreakSpace | regex_pattern_generator.py:334 | a no-break space before `2` is trimmed, and the text reads as 2 |
| Numbers.Overflows | regex_pattern_generator.py:334 | `float()` of the text is infinite, so `int()` raises `OverflowError`: its value has magnitude at least 2^1024 - 2^970 |
| Columns.HasName | regex_pattern_generator.py:287 | `if key:` skips a missing column name and an empty one |
| Columns.ColumnKey | regex_pattern_generator.py:288 | `key.lower().strip()`, the name a column is stored under |
| Columns.NormalizedColumns | regex_pattern_generator.py:284-290 | the row dictionary of one CSV row: every named column under its normalised name, a later column winning over an earlier one with the same name |
| Columns.NormalizeColumns | regex_pattern_generator.py:284-290 | the loop builds the row dictionary of lower-cased, trimmed names, skipping unnamed columns |
| Columns.NormalizedColumnsKeys | regex_pattern_generator.py:286-289 | a normalised column exists iff some named column normalises to it |
| Columns.NormalizedColumnsLastWins | regex_pattern_generator.py:286-289 | when several columns normalise to the same name, the last one's value is kept |
| Columns.SynonymFill | regex_pattern_generator.py:310-313 | the synonym copies of the first mapping loop, entry by entry in table order |
| Columns.MapColumns | regex_pattern_generator.py:310-317 | the mapped row: the synonym copies with every original column written over them |
| Columns.FillSynonyms | regex_pattern_generator.py:310-313 | the first loop copies, entry by entry, a synonym's value into a canonical column the row lacks, as `SynonymFill` defines |
| Columns.OverlayRow | regex_pattern_generator.py:315-317 | the second loop writes every original column over the synonym copies |
| Columns.ApplyColumnMapping | regex_pattern_generator.py:310-317 | the two loops together give the mapped row `MapColumns` |
| Columns.MapColumnsKeys | regex_pattern_generator.py:310-317 | a column the row has keeps its own value; a column it lacks is present iff one of its synonyms is |
| Columns.MapColumnsLastSynonym | regex_pattern_generator.py:311-313 | a missing canonical column takes the value of the last synonym in table order that the row has |
| Columns.LaterSynonymWins | regex_pattern_generator.py:293-313 | with both `regex` and `pattern_regex` and no `pattern`, the pattern comes from `pattern_regex` |
| Rules.DefaultColor | regex_pattern_generator.py:261-267 | the default colour is a seven-character `#` colour from the palette |
| Rules.DefaultColorPeriodic | regex_pattern_generator.py:261-267 | the default colour repeats every ten rows |
| Rules.DefaultColorEveryTenth | regex_pattern_generator.py:261-267 | rows 0, 10, 20, … get `#87CEEB` |
| Rules.Truthy | regex_pattern_generator.py:320-343 | Python truthiness of a cell: present and non-empty |
| Rules.Get | regex_pattern_generator.py:320-343 | `mapped_row.get(key)`: the value when the column exists, otherwise `None` |
| Rules.NormalizePriority | regex_pattern_generator.py:330-336 | the priority: 1 when missing or empty, otherwise its parsed value, and 1 when it does not parse; the overflow case fails the whole request instead (`Generator.GenerateOverflow`) |
| Rules.PriorityOverflows | regex_pattern_generator.py:330-334 | a present, non-empty priority whose value `float()` rounds to infinity |
| Rules.NormalizeColor | regex_pattern_generator.py:338-343 | the colour always starts with `#`, and a given colour is kept or has `#` added in front |
| Rules.ColorRules | regex_pattern_generator.py:338-343 | a missing or empty colour is `palette[i % 10]`; a given colour is unchanged iff it starts with `#`, and otherwise only `#` is added |
| Rules.Keeps | regex_pattern_generator.py:320-324 | a mapped row is kept when both `pattern_name` and `pattern` are present and non-empty |
| Rules.BuildEntry | regex_pattern_generator.py:326-343 | a kept row filled in: description defaults to the raw name, then the priority and colour defaults |
| Rules.ProcessRow | regex_pattern_generator.py:319-345 | one pass of the processing loop: nothing for a skipped row, otherwise the filled-in entry |
| Rules.ColorExamples | regex_pattern_generator.py:338-343 | `ff0000` becomes `#ff0000`, `#00ff00` is kept, and a missing colour at rows 0 and 10 is `#87CEEB` |
| Rules.PriorityTruncates | regex_pattern_generator.py:330-336 | a priority with a fractional part becomes its whole part with its sign |
| Rules.PriorityOfInteger | regex_pattern_generator.py:334 | a priority written as an integer keeps its value |
| Rules.PriorityOfWord | regex_pattern_generator.py:335-336 | a priority that is not a number becomes 1 |
| Rules.PriorityExamplePositive | regex_pattern_generator.py:334 | `2.9` becomes 2 |
| Rules.PriorityExampleNegative | regex_pattern_generator.py:334 | `-2.9` becomes -2, truncated toward zero |
| Rules.PriorityDefaults | regex_pattern_generator.py:330-336 | a missing, empty or non-numeric priority is 1 |
| Rules.FilledRowExample | regex_pattern_generator.py:319-345 | the row `Home` with empty description, colour and priority 1 at position 0 is kept with description `Home` and colour `#87CEEB` |
| Ordering.StrLt | regex_pattern_generator.py:351 | Python's string order: by code point, a proper prefix first |
| Ordering.KeyOf | regex_pattern_generator.py:351 | the sort key `(int(priority), pattern_name)` |
| Ordering.KeyLt | regex_pattern_generator.py:351 | tuple order on the key: priority first, then the name |
| Ordering.KeyLtOrder | regex_pattern_generator.py:351 | comparing the sort keys `(priority, name)` is a strict total order |
| Ordering.StableSort | regex_pattern_generator.py:351 | the sorted rows are a permutation of the processed rows |
| Ordering.StableSortStable | regex_pattern_generator.py:351 | the sort orders the rows by key and keeps rows with equal keys in input order |
| Ordering.SortedUnique | regex_pattern_generator.py:351 | two sorted lists with the same rows per key, in the same order, are equal |
| Ordering.StablySortedIsStableSort | regex_pattern_generator.py:351 | any stable sort by the key gives exactly the model's sorted rows |
| Render.CodeLines | regex_pattern_generator.py:354-379 | `code_lines`: four header lines, seven lines per rule and `])`, so 5 + 7n lines for n rules |
| Render.JoinLines | regex_pattern_generator.py:381 | `"\n".join(lines)` |
| Render.EntryLines | regex_pattern_generator.py:361-377 | the seven lines of one rule |
| Render.RenderCode | regex_pattern_generator.py:354-381 | the header, each rule's lines and `])`, joined with newlines |
| Render.SplitJoin | regex_pattern_generator.py:381 | splitting the joined lines at newlines gives the lines back when none holds a newline |
| Render.EntryRoundTrip | regex_pattern_generator.py:361-377 | a rule's seven lines read back as its cleaned name, pattern, description, colour and priority |
| Render.CodeRoundTrip | regex_pattern_generator.py:354-381 | the generated code reads back as every rule in sorted order, name cleaned and other fields unchanged, when no field holds a line break |
| Generator.NormalizedRows | regex_pattern_generator.py:283-290 | `normalized_rows`: one dictionary per row, the k-th being the normalisation of the k-th row |
| Generator.RowOverflows | regex_pattern_generator.py:330-336 | a row that is kept and whose priority makes `int(float(...))` raise `OverflowError`, which the inner handler does not catch |
| Generator.AnyOverflow | regex_pattern_generator.py:308-345 | some row is kept and has a priority that rounds to infinity, so the processing loop raises `OverflowError` |
| Generator.Retain | regex_pattern_generator.py:307-345 | `processed_rows`: each mapped row that is kept, filled in with the defaults for its position among all rows |
| Generator.Generate | regex_pattern_generator.py:279-392 | the result: no data rows, an overflowing priority, or no kept row fail in that order; otherwise the code of the stably sorted kept rows with the three counts |
| Generator.NormalizeAll | regex_pattern_generator.py:283-290 | the loop builds the list of normalised row dictionaries |
| Generator.ProcessRows | regex_pattern_generator.py:307-345 | the loop keeps each row that has both required columns, filled in with the defaults for its position, and stops with nothing when a kept row's priority overflows |
| Generator.BuildCodeLines | regex_pattern_generator.py:354-379 | the loop builds the header, seven lines per rule and the closing line |
| Generator.ProcessCsvToPatterns | regex_pattern_generator.py:279-392 | the pipeline returns what the specification `Generate` gives for the rows |
| Generator.RetainLength | regex_pattern_generator.py:307-345 | there is one processed row per kept position |
| Generator.KeptIndicesValid | regex_pattern_generator.py:320-324 | the kept positions increase, and each is a row with a non-empty `pattern_name` and `pattern` |
| Generator.KeptIndicesComplete | regex_pattern_generator.py:320-324 | every row with a non-empty `pattern_name` and `pattern` is kept |
| Generator.RetainEntries | regex_pattern_generator.py:307-345 | the m-th processed row is the m-th kept row, filled in for its position among all rows |
| Generator.DefaultColorPosition | regex_pattern_generator.py:308-339 | a kept row without a colour gets the palette colour of its position among all rows, which is at least its position among kept rows |
| Generator.GenerateFailures | regex_pattern_generator.py:279-348 | no data rows gives "No data rows found in CSV file"; otherwise an overflowing priority gives OverflowError's message; otherwise the call fails iff no row is processed, with the "No valid rows found" message |
| Generator.RetainEmpty | regex_pattern_generator.py:347-348 | no row is processed iff no row has a non-empty `pattern_name` and `pattern` |
| Generator.GenerateNoKeptRow | regex_pattern_generator.py:319-348 | past the first two failures, the call fails iff no row has a non-empty `pattern_name` and `pattern` |
| Generator.GenerateOverflow | regex_pattern_generator.py:333-336 | a kept row whose priority is an integer of magnitude at least 2^1024 - 2^970 fails the whole request with "cannot convert float infinity to integer", since the inner handler does not catch `OverflowError` |
| Generator.GenerateCounts | regex_pattern_generator.py:384-391 | `pattern_count` and `csv_rows` both equal the number of kept rows, and `priorities` is between 1 and that number |
| Generator.PriorityTexts | regex_pattern_generator.py:384 | the set of priority texts of the processed rows |
| Generator.PriorityTextsCount | regex_pattern_generator.py:384 | the number of distinct priority texts equals the number of distinct priorities |
| Generator.GeneratePriorities | regex_pattern_generator.py:384-391 | `priorities` is the number of distinct priorities among the kept rows |
| Generator.GenerateCode | regex_pattern_generator.py:351-381 | the code is the rendering of any stable sort of the kept rows, and it reads back as those rules in that order |

## Left out

- The Flask application is not modelled because it is web I/O: routes, the HTML template and its script, the upload folder and the size limit (regex_pattern_generator.py:1-243, :400-428).
- UTF-8 decoding and `csv.DictReader` parsing are library calls (regex_pattern_generator.py:273-277). The input is the list of parsed row dictionaries, and a decode or parse error is not modelled.
- The generic `except Exception` wrapper (regex_pattern_generator.py:394-398) is modelled for three failures: no data rows, no valid rows, and the `OverflowError` of a priority that `float()` rounds to infinity. The other exceptions it can catch are not modelled: decode and parse errors (above) and the float texts `inf` and `1e400` (below).
- Numbers.ParseTruncated: `float()` is modelled only for whitespace, an optional sign, digits and an optional fractional part. Everything else counts as unparseable. Exponents, `nan`, `inf`, underscores and non-ASCII digits are not modelled, so neither is an overflow written with an exponent.
- NormalizePriority: for `inf`, Python raises `OverflowError`, which escapes the inner handler and fails the whole request. The model gives 1 instead.
- NormalizePriority: for numbers beyond the 53-bit precision of a float, Python gives the integer value of the rounded float, while the model keeps the exact whole part. The overflow test is applied to the exact value, which decides the same as the rounded float would.
- Numbers.ParseTruncatesFraction: states truncation of the exact decimal value. Python first rounds the text to the nearest float. When that float is the next integer away from zero, Python's value is one further from zero than the model's. This happens when the fraction lies within half a float spacing of that integer: 17 fractional digits suffice near 0 (`int(float("0.99999999999999999"))` is 1, the model gives 0), 16 near 2 (`"2.9999999999999998"` gives 3 and `"-2.9999999999999998"` gives -3, the model gives 2 and -2), and one near 2^52 (`"4503599627370495.9"` gives 4503599627370496). Whole parts of 2^53 or more are covered by the NormalizePriority line on precision.
- Rules.PriorityTruncates: the same gap as `Numbers.ParseTruncatesFraction`: when `float()` rounds a long fraction up to the next integer away from zero, Python's priority is one further from zero than the model's.
- Text.IsWordChar: `\w` is restricted to ASCII. Python also keeps non-ASCII letters and digits in keys; the model removes them.
- Text.Lower: `lower()` maps only ASCII letters. The outcome is the same for every column name the program compares against.
- Ordering.StableSort: `list.sort` (Timsort) is replaced by a functional stable insertion sort. `StablySortedIsStableSort` shows that every stable sort gives the same result.
- Rules.Entry: a processed row stores its priority as an int, where Python stores `str(int(...))`. Sorting and rendering apply `int()` to that text, which gives back the int (`Numbers.ParseIntToString`). `priorities` counts the distinct texts, as the code does.
- Render.ReadCode reads the generated text in the model's own layout; Python's reading of that text is not modelled. A pattern ending in a backslash, or a field holding a line break or an unescaped quote, yields text that is not a valid Python literal. `CodeRoundTrip` therefore requires fields without line breaks.
