# Password policy validator — Dafny model

This project models the core of `day2/day2.php`, a password-policy checker.
Each input line has the shape `"<min>-<max> <letter>: <data>"`. The program
works in three steps:

- It parses every line into a `DataModelFields` record. The model calls this
  record `Records.Record`.
- It stores the records in a `Model`. A `Model` is a PHP array keyed by the
  record's `data` string.
- It classifies every stored record under two rules and returns
  `[invalidCount, validCount]` for each rule:
  - the positional rule (`checkStringPosition`): exactly one of the two 1-based
    positions holds the letter;
  - the occurrence rule (`checkRegexData`): the number of copies of the letter
    lies between the two bounds.

The model has five modules:

- `Strings`: the PHP built-ins the parser and the rules rely on, over
  `string`. These are the searches behind `explode` and `strchr`, `trim`, the
  `(integer)` cast of a numeral, `substr(s, offset, 1)` with PHP 8's
  negative-offset rules, and the literal count behind `preg_match_all`.
- `Records`: the record, and how one line is split into its four fields.
- `Store`: the keyed array.
  - Its value is a `Table`: the keys in insertion order (the order `foreach`
    visits them) plus a map from key to record.
  - `Table.Add` is the assignment `$fields[$data] = $field`. A present key is
    overwritten in place; a new key is appended.
  - `Store.Model` is the mutable object, a class whose `AddField` changes its
    fields in place.
  - `Build` is the array obtained by adding a sequence of records in order.
    The lemmas about `Build` say which records survive.
- `Rules`: the two per-record predicates as the source writes them, and their
  meaning.
- `Parser`: `createDataModel`, `checkStringPosition` and `checkRegexData` as
  methods with loops over the lines and over the parsed records. Each method is
  proved against the specification functions `Parsed` and `Select`.

Notes on what the code does, which the model reproduces:

- **Malformed lines.** The code raises no exception for a malformed line.
  PHP carries on with warnings and coerced values: missing `explode` pieces
  become null, a non-numeric bound casts to 0, and a letter field without a
  colon gives an empty letter. The model requires every line to be
  well-formed (`Records.WellFormed`).
- **Duplicate passwords.** Records are keyed by their password. A later line
  with the same password replaces the earlier record, and that record keeps
  the earlier one's position. So each evaluator's two counts add up to the
  number of distinct passwords, not to the number of lines. They equal the
  number of lines exactly when no two lines share a password
  (`Parser.TallyTotal`, `Store.SameDataKeepsSecond`).
- **Positions past the end of the data.** `substr` gives the empty string, so
  such a position never matches.
- **Lower bound 0.** `substr` reads offset -1 as the last character
  (`Rules.PositionZeroMinimum`).
- **Occurrence counting.** The occurrence rule counts the letter literally.
- **Bytes.** PHP strings are byte strings, and `explode`, `strchr`, `trim`
  and `substr` work byte by byte. In this model a Dafny `char` stands for one
  byte of the PHP string, and a `string` for the sequence of its bytes. A
  character that takes several bytes in the input file is therefore several
  `char`s of the model's line, as it is several bytes for PHP.

## Model

| member | source | states |
|---|---|---|
| Strings.Find | day2/day2.php:167-169 | the index of the first separator (or the length when there is none); no separator occurs before it |
| Strings.Before | day2/day2.php:169 | `strchr(s, c, true)` / first piece of `explode`: a prefix free of `c`, followed in `s` by `c` when `c` occurs, all of `s` otherwise |
| Strings.After | day2/day2.php:167-168 | the rest after the first separator: the string is the first piece, the separator and this rest |
| Strings.SplitAt | day2/day2.php:167-169 | splitting `a + [c] + b` on its first `c` gives back `a` and `b` when `a` holds no `c` |
| Strings.Trim | day2/day2.php:171 | `trim` returns the slice of the text left after removing a run of blanks (space, tab, line feed, carriage return, NUL, vertical tab) from the start and a run from the end, and that slice has no blank at either end |
| Strings.TrimRightDropsBlanks | day2/day2.php:171 | right-trimming removes exactly an appended run of blanks from a text that does not end in one |
| Strings.TrimDropsTrailingBlanks | day2/day2.php:171 | trimming a trimmed text followed by blanks (the line terminator) gives the text back |
| Strings.IntCast | day2/day2.php:171 | `(integer)` of a numeral is its decimal value; of the empty string, 0 |
| Strings.NatToString | day2/day2.php:171 | the decimal text of a number is a numeral |
| Strings.IntCastNatToString | day2/day2.php:171 | casting the decimal text of `n` back to an integer gives `n` |
| Strings.Substr1 | day2/day2.php:189-190 | `substr(s, offset, 1)`: the character at a non-negative offset inside `s`; counted from the end for a negative offset, clamped to the first character; empty at or past the end |
| Strings.Occurrences | day2/day2.php:218 | the count of a one-character pattern: at most the length, zero exactly when the letter is absent, the length exactly when every character is the letter |
| Strings.OccurrencesIsMultiplicity | day2/day2.php:218-220 | the count equals the letter's multiplicity in the multiset of the characters |
| Records.Record | day2/day2.php:3-47 | the record's four fields: the two bounds, the letter and the password |
| Records.BoundaryField | day2/day2.php:167 | the first piece of `explode(" ", row, 3)`: the text before the first space (all of the line when there is none), holding no space |
| Records.LetterField | day2/day2.php:167 | the second piece: the text after the first space up to the next space, or to the end of the line when there is no second space, holding no space |
| Records.DataField | day2/day2.php:167 | the third piece: the line is the first piece, a space, the second piece, a space and this rest, inner spaces kept |
| Records.MinimumField | day2/day2.php:168 | the first piece of `explode("-", $boundary)`: the dash-free prefix of the boundary field that ends at its first dash, or all of the field when it has none |
| Records.MaximumField | day2/day2.php:168 | the second piece: dash-free, following the first piece and a dash, and ending at the end of the boundary field or at its next dash |
| Records.WellFormed | day2/day2.php:166-171 | the shape of line the parser's splits are written for: two spaces, a dash between two numerals, one character before a colon |
| Records.ParseLine | day2/day2.php:166-171 | a well-formed line gives non-negative bounds and trimmed data |
| Records.ParseLineShape | day2/day2.php:167-171 | every line `"<min>-<max> <letter>: <data>"` is well-formed and parses to the numerals' values, the letter and the trimmed data, with inner spaces kept |
| Records.ParseTrimmedLine | day2/day2.php:167-171 | a line of the expected shape whose data has no blank at either end parses to exactly the numerals' values, the letter and the data |
| Records.RoundTrip | day2/day2.php:167-171 | formatting a record as a line, with any blank terminator, and parsing the line gives the record back |
| Store.Table.Add | day2/day2.php:96 | stores the record under its data string, keeps every other entry, overwrites an existing key in place, and otherwise appends the key and grows the array by one; the array invariant is kept |
| Store.Table.Values | day2/day2.php:103-106 | the stored records in key order, one per entry, with distinct data strings; a record is listed exactly when it is the one stored under its data string |
| Store.Build | day2/day2.php:172 | adding records one by one keeps the array invariant and never yields more keys than records |
| Store.BuildKeepsLast | day2/day2.php:96 | after adding a sequence, a data string is a key exactly when some record carries it, and it maps to the last such record |
| Store.KeptIsLast | day2/day2.php:96 | every added record's data string survives, holding the record of its last occurrence |
| Store.BuildKeys | day2/day2.php:96 | the keys are exactly the data strings of the added records |
| Store.BuildDistinct | day2/day2.php:96 | records with distinct data strings all survive, in their order |
| Store.BuildSizeDistinct | day2/day2.php:96 | the array has one entry per added record exactly when no two records share a data string |
| Store.SameDataKeepsSecond | day2/day2.php:96 | of two records with the same data string only the second is kept |
| Store.Model.constructor | day2/day2.php:87 | a new model holds the empty array |
| Store.Model.AddField | day2/day2.php:94-98 | the model's array becomes the old array with the record added, and the invariant is kept |
| Store.Model.GetFields | day2/day2.php:103-106 | returns one record per entry, with distinct data strings, exactly the stored ones |
| Rules.PositionValid | day2/day2.php:189-193 | the positional test as written: the `substr` characters at offsets `min - 1` and `max - 1`, exactly one of them equal to the letter |
| Rules.PositionRule | day2/day2.php:189-193 | with positive bounds a record is valid exactly when one, and only one, of its two 1-based positions holds the letter |
| Rules.PositionBothOrNeither | day2/day2.php:193-197 | when both positions or neither hold the letter, the record is invalid |
| Rules.PositionEqualBounds | day2/day2.php:189-193 | equal bounds always make the record invalid under the positional rule |
| Rules.PositionZeroMinimum | day2/day2.php:189 | a lower bound of 0 reads the last character of the data |
| Rules.OccurrenceValid | day2/day2.php:217-220 | the occurrence test as written: invalid when the count exceeds the upper bound or falls below the lower one |
| Rules.OccurrenceRule | day2/day2.php:217-220 | a record is valid exactly when the letter's multiplicity in the data lies within the inclusive range of its bounds |
| Rules.OccurrenceAbsentLetter | day2/day2.php:218-220 | a record whose data lacks the letter is valid only when 0 lies within its bounds |
| Parser.ParseAll | day2/day2.php:166-171 | the record of every line, one per line |
| Parser.Parsed | day2/day2.php:175 | the array `createDataModel` returns: no more records than lines, with distinct passwords |
| Parser.CreateDataModel | day2/day2.php:162-176 | returns the array built by adding the record of every line in turn |
| Parser.ParsedFromLines | day2/day2.php:166-175 | the returned records have distinct data strings and each comes from some line |
| Parser.ParsedKeepsLastLine | day2/day2.php:166-175 | every line's password survives, holding the record of the last line with that password |
| Parser.ParsedSize | day2/day2.php:166-175 | there is one returned record per distinct password, and one per line exactly when no two lines share a password |
| Parser.Select | day2/day2.php:188-198 | the records a rule sends to one side: exactly those of the input with that verdict, no more of them than in the input, keeping distinct data strings distinct |
| Parser.SelectSplits | day2/day2.php:188-198 | every record goes to exactly one of the valid and invalid sides |
| Parser.Tally | day2/day2.php:185-203 | after the loop the invalid and valid arrays hold the selections of each verdict, and the counts are their sizes, invalid first |
| Parser.CheckStringPosition | day2/day2.php:181-204 | `[invalidCount, validCount]` are the sizes of the positional rule's rejections and acceptances among the parsed records |
| Parser.CheckRegexData | day2/day2.php:209-232 | `[invalidCount, validCount]` are the sizes of the occurrence rule's rejections and acceptances among the parsed records |
| Parser.TallyTotal | day2/day2.php:200-203 | an evaluator's two counts add up to the number of distinct passwords, which is the number of lines exactly when no two lines share a password |
| Parser.ParseExample | day2/day2.php:166-171 | `1-3 a: abcde` parses to bounds 1 and 3, letter `a`, data `abcde` |
| Parser.ParseRepeatExample | day2/day2.php:166-171 | `2-4 e: abcde` parses to bounds 2 and 4, letter `e`, data `abcde` |
| Parser.PositionExamples | day2/day2.php:189-193 | the positional rule accepts `1-3 a: abcde` and rejects `2-9 c: ccccccccc` |
| Parser.OccurrenceExamples | day2/day2.php:217-220 | the occurrence rule accepts `1-3 a: abcde` and rejects `1-3 b: cdefg` |
| Parser.DuplicateExample | day2/day2.php:172 | the lines `1-3 a: abcde` and `2-4 e: abcde` leave the single record (2, 4, `e`, `abcde`) |

## Left out

- `Reader` and its call to `file()` (day2/day2.php:109-138) are reading from disk, which is I/O. Its failure error is left out with it. The lines it would return are a parameter of the parser's methods, so `Parser`'s reference to a `Reader` is not modelled either.
- The top-level script (day2/day2.php:236-242) is left out. It creates the reader and parser and prints the two result lines with `echo`, which is output only.
- Malformed lines are left out. PHP's coercions for them are not modelled: a missing piece of `explode`, or `(integer)` applied to a sign, to leading spaces or to a non-numeric text. The parser requires `Records.WellFormed` of every line. Under that requirement the letter is exactly one character, so it is modelled as a `char`.
- Multi-byte text is modelled only byte by byte: a `char` of the model is one byte of the PHP string, so the model does not capture characters as UTF-8 decodes them, just as PHP does not.
- `(integer)`: the model casts only unsigned decimal numerals. It does not model PHP's saturation of integers above the 64-bit maximum.
- Regular-expression semantics are left out. The pattern built at day2/day2.php:217 is counted as one literal character, so a letter that is a regular-expression metacharacter is not modelled. The extra arguments passed to `sprintf` there are left out; they have no effect.
- The `!$matches || !isset($matches[0])` test at day2/day2.php:220 is left out. It is false for any pattern that compiles.
- `addField` also returns `$this`, for chaining; `Store.Model.AddField` returns nothing, because no caller uses that return value.
- Object identity of the records is not modelled. The PHP arrays hold references to shared `DataModelFields` objects, whereas the model copies `Record` values. No record is changed after it is built, so this makes no difference to the counts.
