/** A password record (`DataModelFields`) and the way `Parser::createDataModel`
    turns one line of the input, `"<min>-<max> <letter>: <data>"`, into one. */
module Records {
  import opened Strings

  /** `DataModelFields`: the two bounds of the rule, the letter it examines and
      the password text. The fields are never changed once built. */
  datatype Record = Record(minimumBoundary: int, maximumBoundary: int, letter: char, data: string)

  /** First piece of `explode(" ", line, 3)`: the `<min>-<max>` field. */
  function BoundaryField(line: string): (r: string)
    ensures ' ' !in r && r <= line
    ensures ' ' in line ==> line[|r|] == ' '
    ensures ' ' !in line ==> r == line
  {
    Before(line, ' ')
  }

  /** Second piece of `explode(" ", line, 3)`: the `<letter>:` field. */
  function LetterField(line: string): (r: string)
    requires ' ' in line
    ensures ' ' !in r && BoundaryField(line) + " " + r <= line
    ensures ' ' in After(line, ' ') ==> BoundaryField(line) + " " + r + " " <= line
    ensures ' ' !in After(line, ' ') ==> line == BoundaryField(line) + " " + r
  {
    var head, rest := BoundaryField(line), After(line, ' ');
    var r := Before(rest, ' ');
    assert line == head + " " + rest;
    if ' ' in rest then
      assert line == (head + " " + r + " ") + After(rest, ' ');
      r
    else
      r
  }

  /** Third piece of `explode(" ", line, 3)`: everything after the second
      space, spaces included. */
  function DataField(line: string): (r: string)
    requires ' ' in line && ' ' in After(line, ' ')
    ensures line == BoundaryField(line) + " " + LetterField(line) + " " + r
  {
    After(After(line, ' '), ' ')
  }

  /** First piece of `explode("-", boundary)`. */
  function MinimumField(line: string): (r: string)
    ensures '-' !in r && r <= BoundaryField(line)
    ensures '-' in BoundaryField(line) ==> |r| < |BoundaryField(line)| && BoundaryField(line)[|r|] == '-'
    ensures '-' !in BoundaryField(line) ==> r == BoundaryField(line)
  {
    Before(BoundaryField(line), '-')
  }

  /** Second piece of `explode("-", boundary)`. */
  function MaximumField(line: string): (r: string)
    requires '-' in BoundaryField(line)
    ensures '-' !in r && MinimumField(line) + "-" + r <= BoundaryField(line)
    ensures MinimumField(line) + "-" + r == BoundaryField(line) || MinimumField(line) + "-" + r + "-" <= BoundaryField(line)
  {
    var rest := After(BoundaryField(line), '-');
    var r := Before(rest, '-');
    assert BoundaryField(line) == MinimumField(line) + "-" + rest;
    assert '-' in rest ==> rest == r + "-" + After(rest, '-');
    r
  }

  /** The shape of line the parser is written for: two spaces, a dash between
      two numerals in the first field, and one character before a colon in the
      second. */
  predicate WellFormed(line: string)
  {
    && ' ' in line && ' ' in After(line, ' ')
    && '-' in BoundaryField(line)
    && IsNumeral(MinimumField(line)) && IsNumeral(MaximumField(line))
    && ':' in LetterField(line) && |Before(LetterField(line), ':')| == 1
  }

  /** The record built from one line: both bounds cast to integers, the letter
      taken before the colon, the data trimmed. */
  function ParseLine(line: string): (r: Record)
    requires WellFormed(line)
    ensures r.minimumBoundary >= 0 && r.maximumBoundary >= 0
    ensures IsTrimmed(r.data)
  {
    var letter := Before(LetterField(line), ':');
    Record(IntCast(MinimumField(line)), IntCast(MaximumField(line)), letter[0], Trim(DataField(line)))
  }

  /** The line `"<minimum>-<maximum> <letter>: <data>"`. */
  function Line(minimum: string, maximum: string, letter: char, data: string): string
  {
    minimum + "-" + maximum + " " + [letter] + ": " + data
  }

  lemma NumeralHasNo(s: string, c: char)
    requires IsNumeral(s) && !IsDigit(c)
    ensures c !in s
  {
  }

  /** Any line of the expected shape parses field by field: the numerals give
      the bounds, the character before the colon the letter, and everything
      after the second space, trimmed and with its inner spaces kept, the data. */
  lemma ParseLineShape(minimum: string, maximum: string, letter: char, data: string)
    requires IsNumeral(minimum) && IsNumeral(maximum)
    requires letter != ' ' && letter != ':'
    ensures WellFormed(Line(minimum, maximum, letter, data))
    ensures ParseLine(Line(minimum, maximum, letter, data))
         == Record(DigitsValue(minimum), DigitsValue(maximum), letter, Trim(data))
  {
    var line := Line(minimum, maximum, letter, data);
    var boundary := minimum + "-" + maximum;
    var rest := [letter, ':'] + " " + data;
    NumeralHasNo(minimum, ' ');
    NumeralHasNo(maximum, ' ');
    NumeralHasNo(minimum, '-');
    NumeralHasNo(maximum, '-');
    assert ' ' !in boundary;
    assert line == boundary + [' '] + rest;
    SplitAt(boundary, ' ', rest);
    assert BoundaryField(line) == boundary;
    assert ' ' !in [letter, ':'];
    SplitAt([letter, ':'], ' ', data);
    assert LetterField(line) == [letter, ':'];
    assert DataField(line) == data;
    assert boundary == minimum + ['-'] + maximum;
    SplitAt(minimum, '-', maximum);
    assert MinimumField(line) == minimum;
    assert MaximumField(line) == maximum;
    assert [letter, ':'] == [letter] + [':'] + [];
    SplitAt([letter], ':', []);
  }

  /** A line of the expected shape whose data has no blank at either end
      parses to exactly the values of its numerals, its letter and its data. */
  lemma ParseTrimmedLine(line: string, minimum: string, maximum: string, letter: char, data: string)
    requires IsNumeral(minimum) && IsNumeral(maximum)
    requires letter != ' ' && letter != ':' && IsTrimmed(data)
    requires line == Line(minimum, maximum, letter, data)
    ensures WellFormed(line)
    ensures ParseLine(line) == Record(DigitsValue(minimum), DigitsValue(maximum), letter, data)
  {
    ParseLineShape(minimum, maximum, letter, data);
    assert Trim(data) == data by {
      TrimDropsTrailingBlanks(data, []);
      assert data + [] == data;
    }
  }

  /** The line the record was read from, up to the line terminator. */
  function Format(r: Record): string
    requires r.minimumBoundary >= 0 && r.maximumBoundary >= 0
  {
    Line(NatToString(r.minimumBoundary), NatToString(r.maximumBoundary), r.letter, r.data)
  }

  /** Writing a record out as a line, with any blank line terminator, and
      parsing that line gives the record back. */
  lemma RoundTrip(r: Record, eol: string)
    requires r.minimumBoundary >= 0 && r.maximumBoundary >= 0
    requires r.letter != ' ' && r.letter != ':'
    requires IsTrimmed(r.data)
    requires forall k :: 0 <= k < |eol| ==> IsBlank(eol[k])
    ensures WellFormed(Format(r) + eol)
    ensures ParseLine(Format(r) + eol) == r
  {
    var minimum, maximum := NatToString(r.minimumBoundary), NatToString(r.maximumBoundary);
    assert Format(r) + eol == Line(minimum, maximum, r.letter, r.data + eol);
    ParseLineShape(minimum, maximum, r.letter, r.data + eol);
    IntCastNatToString(r.minimumBoundary);
    IntCastNatToString(r.maximumBoundary);
    TrimDropsTrailingBlanks(r.data, eol);
  }
}
