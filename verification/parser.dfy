/** `Parser`: reads the lines, builds the keyed array of records
    (`createDataModel`) and lets each evaluator (`checkStringPosition`,
    `checkRegexData`) sort every record into a fresh array of valid and one of
    invalid records, returning the pair `[invalidCount, validCount]`.
    The lines the reader would return from the input file are a parameter. */
module Parser {
  import opened Strings
  import opened Records
  import opened Store
  import opened Rules

  predicate AllWellFormed(lines: seq<string>)
  {
    forall i :: 0 <= i < |lines| ==> WellFormed(lines[i])
  }

  /** The record of every line, in input order. */
  function ParseAll(lines: seq<string>): (rs: seq<Record>)
    requires AllWellFormed(lines)
    ensures |rs| == |lines|
  {
    seq(|lines|, i requires 0 <= i < |lines| => ParseLine(lines[i]))
  }

  /** What `createDataModel` returns: the array built by adding the record of
      every line in turn, in its iteration order. */
  function Parsed(lines: seq<string>): (rs: seq<Record>)
    requires AllWellFormed(lines)
    ensures |rs| <= |lines| && DistinctData(rs)
  {
    Build(ParseAll(lines)).Values()
  }

  /** `createDataModel`: one `addField` per line into a new `Model`. */
  method CreateDataModel(lines: seq<string>) returns (records: seq<Record>)
    requires AllWellFormed(lines)
    ensures records == Parsed(lines)
  {
    var model := new Model();
    ghost var rs := ParseAll(lines);
    for i := 0 to |lines|
      invariant model.Valid()
      invariant model.Value() == Build(rs[..i])
    {
      var dataModel := ParseLine(lines[i]);
      assert dataModel == rs[i];
      BuildStep(rs, i);
      model.AddField(dataModel);
    }
    assert rs[..|lines|] == rs;
    records := model.GetFields();
  }

  /** Every parsed record comes from some line, and no two share a data
      string. */
  lemma ParsedFromLines(lines: seq<string>)
    requires AllWellFormed(lines)
    ensures DistinctData(Parsed(lines))
    ensures forall r :: r in Parsed(lines) ==> r in ParseAll(lines)
  {
    var rs := ParseAll(lines);
    forall r | r in Parsed(lines)
      ensures r in rs
    {
      BuildKeepsLast(rs, r.data);
      assert rs[LastIndexOf(rs, r.data)] in rs;
    }
  }

  /** The data string of every line is kept, and the record kept for it is
      the one of the last line carrying that string. */
  lemma ParsedKeepsLastLine(lines: seq<string>, i: nat)
    requires AllWellFormed(lines) && i < |lines|
    ensures var rs := ParseAll(lines);
            exists j :: i <= j < |rs| && rs[j].data == rs[i].data && rs[j] in Parsed(lines) &&
                        forall k :: j < k < |rs| ==> rs[k].data != rs[i].data
  {
    KeptIsLast(ParseAll(lines), i);
  }

  /** The parsed array has one record per distinct data string; it has one per
      line exactly when no two lines share a data string. */
  lemma ParsedSize(lines: seq<string>)
    requires AllWellFormed(lines)
    ensures |Parsed(lines)| == |set r | r in ParseAll(lines) :: r.data|
    ensures |Parsed(lines)| == |lines| <==> DistinctData(ParseAll(lines))
  {
    BuildKeys(ParseAll(lines));
    BuildSizeDistinct(ParseAll(lines));
  }

  /** The records of `rs` on which `policy` gives `verdict`, in order. */
  function Select(policy: Policy, rs: seq<Record>, verdict: bool): (s: seq<Record>)
    ensures |s| <= |rs|
    ensures forall r :: r in s <==> r in rs && Accepts(policy, r) == verdict
    ensures DistinctData(rs) ==> DistinctData(s)
  {
    if rs == [] then []
    else
      var init, last := rs[..|rs| - 1], rs[|rs| - 1];
      var s := Select(policy, init, verdict);
      assert forall r :: r in rs <==> r in init || r == last;
      assert DistinctData(rs) ==> forall r :: r in s ==> r.data != last.data;
      s + if Accepts(policy, last) == verdict then [last] else []
  }

  /** The array of the records selected from a prefix of `rs`, one record
      further: it grows by that record exactly when the record is selected. */
  lemma SelectStep(policy: Policy, rs: seq<Record>, i: nat, verdict: bool)
    requires i < |rs|
    ensures Build(Select(policy, rs[..i + 1], verdict))
         == if Accepts(policy, rs[i]) == verdict
            then Build(Select(policy, rs[..i], verdict)).Add(rs[i])
            else Build(Select(policy, rs[..i], verdict))
  {
    assert rs[..i + 1][..i] == rs[..i];
    var s := Select(policy, rs[..i], verdict);
    if Accepts(policy, rs[i]) == verdict {
      BuildAppend(s, rs[i]);
    } else {
      assert s + [] == s;
    }
  }

  /** A selection from records with distinct data strings keeps all of them
      in its array. */
  lemma SelectSize(policy: Policy, rs: seq<Record>, verdict: bool)
    requires DistinctData(rs)
    ensures |Build(Select(policy, rs, verdict)).Values()| == |Select(policy, rs, verdict)|
  {
    BuildSizeDistinct(Select(policy, rs, verdict));
  }

  /** Every record goes to exactly one of the two selections. */
  lemma {:induction false} SelectSplits(policy: Policy, rs: seq<Record>)
    ensures |Select(policy, rs, false)| + |Select(policy, rs, true)| == |rs|
  {
    if rs != [] {
      SelectSplits(policy, rs[..|rs| - 1]);
    }
  }

  /** The loop of both evaluators: each record is added to the valid array or
      to the invalid one, and the pair of their sizes is returned, invalid
      first. */
  method Tally(records: seq<Record>, policy: Policy) returns (counts: seq<int>)
    requires DistinctData(records)
    ensures counts == [|Select(policy, records, false)|, |Select(policy, records, true)|]
  {
    var validModel := new Model();
    var invalidModel := new Model();
    for i := 0 to |records|
      invariant validModel.Value() == Build(Select(policy, records[..i], true))
      invariant invalidModel.Value() == Build(Select(policy, records[..i], false))
      invariant validModel != invalidModel
    {
      SelectStep(policy, records, i, true);
      SelectStep(policy, records, i, false);
      var accepted := Accepts(policy, records[i]);
      if accepted {
        validModel.AddField(records[i]);
      } else {
        invalidModel.AddField(records[i]);
      }
    }
    assert records[..|records|] == records;
    SelectSize(policy, records, false);
    SelectSize(policy, records, true);
    counts := [|invalidModel.GetFields()|, |validModel.GetFields()|];
  }

  /** `checkStringPosition`: `[invalidCount, validCount]` under the
      positional rule. */
  method CheckStringPosition(lines: seq<string>) returns (counts: seq<int>)
    requires AllWellFormed(lines)
    ensures counts == [|Select(Position, Parsed(lines), false)|, |Select(Position, Parsed(lines), true)|]
  {
    var model := CreateDataModel(lines);
    ParsedFromLines(lines);
    counts := Tally(model, Position);
  }

  /** `checkRegexData`: `[invalidCount, validCount]` under the
      occurrence-count rule. */
  method CheckRegexData(lines: seq<string>) returns (counts: seq<int>)
    requires AllWellFormed(lines)
    ensures counts == [|Select(Occurrence, Parsed(lines), false)|, |Select(Occurrence, Parsed(lines), true)|]
  {
    var model := CreateDataModel(lines);
    ParsedFromLines(lines);
    counts := Tally(model, Occurrence);
  }

  /** The two counts of an evaluator add up to the number of distinct data
      strings in the input, which is the number of lines only when no two
      lines share a data string. */
  lemma TallyTotal(lines: seq<string>, policy: Policy)
    requires AllWellFormed(lines)
    ensures |Select(policy, Parsed(lines), false)| + |Select(policy, Parsed(lines), true)|
         == |set r | r in ParseAll(lines) :: r.data|
    ensures |Select(policy, Parsed(lines), false)| + |Select(policy, Parsed(lines), true)| == |lines|
        <==> DistinctData(ParseAll(lines))
  {
    SelectSplits(policy, Parsed(lines));
    ParsedSize(lines);
  }

  /** The line `1-3 a: abcde` parses to bounds 1 and 3, letter `a` and data
      `abcde`. */
  lemma ParseExample(line: string)
    requires line == "1-3 a: abcde"
    ensures WellFormed(line)
    ensures ParseLine(line) == Record(1, 3, 'a', "abcde")
  {
    var minimum, maximum, data := "1", "3", "abcde";
    assert DigitsValue(minimum) == 1 by {
      assert minimum[..0] == [];
    }
    assert DigitsValue(maximum) == 3 by {
      assert maximum[..0] == [];
    }
    assert IsTrimmed(data);
    assert Line(minimum, maximum, 'a', data) == line;
    ParseTrimmedLine(line, minimum, maximum, 'a', data);
  }

  /** The positional rule accepts `1-3 a: abcde` (only position 1 holds `a`)
      and rejects `2-9 c: ccccccccc` (both positions hold `c`). */
  lemma PositionExamples()
    ensures PositionValid(Record(1, 3, 'a', "abcde"))
    ensures !PositionValid(Record(2, 9, 'c', "ccccccccc"))
  {
    PositionRule(Record(1, 3, 'a', "abcde"));
    PositionRule(Record(2, 9, 'c', "ccccccccc"));
  }

  /** The occurrence rule accepts one `a` in `abcde` for the range 1 to 3 and
      rejects `cdefg`, which holds no `b`. */
  lemma OccurrenceExamples()
    ensures OccurrenceValid(Record(1, 3, 'a', "abcde"))
    ensures !OccurrenceValid(Record(1, 3, 'b', "cdefg"))
  {
    var abcde, cdefg := "abcde", "cdefg";
    assert Occurrences(abcde, 'a') == 1 by {
      assert abcde[1..] == "bcde";
      assert 'a' !in abcde[1..];
    }
    assert 'b' !in cdefg;
  }

  /** The line `2-4 e: abcde` parses to bounds 2 and 4, letter `e` and data
      `abcde`. */
  lemma ParseRepeatExample(line: string)
    requires line == "2-4 e: abcde"
    ensures WellFormed(line)
    ensures ParseLine(line) == Record(2, 4, 'e', "abcde")
  {
    var minimum, maximum, data := "2", "4", "abcde";
    assert DigitsValue(minimum) == 2 by {
      assert minimum[..0] == [];
    }
    assert DigitsValue(maximum) == 4 by {
      assert maximum[..0] == [];
    }
    assert IsTrimmed(data);
    assert Line(minimum, maximum, 'e', data) == line;
    ParseTrimmedLine(line, minimum, maximum, 'e', data);
  }

  /** `1-3 a: abcde` followed by `2-4 e: abcde`: both lines carry the
      password `abcde`, so adding their records leaves the one record
      (2, 4, `e`, `abcde`). */
  lemma DuplicateExample(first: string, second: string)
    requires first == "1-3 a: abcde" && second == "2-4 e: abcde"
    ensures WellFormed(first) && WellFormed(second)
    ensures Build([ParseLine(first), ParseLine(second)]).Values() == [Record(2, 4, 'e', "abcde")]
  {
    ParseExample(first);
    ParseRepeatExample(second);
    var a, b := Record(1, 3, 'a', "abcde"), Record(2, 4, 'e', "abcde");
    SameDataKeepsSecond(a, b);
  }
}
