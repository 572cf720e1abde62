/** The two password policies, each deciding one record: the positional rule
    of `Parser::checkStringPosition` and the occurrence-count rule of
    `Parser::checkRegexData`. */
module Rules {
  import opened Strings
  import opened Records

  /** Which evaluator classifies the records. */
  datatype Policy = Position | Occurrence

  /** The positional rule as the evaluator writes it: take one character of
      the data at offsets `minimumBoundary - 1` and `maximumBoundary - 1` with
      `substr`, and accept when exactly one of the two equals the letter. */
  predicate PositionValid(r: Record)
  {
    var first := Substr1(r.data, r.minimumBoundary - 1);
    var second := Substr1(r.data, r.maximumBoundary - 1);
    var letter := [r.letter];
    (second == letter && first != letter) || (second != letter && first == letter)
  }

  /** 1-based position `p` exists in `data` and holds `c`. */
  predicate HasAt(data: string, p: int, c: char)
  {
    1 <= p <= |data| && data[p - 1] == c
  }

  /** With positive bounds the rule reads 1-based positions: a record is valid
      exactly when one, and only one, of its two positions holds the letter; a
      position past the end of the data holds nothing. */
  lemma PositionRule(r: Record)
    requires r.minimumBoundary >= 1 && r.maximumBoundary >= 1
    ensures PositionValid(r) <==> (HasAt(r.data, r.minimumBoundary, r.letter) != HasAt(r.data, r.maximumBoundary, r.letter))
  {
  }

  /** When both positions hold the letter, or neither does, the record is
      invalid. */
  lemma PositionBothOrNeither(r: Record)
    requires r.minimumBoundary >= 1 && r.maximumBoundary >= 1
    requires HasAt(r.data, r.minimumBoundary, r.letter) == HasAt(r.data, r.maximumBoundary, r.letter)
    ensures !PositionValid(r)
  {
    PositionRule(r);
  }

  /** Equal bounds name one position twice, so the positional rule rejects the
      record whatever its data. */
  lemma PositionEqualBounds(r: Record)
    requires r.minimumBoundary == r.maximumBoundary
    ensures !PositionValid(r)
  {
  }

  /** A zero lower bound makes `substr` read at offset -1, which is the last
      character of the data rather than no character. */
  lemma PositionZeroMinimum(r: Record)
    requires r.minimumBoundary == 0 && r.maximumBoundary >= 1 && r.data != []
    ensures PositionValid(r) <==> ((r.data[|r.data| - 1] == r.letter) != HasAt(r.data, r.maximumBoundary, r.letter))
  {
  }

  /** The occurrence-count rule as the evaluator writes it: the record is
      invalid when the count of the letter exceeds the upper bound or falls
      below the lower one. */
  predicate OccurrenceValid(r: Record)
  {
    var n := Occurrences(r.data, r.letter);
    !(n > r.maximumBoundary || n < r.minimumBoundary)
  }

  /** A record is valid under the occurrence rule exactly when the number of
      copies of its letter in its data, counted as a multiset multiplicity,
      lies within the inclusive range of its bounds. */
  lemma OccurrenceRule(r: Record)
    ensures OccurrenceValid(r) <==> r.minimumBoundary <= multiset(r.data)[r.letter] <= r.maximumBoundary
  {
    OccurrencesIsMultiplicity(r.data, r.letter);
  }

  /** A record whose data lacks the letter is valid under the occurrence rule
      only when its lower bound is at most 0. */
  lemma OccurrenceAbsentLetter(r: Record)
    requires r.letter !in r.data
    ensures OccurrenceValid(r) <==> r.minimumBoundary <= 0 <= r.maximumBoundary
  {
  }

  /** The verdict of the chosen policy on one record. */
  predicate Accepts(policy: Policy, r: Record)
  {
    match policy
    case Position => PositionValid(r)
    case Occurrence => OccurrenceValid(r)
  }
}
