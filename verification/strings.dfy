/** The few PHP string built-ins the validator relies on, as functions over
    `string` (a sequence of characters): the searches behind `explode` and
    `strchr`, `trim`, the `(integer)` cast of a decimal numeral, `substr` for a
    single character, and the count that `preg_match_all` returns for a
    one-character pattern. */
module Strings {

  /** Index of the first `c` in `s`, or `|s|` when `s` has none. */
  function Find(s: string, c: char): (i: nat)
    ensures i <= |s|
    ensures c !in s[..i]
    ensures i < |s| ==> s[i] == c
  {
    if s == [] then 0
    else if s[0] == c then 0
    else
      var j := Find(s[1..], c);
      assert s[..j + 1] == [s[0]] + s[1..][..j];
      j + 1
  }

  /** The text before the first `c` (all of `s` when there is none): the first
      piece of `explode(c, s)`, and `strchr(s, c, true)` when `c` occurs. */
  function Before(s: string, c: char): (r: string)
    ensures c !in r
    ensures r <= s
    ensures c in s ==> |r| < |s| && s[|r|] == c
    ensures c !in s ==> r == s
  {
    s[..Find(s, c)]
  }

  /** The text after the first `c`: what `explode(c, s, 2)` puts in its second
      piece. */
  function After(s: string, c: char): (r: string)
    requires c in s
    ensures s == Before(s, c) + [c] + r
  {
    s[Find(s, c) + 1..]
  }

  /** Splitting `a + [c] + b` on its first `c` gives back `a` and `b` when `a`
      holds no `c`. */
  lemma SplitAt(a: string, c: char, b: string)
    requires c !in a
    ensures c in a + [c] + b
    ensures Before(a + [c] + b, c) == a
    ensures After(a + [c] + b, c) == b
  {
    var s := a + [c] + b;
    assert s[|a|] == c;
    assert s[..|a|] == a;
    assert Find(s, c) <= |a|;
  }

  /** The characters PHP's `trim` strips by default: space, tab, line feed,
      carriage return, NUL and vertical tab. */
  predicate IsBlank(c: char)
  {
    c == ' ' || c == '\t' || c == '\n' || c == '\r' || c == '\0' || c == '\U{B}'
  }

  /** Number of blanks at the start of `s`. */
  function LeadingBlanks(s: string): (n: nat)
    ensures n <= |s|
    ensures forall k :: 0 <= k < n ==> IsBlank(s[k])
    ensures n < |s| ==> !IsBlank(s[n])
  {
    if s != [] && IsBlank(s[0]) then 1 + LeadingBlanks(s[1..]) else 0
  }

  /** Number of blanks at the end of `s`. */
  function TrailingBlanks(s: string): (n: nat)
    ensures n <= |s|
    ensures forall k :: |s| - n <= k < |s| ==> IsBlank(s[k])
    ensures n < |s| ==> !IsBlank(s[|s| - n - 1])
  {
    if s != [] && IsBlank(s[|s| - 1]) then 1 + TrailingBlanks(s[..|s| - 1]) else 0
  }

  /** `ltrim`: `s` without its leading blanks. */
  function TrimLeft(s: string): string
  {
    s[LeadingBlanks(s)..]
  }

  /** `rtrim`: `s` without its trailing blanks. */
  function TrimRight(s: string): string
  {
    s[..|s| - TrailingBlanks(s)]
  }

  /** A string with no blank at either end. */
  predicate IsTrimmed(s: string)
  {
    s == [] || (!IsBlank(s[0]) && !IsBlank(s[|s| - 1]))
  }

  /** `trim`: `s` without its leading and trailing blanks. */
  function Trim(s: string): (r: string)
    ensures IsTrimmed(r)
    ensures exists i, j :: 0 <= i <= j <= |s| && r == s[i..j] &&
                           (forall k :: 0 <= k < i ==> IsBlank(s[k])) &&
                           (forall k :: j <= k < |s| ==> IsBlank(s[k]))
  {
    var i := LeadingBlanks(s);
    var left := s[i..];
    var j := i + |left| - TrailingBlanks(left);
    var r := TrimRight(left);
    assert r != [] ==> r[0] == left[0];
    assert r == s[i..j];
    assert forall k :: j <= k < |s| ==> s[k] == left[k - i];
    r
  }

  /** `rtrim` removes a tail of blanks from a text that does not end in one. */
  lemma {:induction false} TrimRightDropsBlanks(s: string, tail: string)
    requires s == [] || !IsBlank(s[|s| - 1])
    requires forall k :: 0 <= k < |tail| ==> IsBlank(tail[k])
    ensures TrimRight(s + tail) == s
  {
    if tail == [] {
      assert s + tail == s;
    } else {
      var u := s + tail;
      assert IsBlank(u[|u| - 1]);
      assert u[..|u| - 1] == s + tail[..|tail| - 1];
      TrimRightDropsBlanks(s, tail[..|tail| - 1]);
    }
  }

  /** Trimming an already trimmed text followed only by blanks (a line's end,
      say) gives the text back. */
  lemma TrimDropsTrailingBlanks(s: string, tail: string)
    requires IsTrimmed(s)
    requires forall k :: 0 <= k < |tail| ==> IsBlank(tail[k])
    ensures Trim(s + tail) == s
  {
    var l := TrimLeft(s + tail);
    if s == [] {
      assert s + tail == tail;
      assert l == [];
    } else {
      assert (s + tail)[0] == s[0];
      assert l == s + tail;
    }
    TrimRightDropsBlanks(s, tail);
  }

  predicate IsDigit(c: char)
  {
    '0' <= c <= '9'
  }

  /** A non-empty run of decimal digits. */
  predicate IsNumeral(s: string)
  {
    s != [] && forall k :: 0 <= k < |s| ==> IsDigit(s[k])
  }

  /** The value of a run of decimal digits, most significant first. */
  function DigitsValue(s: string): nat
    requires forall k :: 0 <= k < |s| ==> IsDigit(s[k])
  {
    if s == [] then 0
    else
      assert IsDigit(s[|s| - 1]);
      DigitsValue(s[..|s| - 1]) * 10 + (s[|s| - 1] as int - '0' as int)
  }

  /** Length of the longest prefix of `s` made of digits. */
  function LeadingDigits(s: string): (n: nat)
    ensures n <= |s|
    ensures forall k :: 0 <= k < n ==> IsDigit(s[k])
    ensures n < |s| ==> !IsDigit(s[n])
  {
    if s != [] && IsDigit(s[0]) then 1 + LeadingDigits(s[1..]) else 0
  }

  /** PHP's `(integer)` cast, for the texts the parser meets: the value of a
      numeral, and 0 for the empty text. Other texts (a sign, leading blanks,
      an exponent) are outside what this function models. */
  function IntCast(s: string): (n: nat)
    ensures IsNumeral(s) ==> n == DigitsValue(s)
    ensures s == [] ==> n == 0
  {
    var k := LeadingDigits(s);
    assert IsNumeral(s) ==> k == |s| && s[..k] == s;
    DigitsValue(s[..k])
  }

  function DigitChar(d: nat): (c: char)
    requires d < 10
    ensures IsDigit(c) && c as int - '0' as int == d
  {
    ('0' as int + d) as char
  }

  /** The decimal numeral of `n`, without leading zeros. */
  function NatToString(n: nat): (s: string)
    ensures IsNumeral(s)
  {
    if n < 10 then [DigitChar(n)] else NatToString(n / 10) + [DigitChar(n % 10)]
  }

  /** Casting the numeral of `n` back to an integer gives `n`. */
  lemma {:induction false} IntCastNatToString(n: nat)
    ensures IntCast(NatToString(n)) == n
  {
    var s := NatToString(n);
    assert IntCast(s) == DigitsValue(s) == DigitsValue(s[..|s| - 1]) * 10 + (s[|s| - 1] as int - '0' as int);
    if n < 10 {
      assert s[..|s| - 1] == [];
    } else {
      IntCastNatToString(n / 10);
      assert s[..|s| - 1] == NatToString(n / 10);
    }
  }

  /** `substr(s, offset, 1)` as PHP 8 defines it: a negative offset counts
      from the end (and is clamped to the start), an offset at or past the end
      gives the empty string. */
  function Substr1(s: string, offset: int): (r: string)
    ensures |r| <= 1
    ensures 0 <= offset < |s| ==> r == [s[offset]]
    ensures -|s| <= offset < 0 ==> r == [s[|s| + offset]]
    ensures offset < -|s| && s != [] ==> r == [s[0]]
    ensures offset >= |s| || s == [] ==> r == []
  {
    var start := if offset >= 0 then offset else if |s| + offset >= 0 then |s| + offset else 0;
    if start >= |s| then [] else s[start..start + 1]
  }

  /** Number of occurrences of `c` in `s`: what `preg_match_all` counts for a
      pattern that is one literal character. */
  function Occurrences(s: string, c: char): (n: nat)
    ensures n <= |s|
    ensures n == 0 <==> c !in s
    ensures n == |s| <==> forall k :: 0 <= k < |s| ==> s[k] == c
  {
    if s == [] then 0
    else
      var rest := Occurrences(s[1..], c);
      assert forall k :: 1 <= k < |s| ==> s[k] == s[1..][k - 1];
      (if s[0] == c then 1 else 0) + rest
  }

  /** The count agrees with the multiplicity of `c` in the multiset of the
      characters of `s`. */
  lemma {:induction false} OccurrencesIsMultiplicity(s: string, c: char)
    ensures Occurrences(s, c) == multiset(s)[c]
  {
    if s != [] {
      OccurrencesIsMultiplicity(s[1..], c);
      assert s == [s[0]] + s[1..];
      assert multiset(s) == multiset{s[0]} + multiset(s[1..]);
    }
  }
}
