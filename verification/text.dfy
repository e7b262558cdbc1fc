/** String helpers the catalogue relies on: Java's `String.trim()` (behind
    `@NotBlank`), ASCII case folding and substring containment (behind the
    `...ContainingIgnoreCase` and `LIKE '%q%'` queries), and `%d` formatting of
    a `long` (behind the not-found message). */
module Text {

  /** A character that Java's `String.trim()` strips: everything at or below U+0020. */
  predicate IsTrimmable(c: char) {
    c <= ' '
  }

  /** Reference meaning of "blank": the string holds nothing but trimmable characters. */
  predicate IsBlank(s: string) {
    forall i :: 0 <= i < |s| ==> IsTrimmable(s[i])
  }

  /** Drops the leading trimmable characters. */
  function TrimStart(s: string): (r: string)
    ensures |r| <= |s| && r == s[|s| - |r|..]
    ensures |r| == 0 || !IsTrimmable(r[0])
    ensures IsBlank(s[..|s| - |r|])
  {
    if |s| > 0 && IsTrimmable(s[0]) then
      var r := TrimStart(s[1..]);
      assert s[..|s| - |r|] == [s[0]] + s[1..][..|s| - 1 - |r|];
      r
    else
      s
  }

  /** Drops the trailing trimmable characters. */
  function TrimEnd(s: string): (r: string)
    ensures |r| <= |s| && r == s[..|r|]
    ensures |r| == 0 || !IsTrimmable(r[|r| - 1])
    ensures IsBlank(s[|r|..])
  {
    if |s| > 0 && IsTrimmable(s[|s| - 1]) then
      var r := TrimEnd(s[..|s| - 1]);
      assert s[|r|..] == s[..|s| - 1][|r|..] + [s[|s| - 1]];
      r
    else
      s
  }

  /** Java's `String.trim()`: a contiguous part of `s` that neither starts
      nor ends on a trimmable character; it is empty exactly when `s` is blank. */
  function Trim(s: string): (r: string)
    ensures |r| == 0 <==> IsBlank(s)
    ensures |r| > 0 ==> !IsTrimmable(r[0]) && !IsTrimmable(r[|r| - 1])
    ensures Occurs(s, r)
  {
    var t := TrimStart(s);
    var r := TrimEnd(t);
    TrimBlank(s, t, r);
    var a := |s| - |t|;
    assert r == s[a..a + |r|];
    assert OccursAt(s, r, a);
    r
  }

  /** The step of `Trim`'s contract: what the two halves leave behind. */
  lemma TrimBlank(s: string, t: string, r: string)
    requires t == TrimStart(s) && r == TrimEnd(t)
    ensures |r| == 0 <==> IsBlank(s)
  {
    var cut := |s| - |t|;
    if |r| == 0 {
      assert IsBlank(t) by {
        assert t[|r|..] == t;
      }
      assert |t| == 0;
      assert s[..cut] == s;
    } else {
      assert r[0] == t[0] == s[cut];
    }
  }

  /** ASCII lower-casing of one character; every other character is kept. */
  function LowerChar(c: char): char {
    if 'A' <= c <= 'Z' then (c as int + 32) as char else c
  }

  /** ASCII lower-casing of a string, character by character. */
  function Lower(s: string): (r: string)
    ensures |r| == |s|
    ensures forall i :: 0 <= i < |s| ==> r[i] == LowerChar(s[i])
  {
    seq(|s|, i requires 0 <= i < |s| => LowerChar(s[i]))
  }

  /** `q` occurs in `s` starting at position `i`. */
  ghost predicate OccursAt(s: string, q: string, i: int) {
    0 <= i && i + |q| <= |s| && s[i..i + |q|] == q
  }

  /** Reference meaning of substring containment. */
  ghost predicate Occurs(s: string, q: string) {
    exists i :: OccursAt(s, q, i)
  }

  predicate StartsWith(s: string, p: string) {
    |p| <= |s| && s[..|p|] == p
  }

  /** Substring test by scanning the start positions of `s` left to right;
      agrees with the reference meaning for every pair of strings. */
  function Contains(s: string, q: string): (r: bool)
    ensures r <==> Occurs(s, q)
    decreases |s|
  {
    if StartsWith(s, q) then
      assert OccursAt(s, q, 0);
      true
    else if |s| == 0 then
      assert forall i :: !OccursAt(s, q, i);
      false
    else
      var r := Contains(s[1..], q);
      assert r ==> Occurs(s, q) by {
        if r {
          var i :| OccursAt(s[1..], q, i);
          assert s[1..][i..i + |q|] == s[i + 1..i + 1 + |q|];
          assert OccursAt(s, q, i + 1);
        }
      }
      assert Occurs(s, q) ==> r by {
        if Occurs(s, q) {
          var i :| OccursAt(s, q, i);
          assert i != 0;
          assert s[1..][i - 1..i - 1 + |q|] == s[i..i + |q|];
          assert OccursAt(s[1..], q, i - 1);
        }
      }
      r
  }

  /** Case-insensitive containment as the repository queries use it:
      both sides are lower-cased before the substring test. */
  predicate ContainsIgnoreCase(s: string, q: string) {
    Contains(Lower(s), Lower(q))
  }

  predicate IsDigit(c: char) {
    '0' <= c <= '9'
  }

  predicate AllDigits(s: string) {
    forall i :: 0 <= i < |s| ==> IsDigit(s[i])
  }

  function DigitChar(d: int): char
    requires 0 <= d < 10
  {
    ('0' as int + d) as char
  }

  function DigitValue(c: char): int
    requires IsDigit(c)
  {
    c as int - '0' as int
  }

  /** The numeric value of a string of decimal digits. */
  function DecimalValue(s: string): nat
    requires AllDigits(s)
  {
    if |s| == 0 then 0 else 10 * DecimalValue(s[..|s| - 1]) + DigitValue(s[|s| - 1])
  }

  /** Decimal digits of a natural number, with no leading zero. */
  function NatToDecimal(n: nat): (s: string)
    ensures |s| >= 1 && AllDigits(s)
    ensures s[0] == '0' ==> n == 0
    decreases n
  {
    if n < 10 then [DigitChar(n)] else NatToDecimal(n / 10) + [DigitChar(n % 10)]
  }

  /** Reading the digits back gives the number that was formatted. */
  lemma {:induction false} DecimalRoundTrip(n: nat)
    ensures DecimalValue(NatToDecimal(n)) == n
    decreases n
  {
    if n >= 10 {
      var s := NatToDecimal(n);
      DecimalRoundTrip(n / 10);
      assert s[..|s| - 1] == NatToDecimal(n / 10);
    }
  }

  /** Java's `String.format("%d", n)` for a `long` under a locale whose
      digits are ASCII: a minus sign before the digits of the magnitude when
      negative. */
  function LongToDecimal(n: int): (s: string)
    ensures n < 0 <==> (|s| > 0 && s[0] == '-')
  {
    if n < 0 then "-" + NatToDecimal(-n) else NatToDecimal(n)
  }

  /** Distinct numbers are formatted as distinct strings. */
  lemma LongToDecimalInjective(a: int, b: int)
    requires LongToDecimal(a) == LongToDecimal(b)
    ensures a == b
  {
    var s := LongToDecimal(a);
    if a < 0 {
      assert b < 0;
      assert s == "-" + NatToDecimal(-a) == "-" + NatToDecimal(-b);
      assert NatToDecimal(-a) == s[1..] == NatToDecimal(-b);
      DecimalRoundTrip(-a);
      DecimalRoundTrip(-b);
    } else {
      assert b >= 0;
      DecimalRoundTrip(a);
      DecimalRoundTrip(b);
    }
  }
}
