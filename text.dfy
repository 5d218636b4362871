/**
 * The parts of Java's `String`, `Character` and `Integer` behaviour that the
 * street-tree code relies on, restricted to what matters for the model:
 * case folding is ASCII-only and comparisons are kept only up to their sign.
 */
module Text {
  import opened Wrappers

  /** `Character.toLowerCase` on ASCII letters; every other character is kept. */
  function LowerChar(c: char): char {
    if 'A' <= c <= 'Z' then (c as int + 32) as char else c
  }

  /** `s.toLowerCase()` with ASCII case folding. */
  function Lower(s: string): (r: string)
    ensures |r| == |s|
    ensures forall i :: 0 <= i < |s| ==> r[i] == LowerChar(s[i])
  {
    seq(|s|, i requires 0 <= i < |s| => LowerChar(s[i]))
  }

  /** A string that lower-casing leaves unchanged. */
  predicate IsLower(s: string) {
    Lower(s) == s
  }

  lemma LowerIsLower(s: string)
    ensures IsLower(Lower(s))
  {
  }

  /** `a.equalsIgnoreCase(b)`. */
  predicate EqualsIgnoreCase(a: string, b: string) {
    Lower(a) == Lower(b)
  }

  /** The sign of Java's `a.compareTo(b)`: lexicographic on characters, a proper prefix first. */
  function LexCompare(a: string, b: string): (r: int)
    ensures -1 <= r <= 1
    ensures r == 0 <==> a == b
  {
    if a == [] && b == [] then 0
    else if a == [] then -1
    else if b == [] then 1
    else if a[0] < b[0] then -1
    else if a[0] > b[0] then 1
    else
      assert a == [a[0]] + a[1..] && b == [b[0]] + b[1..];
      LexCompare(a[1..], b[1..])
  }

  lemma {:induction false} LexAntisymmetric(a: string, b: string)
    ensures LexCompare(a, b) == -LexCompare(b, a)
  {
    if a != [] && b != [] && a[0] == b[0] {
      LexAntisymmetric(a[1..], b[1..]);
    }
  }

  lemma {:induction false} LexTransitive(a: string, b: string, c: string)
    requires LexCompare(a, b) < 0 && LexCompare(b, c) < 0
    ensures LexCompare(a, c) < 0
  {
    if a != [] && b != [] && c != [] && a[0] == b[0] && b[0] == c[0] {
      LexTransitive(a[1..], b[1..], c[1..]);
    }
  }

  /** The sign of `a.compareToIgnoreCase(b)`. */
  function CompareIgnoreCase(a: string, b: string): (r: int)
    ensures -1 <= r <= 1
    ensures r == 0 <==> EqualsIgnoreCase(a, b)
  {
    LexCompare(Lower(a), Lower(b))
  }

  /** `s.contains(q)`: `q` occurs somewhere in `s`. */
  function Contains(s: string, q: string): (r: bool)
    ensures q == [] ==> r
    ensures r ==> |q| <= |s|
  {
    q <= s || (s != [] && Contains(s[1..], q))
  }

  /** `q` occurs in `s` starting at index `i`. */
  ghost predicate OccursAt(s: string, q: string, i: int) {
    0 <= i && i + |q| <= |s| && s[i..i + |q|] == q
  }

  /** An occurrence in a non-empty `s` is either at its start or in its tail. */
  lemma OccursInTail(s: string, q: string)
    requires s != []
    ensures (exists i :: OccursAt(s, q, i)) <==> q <= s || exists j :: OccursAt(s[1..], q, j)
  {
    if q <= s {
      assert OccursAt(s, q, 0);
    }
    forall j | OccursAt(s[1..], q, j) ensures OccursAt(s, q, j + 1) {
      forall k | 0 <= k < |q| ensures s[j + 1..j + 1 + |q|][k] == q[k] {
        assert q[k] == s[1..][j..j + |q|][k] == s[1..][j + k];
      }
    }
    forall i | OccursAt(s, q, i) ensures q <= s || OccursAt(s[1..], q, i - 1) {
      if i > 0 {
        forall k | 0 <= k < |q| ensures s[1..][i - 1..i - 1 + |q|][k] == q[k] {
          assert q[k] == s[i..i + |q|][k] == s[i + k];
        }
      }
    }
  }

  /** `Contains` finds exactly the occurrences of `q` in `s`. */
  lemma {:induction false} ContainsIffOccurs(s: string, q: string)
    ensures Contains(s, q) <==> exists i :: OccursAt(s, q, i)
  {
    if s == [] {
      if q == [] {
        assert OccursAt(s, q, 0);
      }
    } else {
      ContainsIffOccurs(s[1..], q);
      OccursInTail(s, q);
    }
  }

  /** `Character.isWhitespace`: the separators other than the no-break spaces, and tab to carriage return, and U+001C to U+001F. */
  predicate IsWhitespace(c: char) {
    || c == ' '
    || '\t' <= c <= '\r'
    || '\U{1C}' <= c <= '\U{1F}'
    || c == '\U{1680}'
    || ('\U{2000}' <= c <= '\U{200A}' && c != '\U{2007}')
    || c == '\U{2028}' || c == '\U{2029}' || c == '\U{205F}' || c == '\U{3000}'
  }

  /** The characters `String.trim` strips: code points up to and including the space. */
  predicate IsTrimmable(c: char) {
    c <= ' '
  }

  function TrimStart(s: string): (r: string)
    ensures |r| <= |s| && r == s[|s| - |r|..]
    ensures r != [] ==> !IsTrimmable(r[0])
  {
    if s != [] && IsTrimmable(s[0]) then TrimStart(s[1..]) else s
  }

  function TrimEnd(s: string): (r: string)
    ensures r <= s
    ensures r != [] ==> !IsTrimmable(r[|r| - 1])
  {
    if s != [] && IsTrimmable(s[|s| - 1]) then TrimEnd(s[..|s| - 1]) else s
  }

  /** A prefix of a suffix of `s` holds only characters of `s`. */
  lemma InnerChars(s: string, a: string, r: string)
    requires |a| <= |s| && a == s[|s| - |a|..] && r <= a
    ensures forall c :: c in r ==> c in s
  {
    forall c | c in r ensures c in s {
      var k :| 0 <= k < |r| && r[k] == c;
      assert s[|s| - |a| + k] == c;
    }
  }

  /** `s.trim()`: `s` without its leading and trailing trimmable characters. */
  function Trim(s: string): (r: string)
    ensures |r| <= |s|
    ensures forall c :: c in r ==> c in s
    ensures r != [] ==> !IsTrimmable(r[0]) && !IsTrimmable(r[|r| - 1])
  {
    var a := TrimStart(s);
    InnerChars(s, a, TrimEnd(a));
    TrimEnd(a)
  }

  /** A string that neither starts nor ends with a trimmable character is its own trim. */
  lemma TrimOfTrimmed(s: string)
    requires s != [] ==> !IsTrimmable(s[0]) && !IsTrimmable(s[|s| - 1])
    ensures Trim(s) == s
  {
  }

  /** No string occurs twice in `s`. */
  predicate Distinct(s: seq<string>) {
    forall i, j :: 0 <= i < j < |s| ==> s[i] != s[j]
  }

  // ---------------------------------------------------------------- integers

  const MinInt: int := -0x8000_0000
  const MaxInt: int := 0x7FFF_FFFF

  predicate IsDigit(c: char) {
    '0' <= c <= '9'
  }

  predicate AllDigits(s: string) {
    forall i :: 0 <= i < |s| ==> IsDigit(s[i])
  }

  /** The value of a run of decimal digits, most significant first. */
  function DigitsValue(s: string): nat
    requires AllDigits(s)
  {
    if s == [] then 0 else DigitsValue(s[..|s| - 1]) * 10 + (s[|s| - 1] as int - '0' as int)
  }

  /**
   * `Integer.parseInt(s)`: an optional sign followed by at least one digit,
   * in the 32-bit range; `None` stands for the `NumberFormatException`.
   */
  function ParseInt(s: string): (r: Option<int>)
    ensures r.Some? ==> MinInt <= r.value <= MaxInt
  {
    if s == [] then None
    else
      var digits := if s[0] == '-' || s[0] == '+' then s[1..] else s;
      if digits == [] || !AllDigits(digits) then None
      else
        var n: int := DigitsValue(digits);
        var v := if s[0] == '-' then -n else n;
        if MinInt <= v <= MaxInt then Some(v) else None
  }

  function DigitChar(d: int): (c: char)
    requires 0 <= d <= 9
    ensures IsDigit(c) && c as int - '0' as int == d
  {
    ('0' as int + d) as char
  }

  /** `String.format("%05d", z)` for a zip code: five digits, zero-padded. */
  function FormatZip(z: int): (s: string)
    requires 0 <= z <= 99999
    ensures |s| == 5 && AllDigits(s)
  {
    var r1 := z / 10;
    var r2 := r1 / 10;
    var r3 := r2 / 10;
    var r4 := r3 / 10;
    [DigitChar(r4), DigitChar(r3 % 10), DigitChar(r2 % 10), DigitChar(r1 % 10), DigitChar(z % 10)]
  }

  /** Formatting a zip code with five digits and parsing it back gives the zip code. */
  lemma ZipRoundTrip(z: int)
    requires 0 <= z <= 99999
    ensures ParseInt(FormatZip(z)) == Some(z)
  {
    var s := FormatZip(z);
    var r1 := z / 10;
    var r2 := r1 / 10;
    var r3 := r2 / 10;
    var r4 := r3 / 10;
    assert DigitsValue(s[..1]) == r4;
    assert DigitsValue(s[..2]) == r4 * 10 + r3 % 10 == r3 by { assert s[..2][..1] == s[..1]; }
    assert DigitsValue(s[..3]) == r3 * 10 + r2 % 10 == r2 by { assert s[..3][..2] == s[..2]; }
    assert DigitsValue(s[..4]) == r2 * 10 + r1 % 10 == r1 by { assert s[..4][..3] == s[..3]; }
    assert DigitsValue(s) == r1 * 10 + z % 10 == z by { assert s[..4] == s[..|s| - 1]; }
  }
}
