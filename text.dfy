/** Text operations the ledger console relies on: ASCII lower-casing,
    JavaScript's String.prototype.trim, substring search, decimal rendering
    of numbers and a total order on strings standing in for localeCompare. */
module Text {

  // ---------------------------------------------------------------------
  // Characters

  predicate IsDigit(c: char) {
    '0' <= c <= '9'
  }

  function DigitChar(d: nat): (c: char)
    requires d < 10
    ensures IsDigit(c)
  {
    ('0' as int + d) as char
  }

  function DigitValue(c: char): (d: nat)
    requires IsDigit(c)
    ensures d < 10 && DigitChar(d) == c
  {
    c as int - '0' as int
  }

  predicate AllDigits(s: string) {
    forall i :: 0 <= i < |s| ==> IsDigit(s[i])
  }

  /** Lower-cases the ASCII letters and leaves every other character alone. */
  function LowerChar(c: char): char {
    if 'A' <= c <= 'Z' then (c as int + 32) as char else c
  }

  function LowerText(s: string): (r: string)
    ensures |r| == |s|
    ensures forall i :: 0 <= i < |s| ==> r[i] == LowerChar(s[i])
  {
    seq(|s|, i requires 0 <= i < |s| => LowerChar(s[i]))
  }

  /** The characters String.prototype.trim removes: the ECMAScript WhiteSpace
      and LineTerminator code points. */
  predicate IsSpace(c: char) {
    var k := c as int;
    (9 <= k <= 13) || k == 0x20 || k == 0xA0 || k == 0x1680
    || (0x2000 <= k <= 0x200A) || k == 0x2028 || k == 0x2029
    || k == 0x202F || k == 0x205F || k == 0x3000 || k == 0xFEFF
  }

  // ---------------------------------------------------------------------
  // Substring search (String.prototype.includes)

  predicate OccursAt(s: string, q: string, i: nat) {
    i + |q| <= |s| && s[i..i + |q|] == q
  }

  /** q starts s, or occurs in what follows the first character. */
  predicate Contains(s: string, q: string)
    decreases |s|
  {
    (|q| <= |s| && s[..|q|] == q) || (s != [] && Contains(s[1..], q))
  }

  /** Contains is String.prototype.includes: q occurs at some index of s. */
  lemma {:induction false} ContainsMeaning(s: string, q: string)
    ensures Contains(s, q) <==> exists i | 0 <= i <= |s| :: OccursAt(s, q, i)
  {
    if Contains(s, q) {
      if |q| <= |s| && s[..|q|] == q {
        assert OccursAt(s, q, 0);
      } else {
        ContainsMeaning(s[1..], q);
        var i :| 0 <= i <= |s| - 1 && OccursAt(s[1..], q, i);
        assert s[1..][i..i + |q|] == s[i + 1..i + 1 + |q|];
        assert OccursAt(s, q, i + 1);
      }
    }
    if exists i | 0 <= i <= |s| :: OccursAt(s, q, i) {
      var i :| 0 <= i <= |s| && OccursAt(s, q, i);
      if i > 0 {
        assert s[1..][i - 1..i - 1 + |q|] == s[i..i + |q|];
        assert OccursAt(s[1..], q, i - 1);
        ContainsMeaning(s[1..], q);
      } else {
        assert s[..|q|] == s[0..0 + |q|];
      }
    }
  }

  /** What occurs in s without its last character occurs in s. */
  lemma {:induction false} ContainsInInit(s: string, q: string)
    requires s != [] && Contains(s[..|s| - 1], q)
    ensures Contains(s, q)
  {
    var init := s[..|s| - 1];
    if |q| <= |init| && init[..|q|] == q {
      assert s[..|q|] == q;
    } else {
      assert init[1..] == s[1..][..|s[1..]| - 1];
      ContainsInInit(s[1..], q);
    }
  }

  // ---------------------------------------------------------------------
  // Trimming

  /** String.prototype.trim: white space is dropped from both ends until
      neither end is white space; the result is a slice of s, empty exactly
      when s is all white space. */
  function Trim(s: string): (r: string)
    ensures Contains(s, r)
    ensures r == [] || (!IsSpace(r[0]) && !IsSpace(r[|r| - 1]))
    ensures r == [] <==> forall i :: 0 <= i < |s| ==> IsSpace(s[i])
  {
    if s != [] && IsSpace(s[0]) then
      Trim(s[1..])
    else if s != [] && IsSpace(s[|s| - 1]) then
      var r := Trim(s[..|s| - 1]);
      ContainsInInit(s, r);
      r
    else
      assert s[..|s|] == s;
      s
  }

  /** r is the slice of s starting at i, and everything before and after
      that slice is white space. */
  predicate TrimmedAt(s: string, r: string, i: nat) {
    && i + |r| <= |s| && r == s[i..i + |r|]
    && (forall k | 0 <= k < i :: IsSpace(s[k]))
    && (forall k | i + |r| <= k < |s| :: IsSpace(s[k]))
  }

  /** Trim removes white space at the two ends and nothing else. */
  lemma {:induction false} TrimDropsOnlyEnds(s: string)
    ensures exists i: nat :: TrimmedAt(s, Trim(s), i)
  {
    var r := Trim(s);
    if s != [] && IsSpace(s[0]) {
      var t := s[1..];
      TrimDropsOnlyEnds(t);
      var i: nat :| TrimmedAt(t, r, i);
      ShiftTrimmed(s, r, i);
    } else if s != [] && IsSpace(s[|s| - 1]) {
      var t := s[..|s| - 1];
      TrimDropsOnlyEnds(t);
      var i: nat :| TrimmedAt(t, r, i);
      ExtendTrimmed(s, r, i);
    } else {
      assert r == s[0..0 + |r|];
      assert TrimmedAt(s, r, 0);
    }
  }

  /** A trimmed slice of s without a leading space is one of s, one place on. */
  lemma ShiftTrimmed(s: string, r: string, i: nat)
    requires s != [] && IsSpace(s[0]) && TrimmedAt(s[1..], r, i)
    ensures TrimmedAt(s, r, i + 1)
  {
    var t := s[1..];
    assert t[i..i + |r|] == s[i + 1..i + 1 + |r|];
    forall k | 0 <= k < i + 1 ensures IsSpace(s[k]) {
      if k > 0 { assert s[k] == t[k - 1]; }
    }
    forall k | i + 1 + |r| <= k < |s| ensures IsSpace(s[k]) {
      assert s[k] == t[k - 1];
    }
  }

  /** A trimmed slice of s without a trailing space is one of s. */
  lemma ExtendTrimmed(s: string, r: string, i: nat)
    requires s != [] && IsSpace(s[|s| - 1]) && TrimmedAt(s[..|s| - 1], r, i)
    ensures TrimmedAt(s, r, i)
  {
    var t := s[..|s| - 1];
    assert t[i..i + |r|] == s[i..i + |r|];
    forall k | 0 <= k < i ensures IsSpace(s[k]) {
      assert s[k] == t[k];
    }
    forall k | i + |r| <= k < |s| ensures IsSpace(s[k]) {
      if k < |t| { assert s[k] == t[k]; }
    }
  }

  // ---------------------------------------------------------------------
  // Decimal numbers

  /** Decimal rendering of a natural number: digits only, no leading zero. */
  function NatText(n: nat): (s: string)
    ensures |s| >= 1 && AllDigits(s)
    ensures |s| > 1 ==> s[0] != '0'
  {
    if n < 10 then [DigitChar(n)] else NatText(n / 10) + [DigitChar(n % 10)]
  }

  function ParseDecimal(s: string): nat
    requires AllDigits(s)
  {
    if s == [] then 0 else ParseDecimal(s[..|s| - 1]) * 10 + DigitValue(s[|s| - 1])
  }

  /** Reading back the digits NatText writes gives the number again. */
  lemma {:induction false} ParseNatText(n: nat)
    ensures ParseDecimal(NatText(n)) == n
  {
    if n >= 10 {
      var s := NatText(n / 10);
      ParseNatText(n / 10);
      assert (s + [DigitChar(n % 10)])[..|s|] == s;
    }
  }

  lemma NatTextInjective(m: nat, n: nat)
    ensures NatText(m) == NatText(n) ==> m == n
  {
    ParseNatText(m);
    ParseNatText(n);
  }

  /** The length of NatText(n) is at most k exactly when n < 10^k. */
  function Pow10(k: nat): (p: nat)
    ensures p >= 1
  {
    if k == 0 then 1 else 10 * Pow10(k - 1)
  }

  lemma {:induction false} NatTextLength(n: nat, k: nat)
    requires k >= 1
    ensures |NatText(n)| <= k <==> n < Pow10(k)
  {
    assert Pow10(k) == 10 * Pow10(k - 1);
    if n >= 10 && k > 1 {
      NatTextLength(n / 10, k - 1);
    } else if n >= 10 {
      assert |NatText(n)| >= 2 by { assert NatText(n) == NatText(n / 10) + [DigitChar(n % 10)]; }
    }
  }

  /** Number.prototype.toString for an integer: an optional minus sign and
      the decimal digits. */
  function IntText(i: int): (s: string)
    ensures |s| >= 1
    ensures s[0] == '-' <==> i < 0
  {
    if i < 0 then "-" + NatText(-i) else NatText(i)
  }

  lemma IntTextLower(i: int)
    ensures LowerText(IntText(i)) == IntText(i)
  {
    var s := IntText(i);
    assert forall k :: 0 <= k < |s| ==> IsDigit(s[k]) || s[k] == '-';
  }

  /** Left-pads s with c up to the given width (a no-op when s is that long). */
  function PadStart(s: string, width: nat, c: char): (r: string)
    ensures |r| == if |s| >= width then |s| else width
    ensures r[|r| - |s|..] == s
    ensures forall i :: 0 <= i < |r| - |s| ==> r[i] == c
  {
    if |s| >= width then s else seq(width - |s|, _ => c) + s
  }

  /** Leading zeros do not change the value of a decimal numeral. */
  lemma {:induction false} ParseLeadingZeros(z: string, s: string)
    requires AllDigits(s) && forall i :: 0 <= i < |z| ==> z[i] == '0'
    ensures AllDigits(z + s) && ParseDecimal(z + s) == ParseDecimal(s)
  {
    if s == [] {
      assert z + s == z;
      ZerosParseToZero(z);
    } else {
      var s' := s[..|s| - 1];
      assert (z + s)[..|z + s| - 1] == z + s';
      ParseLeadingZeros(z, s');
    }
  }

  lemma {:induction false} ZerosParseToZero(z: string)
    requires forall i :: 0 <= i < |z| ==> z[i] == '0'
    ensures AllDigits(z) && ParseDecimal(z) == 0
  {
    if z != [] {
      ZerosParseToZero(z[..|z| - 1]);
    }
  }

  // ---------------------------------------------------------------------
  // Ordering of text

  /** Lexicographic order on code points: a proper prefix comes first,
      otherwise the first differing character decides. */
  predicate TextLess(a: string, b: string) {
    if a == [] then b != []
    else if b == [] then false
    else a[0] < b[0] || (a[0] == b[0] && TextLess(a[1..], b[1..]))
  }

  lemma {:induction false} TextLessIrreflexive(a: string)
    ensures !TextLess(a, a)
  {
    if a != [] {
      TextLessIrreflexive(a[1..]);
    }
  }

  lemma {:induction false} TextLessTrichotomy(a: string, b: string)
    ensures a == b || TextLess(a, b) || TextLess(b, a)
    ensures !(TextLess(a, b) && TextLess(b, a))
  {
    if a != [] && b != [] && a[0] == b[0] {
      TextLessTrichotomy(a[1..], b[1..]);
      if a[1..] == b[1..] {
        assert a == [a[0]] + a[1..] && b == [b[0]] + b[1..];
      }
    }
  }

  lemma {:induction false} TextLessTransitive(a: string, b: string, c: string)
    requires TextLess(a, b) && TextLess(b, c)
    ensures TextLess(a, c)
  {
    if a != [] && a[0] == b[0] && b[0] == c[0] {
      TextLessTransitive(a[1..], b[1..], c[1..]);
    }
  }

  /** String.prototype.localeCompare, modelled on the code-point order:
      negative, zero or positive as a sorts before, with or after b. */
  function LocaleCompare(a: string, b: string): (r: int)
    ensures r == -1 || r == 0 || r == 1
    ensures r < 0 <==> TextLess(a, b)
    ensures r == 0 <==> a == b
    ensures r > 0 <==> TextLess(b, a)
  {
    TextLessIrreflexive(a);
    TextLessTrichotomy(a, b);
    if a == b then 0 else if TextLess(a, b) then -1 else 1
  }
}
