/**
 * The JavaScript built-ins that the map screen's formatting relies on, over
 * exact numbers: `Math.round`, the decimal printing of an integer-valued
 * number in a template literal, `Number.prototype.toFixed` and
 * `String.prototype.trim`. Each printer has a parser beside it, and the
 * round trip between the two is what the contracts state.
 */
module JsBuiltins {
  import opened Wrappers

  function Pow10(k: nat): (r: nat)
    ensures r >= 1
  {
    if k == 0 then 1 else 10 * Pow10(k - 1)
  }

  function Abs(x: real): real
  {
    if x < 0.0 then -x else x
  }

  // ---------------------------------------------------------------- digits

  predicate IsDigit(c: char)
  {
    '0' <= c <= '9'
  }

  predicate AllDigits(s: string)
  {
    forall i | 0 <= i < |s| :: IsDigit(s[i])
  }

  function DigitValue(c: char): nat
    requires IsDigit(c)
  {
    c as int - '0' as int
  }

  function DigitChar(d: nat): (c: char)
    requires d < 10
    ensures IsDigit(c) && DigitValue(c) == d
  {
    (48 + d) as char
  }

  /** Digits as JavaScript prints an integer: at least one, and no leading zero unless the number is 0. */
  predicate CanonicalDigits(s: string)
  {
    |s| >= 1 && AllDigits(s) && (s[0] == '0' ==> |s| == 1)
  }

  /** The number a string of decimal digits denotes, most significant digit first. */
  function DigitsValue(s: string): nat
    requires AllDigits(s)
  {
    if s == [] then 0 else 10 * DigitsValue(s[..|s| - 1]) + DigitValue(s[|s| - 1])
  }

  lemma {:induction false} DigitsValueConcat(a: string, b: string)
    requires AllDigits(a) && AllDigits(b)
    ensures AllDigits(a + b)
    ensures DigitsValue(a + b) == DigitsValue(a) * Pow10(|b|) + DigitsValue(b)
    decreases |b|
  {
    assert AllDigits(a + b) by {
      forall i | 0 <= i < |a + b| ensures IsDigit((a + b)[i]) {
        if i >= |a| { assert (a + b)[i] == b[i - |a|]; }
      }
    }
    if b == [] {
      assert a + b == a;
    } else {
      var b' := b[..|b| - 1];
      var d := DigitValue(b[|b| - 1]);
      assert (a + b)[..|a + b| - 1] == a + b';
      assert (a + b)[|a + b| - 1] == b[|b| - 1];
      assert AllDigits(b');
      DigitsValueConcat(a, b');
      var va, vb', p := DigitsValue(a), DigitsValue(b'), Pow10(|b'|);
      assert DigitsValue(a + b) == 10 * DigitsValue(a + b') + d;
      assert DigitsValue(a + b') == va * p + vb';
      assert DigitsValue(b) == 10 * vb' + d;
      assert Pow10(|b|) == 10 * p;
      MulAssoc(va, p);
    }
  }

  lemma MulAssoc(x: nat, p: nat)
    ensures 10 * (x * p) == x * (10 * p)
  {
  }

  /** The shortest decimal digits of `n`, "0" for zero: how JavaScript prints a non-negative integer. */
  function NatToString(n: nat): (s: string)
    ensures |s| >= 1 && AllDigits(s)
    ensures n > 0 ==> s[0] != '0'
    ensures CanonicalDigits(s)
    ensures DigitsValue(s) == n
  {
    if n < 10 then [DigitChar(n)]
    else
      var prefix := NatToString(n / 10);
      var s := prefix + [DigitChar(n % 10)];
      assert s[..|s| - 1] == prefix;
      s
  }

  /** A string without a leading zero that is not "0" itself denotes a positive number. */
  lemma {:induction false} LeadingDigitPositive(s: string)
    requires |s| >= 1 && AllDigits(s) && s[0] != '0'
    ensures DigitsValue(s) >= 1
    ensures |s| >= 2 ==> DigitsValue(s) >= 10
  {
    if |s| >= 2 {
      var init := s[..|s| - 1];
      assert init[0] == s[0];
      LeadingDigitPositive(init);
    }
  }

  /** Canonical digits are exactly what NatToString prints for the number they denote. */
  lemma {:induction false} NatToStringOnly(s: string)
    requires CanonicalDigits(s)
    ensures NatToString(DigitsValue(s)) == s
  {
    var n := DigitsValue(s);
    if |s| == 1 {
      assert DigitsValue(s[..0]) == 0 by { assert s[..0] == []; }
      assert n == 10 * DigitsValue(s[..0]) + DigitValue(s[0]);
      assert NatToString(n) == [DigitChar(n)];
      assert DigitChar(n) == s[0];
    } else {
      var init, d := s[..|s| - 1], DigitValue(s[|s| - 1]);
      assert init[0] == s[0] != '0';
      LeadingDigitPositive(s);
      NatToStringOnly(init);
      LastDigit(s);
      assert NatToString(n) == NatToString(DigitsValue(init)) + [DigitChar(d)];
      assert DigitChar(d) == s[|s| - 1];
      assert s == init + [s[|s| - 1]];
    }
  }

  /** The last digit of a non-empty digit string is its value mod 10, the rest its value div 10. */
  lemma LastDigit(s: string)
    requires |s| >= 1 && AllDigits(s)
    ensures DigitsValue(s) / 10 == DigitsValue(s[..|s| - 1])
    ensures DigitsValue(s) % 10 == DigitValue(s[|s| - 1])
  {
    var n, q, d := DigitsValue(s), DigitsValue(s[..|s| - 1]), DigitValue(s[|s| - 1]);
    assert n == 10 * q + d && d < 10;
    DivModUnique(n, 10, q, d);
  }

  /** Exactly `k` decimal digits of `n`, padded on the left with zeros. */
  function PaddedDigits(n: nat, k: nat): (s: string)
    requires n < Pow10(k)
    ensures |s| == k && AllDigits(s)
    ensures DigitsValue(s) == n
  {
    if k == 0 then ""
    else
      var prefix := PaddedDigits(n / 10, k - 1);
      var s := prefix + [DigitChar(n % 10)];
      assert s[..|s| - 1] == prefix;
      s
  }

  /** Any k digits denote a number below 10^k, and are what PaddedDigits writes for it. */
  lemma {:induction false} PaddedDigitsOnly(s: string)
    requires AllDigits(s)
    ensures DigitsValue(s) < Pow10(|s|)
    ensures PaddedDigits(DigitsValue(s), |s|) == s
  {
    if s != [] {
      var init, d := s[..|s| - 1], DigitValue(s[|s| - 1]);
      PaddedDigitsOnly(init);
      LastDigit(s);
      var n, q := DigitsValue(s), DigitsValue(init);
      assert n == 10 * q + d && d < 10 && q < Pow10(|init|);
      assert n < Pow10(|s|);
      assert PaddedDigits(n, |s|) == PaddedDigits(q, |init|) + [DigitChar(d)];
      assert DigitChar(d) == s[|s| - 1];
      assert s == init + [s[|s| - 1]];
    }
  }

  // ------------------------------------------------------- integer printing

  /** `${n}` for an integer-valued number `n` (below 10^21 in magnitude). */
  function IntToString(n: int): string
  {
    if n < 0 then "-" + NatToString(-n) else NatToString(n)
  }

  /** Printing an integer and reading it back gives the integer. */
  lemma IntToStringRoundTrip(n: int)
    ensures ParseInt(IntToString(n)) == Some(n)
  {
    var s := IntToString(n);
    if n < 0 {
      assert s[1..] == NatToString(-n);
    }
  }

  /**
   * Reads an integer as JavaScript prints one: canonical digits, after a
   * minus sign only when they are not "0".
   */
  function ParseInt(s: string): Option<int>
  {
    if |s| >= 2 && s[0] == '-' && s[1] != '0' && CanonicalDigits(s[1..]) then Some(-(DigitsValue(s[1..]) as int))
    else if CanonicalDigits(s) then Some(DigitsValue(s))
    else None
  }

  /** The printed text is the only text that reads back as the integer. */
  lemma {:induction false} IntToStringOnly(n: int, s: string)
    ensures ParseInt(s) == Some(n) <==> s == IntToString(n)
  {
    IntToStringRoundTrip(n);
    if ParseInt(s) == Some(n) {
      if |s| >= 2 && s[0] == '-' && s[1] != '0' && CanonicalDigits(s[1..]) {
        NatToStringOnly(s[1..]);
        LeadingDigitPositive(s[1..]);
        assert s == "-" + s[1..];
      } else {
        NatToStringOnly(s);
      }
    }
  }

  /** Math.round: the nearest integer, a half rounding toward +infinity. */
  function Round(x: real): (n: int)
    ensures n as real - 0.5 <= x < n as real + 0.5
  {
    (x + 0.5).Floor
  }

  // ---------------------------------------------------------------- toFixed

  /** A fixed-point decimal: the value is (negative ? -1 : 1) * scaled / 10^digits. */
  datatype Decimal = Decimal(negative: bool, scaled: nat)

  /** The digits of `n / 10^f` written with exactly `f` fractional digits. */
  function FixedDigits(n: nat, f: nat): (s: string)
    ensures |s| >= 1 && IsDigit(s[0])
    ensures forall i | 0 <= i < |s| :: IsDigit(s[i]) || s[i] == '.'
  {
    if f == 0 then NatToString(n)
    else
      var p := Pow10(f);
      var q, r := Div(n, p), Mod(n, p);
      var a := NatToString(q);
      var b := PaddedDigits(r, f);
      assert forall i | |a| + 1 <= i < |a| + 1 + |b| :: (a + "." + b)[i] == b[i - |a| - 1];
      a + "." + b
  }

  /** Euclidean quotient and remainder of naturals, with the facts the proofs use. */
  function Div(n: nat, p: nat): (q: nat)
    requires p >= 1
  {
    n / p
  }

  function Mod(n: nat, p: nat): (r: nat)
    requires p >= 1
    ensures r < p && n == Div(n, p) * p + r
  {
    n % p
  }

  /**
   * x.toFixed(f): the integer n nearest to |x| * 10^f (the larger one on a tie),
   * printed with f fractional digits, and a minus sign when x is negative.
   */
  function ToFixed(x: real, f: nat): (s: string)
    ensures forall i | 0 <= i < |s| :: IsDigit(s[i]) || s[i] == '.' || s[i] == '-'
  {
    var n := Round(Scaled(x, f));
    (if x < 0.0 then "-" else "") + FixedDigits(n as nat, f)
  }

  /** |x| * 10^f, the quantity toFixed rounds to an integer. */
  function Scaled(x: real, f: nat): (y: real)
    ensures y >= 0.0
  {
    var a, p := Abs(x), Pow10(f) as real;
    assert a >= 0.0 && p >= 1.0;
    a * p
  }

  /** Reads what ToFixed prints: an optional minus sign, digits, and for f > 0 a point and f digits. */
  function ParseFixed(s: string, f: nat): Option<Decimal>
  {
    var negative := |s| > 0 && s[0] == '-';
    var body := if negative then s[1..] else s;
    match ParseUnsignedFixed(body, f)
    case None => None
    case Some(n) => Some(Decimal(negative, n))
  }

  /** Canonical integer digits, then for f > 0 a point and exactly f digits. */
  function ParseUnsignedFixed(s: string, f: nat): Option<nat>
  {
    if f == 0 then
      if CanonicalDigits(s) then Some(DigitsValue(s)) else None
    else if |s| >= f + 2 && s[|s| - f - 1] == '.'
            && CanonicalDigits(s[..|s| - f - 1]) && AllDigits(s[|s| - f..]) then
      Some(DigitsValue(s[..|s| - f - 1]) * Pow10(f) + DigitsValue(s[|s| - f..]))
    else None
  }

  lemma FixedDigitsRoundTrip(n: nat, f: nat)
    ensures ParseUnsignedFixed(FixedDigits(n, f), f) == Some(n)
  {
    if f > 0 {
      var p := Pow10(f);
      var q, r := Div(n, p), Mod(n, p);
      var a := NatToString(q);
      var b := PaddedDigits(r, f);
      assert a + "." + b == FixedDigits(n, f);
      ParsePointed(a, b, f);
    }
  }

  /** Digits, a point and exactly f > 0 digits are read as the integer both runs spell together. */
  lemma {:induction false} ParsePointed(a: string, b: string, f: nat)
    requires f > 0 && |b| == f && CanonicalDigits(a) && AllDigits(b)
    ensures ParseUnsignedFixed(a + "." + b, f) == Some(DigitsValue(a) * Pow10(f) + DigitsValue(b))
  {
    var s := a + "." + b;
    var k := |a|;
    assert s[..k] == a;
    assert s[k + 1..] == b;
  }

  lemma Split<T>(x: seq<T>, y: seq<T>)
    ensures (x + y)[..|x|] == x && (x + y)[|x|..] == y
  {
  }

  /** The text that FixedDigits writes is the only text that reads back as its number. */
  lemma {:induction false} FixedDigitsOnly(n: nat, f: nat, s: string)
    ensures ParseUnsignedFixed(s, f) == Some(n) <==> s == FixedDigits(n, f)
  {
    FixedDigitsRoundTrip(n, f);
    if ParseUnsignedFixed(s, f) == Some(n) {
      if f == 0 {
        NatToStringOnly(s);
      } else {
        var a, b := PointedParts(s, f);
        NatToStringOnly(a);
        PaddedDigitsOnly(b);
        var p := Pow10(f);
        DivModUnique(n, p, DigitsValue(a), DigitsValue(b));
      }
    }
  }

  /** A pointed text ParseUnsignedFixed accepts, split at its point. */
  lemma {:induction false} PointedParts(s: string, f: nat) returns (a: string, b: string)
    requires f > 0 && ParseUnsignedFixed(s, f).Some?
    ensures s == a + "." + b
    ensures CanonicalDigits(a) && AllDigits(b) && |b| == f
    ensures ParseUnsignedFixed(s, f).value == DigitsValue(a) * Pow10(f) + DigitsValue(b)
  {
    var k := |s| - f - 1;
    a, b := s[..k], s[k + 1..];
    assert s == s[..k] + [s[k]] + s[k + 1..];
  }

  /** The quotient and the remainder are the only such pair. */
  lemma DivModUnique(n: nat, p: nat, q: nat, r: nat)
    requires p >= 1 && r < p && n == q * p + r
    ensures Div(n, p) == q && Mod(n, p) == r
  {
    var q', r' := Div(n, p), Mod(n, p);
    if q' > q {
      assert (q' - q) * p == r - r';
      MulAtLeast(q' - q, p);
    } else if q' < q {
      assert (q - q') * p == r' - r;
      MulAtLeast(q - q', p);
    }
  }

  lemma MulAtLeast(k: nat, p: nat)
    requires k >= 1
    ensures k * p >= p
  {
  }

  /**
   * `d` is what toFixed(f) writes for x: the sign of x, and the integer
   * nearest to |x| * 10^f, the larger one on a tie.
   */
  predicate IsFixedRounding(d: Decimal, x: real, f: nat)
  {
    && (d.negative <==> x < 0.0)
    && d.scaled as real - 0.5 <= Scaled(x, f) < d.scaled as real + 0.5
  }

  /** Reading back what toFixed printed gives the sign of x and the rounding of |x| * 10^f. */
  lemma ToFixedRoundTrip(x: real, f: nat)
    ensures ParseFixed(ToFixed(x, f), f).Some?
    ensures IsFixedRounding(ParseFixed(ToFixed(x, f), f).value, x, f)
  {
    var y := Scaled(x, f);
    var n := Round(y);
    assert n >= 0;
    var digits := FixedDigits(n as nat, f);
    FixedDigitsRoundTrip(n as nat, f);
    var s := ToFixed(x, f);
    if x < 0.0 {
      assert s == "-" + digits;
      assert s[1..] == digits;
    } else {
      assert s == digits;
    }
    assert ParseFixed(s, f) == Some(Decimal(x < 0.0, n as nat));
  }

  /** The sign and the rounding are determined by x, so at most one decimal is toFixed's. */
  lemma FixedRoundingUnique(d: Decimal, e: Decimal, x: real, f: nat)
    requires IsFixedRounding(d, x, f) && IsFixedRounding(e, x, f)
    ensures d == e
  {
  }

  /**
   * x.toFixed(f) is the one text that reads back as the sign of x and the
   * rounding of |x| * 10^f: no other spelling, such as a leading zero, does.
   */
  lemma {:induction false} ToFixedOnly(x: real, f: nat, s: string)
    ensures s == ToFixed(x, f) <==> ParseFixed(s, f).Some? && IsFixedRounding(ParseFixed(s, f).value, x, f)
  {
    ToFixedRoundTrip(x, f);
    var t := ToFixed(x, f);
    if ParseFixed(s, f).Some? && IsFixedRounding(ParseFixed(s, f).value, x, f) {
      FixedRoundingUnique(ParseFixed(s, f).value, ParseFixed(t, f).value, x, f);
      ParseFixedInjective(s, t, f);
    }
  }

  /** Two texts that read back as the same decimal are the same text. */
  lemma {:induction false} ParseFixedInjective(s: string, t: string, f: nat)
    requires ParseFixed(s, f).Some? && ParseFixed(s, f) == ParseFixed(t, f)
    ensures s == t
  {
    var d := ParseFixed(s, f).value;
    ParseFixedText(s, f);
    ParseFixedText(t, f);
  }

  /** A text ParseFixed accepts is the sign followed by the FixedDigits of what it reads. */
  lemma {:induction false} ParseFixedText(s: string, f: nat)
    requires ParseFixed(s, f).Some?
    ensures s == (if ParseFixed(s, f).value.negative then "-" else "") + FixedDigits(ParseFixed(s, f).value.scaled, f)
  {
    var d := ParseFixed(s, f).value;
    var body := if d.negative then s[1..] else s;
    FixedDigitsOnly(d.scaled, f, body);
    if d.negative {
      assert s == "-" + s[1..];
    }
  }

  // ------------------------------------------------------------------- trim

  /** ECMAScript WhiteSpace and LineTerminator code points, the characters trim removes. */
  predicate IsWhiteSpace(c: char)
  {
    || c == '\t' || c == '\n' || c == '\U{000B}' || c == '\U{000C}' || c == '\r'
    || c == ' ' || c == '\U{00A0}' || c == '\U{1680}'
    || ('\U{2000}' <= c <= '\U{200A}')
    || c == '\U{2028}' || c == '\U{2029}' || c == '\U{202F}' || c == '\U{205F}'
    || c == '\U{3000}' || c == '\U{FEFF}'
  }

  /** The length of the whitespace run at the start of `s`. */
  function LeadingSpace(s: string): (k: nat)
    ensures k <= |s|
    ensures forall i | 0 <= i < k :: IsWhiteSpace(s[i])
    ensures k < |s| ==> !IsWhiteSpace(s[k])
  {
    if s == [] || !IsWhiteSpace(s[0]) then 0 else 1 + LeadingSpace(s[1..])
  }

  /** The length of the whitespace run at the end of `s`. */
  function TrailingSpace(s: string): (k: nat)
    ensures k <= |s|
    ensures forall i | |s| - k <= i < |s| :: IsWhiteSpace(s[i])
    ensures k < |s| ==> !IsWhiteSpace(s[|s| - 1 - k])
  {
    if s == [] || !IsWhiteSpace(s[|s| - 1]) then 0 else 1 + TrailingSpace(s[..|s| - 1])
  }

  /**
   * String.prototype.trim: the longest slice of `s` that neither starts nor
   * ends with whitespace, everything cut off being whitespace.
   */
  function Trim(s: string): (r: string)
    ensures r != [] ==> !IsWhiteSpace(r[0]) && !IsWhiteSpace(r[|r| - 1])
    ensures LeadingSpace(s) + |r| <= |s|
    ensures r == s[LeadingSpace(s)..LeadingSpace(s) + |r|]
    ensures forall k | LeadingSpace(s) + |r| <= k < |s| :: IsWhiteSpace(s[k])
  {
    var i := LeadingSpace(s);
    var j := TrailingSpace(s[i..]);
    TrailingOfSuffix(s, i, j);
    s[i..|s| - j]
  }

  /** The whitespace run at the end of a suffix of `s` is whitespace in `s` itself. */
  lemma TrailingOfSuffix(s: string, i: nat, j: nat)
    requires i <= |s| && j == TrailingSpace(s[i..])
    ensures i + j <= |s|
    ensures forall k | |s| - j <= k < |s| :: IsWhiteSpace(s[k])
    ensures i + j < |s| ==> !IsWhiteSpace(s[|s| - 1 - j])
  {
    var rest := s[i..];
    forall k | |s| - j <= k < |s| ensures IsWhiteSpace(s[k]) {
      assert s[k] == rest[k - i];
    }
    if i + j < |s| {
      assert s[|s| - 1 - j] == rest[|rest| - 1 - j];
    }
  }

  lemma TrimIdempotent(s: string)
    ensures Trim(Trim(s)) == Trim(s)
  {
    var r := Trim(s);
    if r != [] {
      assert LeadingSpace(r) == 0;
      assert r[0..] == r;
      assert TrailingSpace(r) == 0;
    }
  }
}
