/**
 * The text formatting of the map screen (src/utils/string.ts): the distance
 * chip of an indicator and the coordinate line of a marker. Each format has a
 * reader beside it; the contracts say what number the printed text stands for.
 */
module StringUtils {
  import opened Wrappers
  import opened Models
  import opened JsBuiltins

  /** Below this many metres a distance is written in whole metres, from it on in kilometres. */
  const KilometreThreshold: real := 950.0

  /** formatDistance: "<rounded metres> m" below 950 m, "<km to one decimal> km" otherwise. */
  function FormatDistance(meters: real): string
  {
    if meters < KilometreThreshold then IntToString(Round(meters)) + " m"
    else ToFixed(meters / 1000.0, 1) + " km"
  }

  /** formatLatLng: both coordinates to five decimals, each followed by a degree sign. */
  function FormatLatLng(position: LatLng): string
  {
    ToFixed(position.lat, 5) + "°, " + ToFixed(position.lng, 5) + "°"
  }

  predicate EndsWith(s: string, suffix: string)
  {
    |suffix| <= |s| && s[|s| - |suffix|..] == suffix
  }

  // ---------------------------------------------------------------- readers

  /** What a distance text says: whole metres, or kilometres in tenths. */
  datatype Distance = Metres(metres: int) | Kilometres(tenths: Decimal)

  function ParseDistance(s: string): Option<Distance>
  {
    if EndsWith(s, " km") then
      match ParseFixed(s[..|s| - 3], 1)
      case Some(d) => Some(Kilometres(d))
      case None => None
    else if EndsWith(s, " m") then
      match ParseInt(s[..|s| - 2])
      case Some(n) => Some(Metres(n))
      case None => None
    else None
  }

  /** The position of the first `c` in `s`, or |s| when there is none. */
  function IndexOf(s: string, c: char): (k: nat)
    ensures k <= |s|
    ensures k < |s| ==> s[k] == c
    ensures forall i | 0 <= i < k :: s[i] != c
  {
    if s == [] then 0 else if s[0] == c then 0 else 1 + IndexOf(s[1..], c)
  }

  /** Reads "<lat>°, <lng>°" with five fractional digits in each number. */
  function ParseLatLng(s: string): Option<(Decimal, Decimal)>
  {
    var k := IndexOf(s, '°');
    if k + 4 <= |s| && s[k..k + 3] == "°, " && s[|s| - 1] == '°' then
      match (ParseFixed(s[..k], 5), ParseFixed(s[k + 3..|s| - 1], 5))
      case (Some(lat), Some(lng)) => Some((lat, lng))
      case _ => None
    else None
  }

  // ------------------------------------------------------------- properties

  lemma IntToStringEndsInDigit(n: int)
    ensures |IntToString(n)| >= 1 && IsDigit(IntToString(n)[|IntToString(n)| - 1])
  {
  }

  /** Below the threshold the text reads back as the metres rounded half toward +infinity. */
  lemma FormatDistanceMetres(meters: real)
    requires meters < KilometreThreshold
    ensures ParseDistance(FormatDistance(meters)) == Some(Metres(Round(meters)))
  {
    var digits := IntToString(Round(meters));
    var s := digits + " m";
    IntToStringEndsInDigit(Round(meters));
    IntToStringRoundTrip(Round(meters));
    assert s[|s| - 3] == digits[|digits| - 1];
    assert !EndsWith(s, " km");
    assert s[|s| - 2..] == " m";
    assert s[..|s| - 2] == digits;
  }

  /** From the threshold on the text reads back as the kilometres rounded to tenths, half up. */
  lemma FormatDistanceKilometres(meters: real)
    requires meters >= KilometreThreshold
    ensures var r := ParseDistance(FormatDistance(meters));
            && r.Some? && r.value.Kilometres?
            && !r.value.tenths.negative
            && r.value.tenths.scaled as real - 0.5 <= meters / 100.0 < r.value.tenths.scaled as real + 0.5
  {
    var x := meters / 1000.0;
    assert FormatDistance(meters) == ToFixed(x, 1) + " km";
    ToFixedRoundTrip(x, 1);
    ParseKilometres(ToFixed(x, 1));
    KilometresInTenths(meters);
  }

  lemma KilometresInTenths(meters: real)
    requires meters >= 0.0
    ensures meters / 1000.0 >= 0.0 && Scaled(meters / 1000.0, 1) == meters / 100.0
  {
    assert Pow10(1) == 10;
  }

  /** A text ending in " km" is read as kilometres, from what precedes the unit. */
  lemma ParseKilometres(digits: string)
    ensures ParseDistance(digits + " km") ==
            match ParseFixed(digits, 1)
            case Some(d) => Some(Kilometres(d))
            case None => None
  {
    var s := digits + " km";
    assert s[|s| - 3..] == " km";
    assert s[..|s| - 3] == digits;
  }

  /**
   * What a distance text must say for `meters`: below the threshold, the
   * metres rounded as Math.round rounds; from it on, non-negative tenths of a
   * kilometre within one half of meters / 100.
   */
  predicate ReadsAsDistance(s: string, meters: real)
  {
    match ParseDistance(s)
    case Some(Metres(n)) => meters < KilometreThreshold && n == Round(meters)
    case Some(Kilometres(d)) =>
      && meters >= KilometreThreshold && !d.negative
      && d.scaled as real - 0.5 <= meters / 100.0 < d.scaled as real + 0.5
    case None => false
  }

  /**
   * formatDistance writes the one text that reads as its input rounded in
   * its unit: no other spelling of the number, such as a leading zero, does.
   */
  lemma {:induction false} FormatDistanceOnly(meters: real, s: string)
    ensures s == FormatDistance(meters) <==> ReadsAsDistance(s, meters)
  {
    var t := FormatDistance(meters);
    if meters < KilometreThreshold {
      FormatDistanceMetres(meters);
      assert ReadsAsDistance(t, meters);
      if ReadsAsDistance(s, meters) {
        assert ParseDistance(s) == Some(Metres(Round(meters)));
        ParseDistanceInjective(s, t);
      }
    } else {
      FormatDistanceKilometres(meters);
      assert ReadsAsDistance(t, meters);
      if ReadsAsDistance(s, meters) {
        var d, e := ParseDistance(s).value.tenths, ParseDistance(t).value.tenths;
        assert d.scaled == e.scaled;
        assert ParseDistance(s) == Some(Kilometres(d)) == ParseDistance(t);
        ParseDistanceInjective(s, t);
      }
    }
  }

  /** Two texts that read as the same distance are the same text. */
  lemma {:induction false} ParseDistanceInjective(s: string, t: string)
    requires ParseDistance(s).Some? && ParseDistance(s) == ParseDistance(t)
    ensures s == t
  {
    if EndsWith(s, " km") {
      assert EndsWith(t, " km");
      ParseFixedInjective(s[..|s| - 3], t[..|t| - 3], 1);
      assert s == s[..|s| - 3] + " km" && t == t[..|t| - 3] + " km";
    } else {
      assert !EndsWith(t, " km") && EndsWith(t, " m");
      var n := ParseDistance(s).value.metres;
      IntToStringOnly(n, s[..|s| - 2]);
      IntToStringOnly(n, t[..|t| - 2]);
      assert s == s[..|s| - 2] + " m" && t == t[..|t| - 2] + " m";
    }
  }

  /** The unit is chosen by the threshold and by nothing else. */
  lemma FormatDistanceUnit(meters: real)
    ensures EndsWith(FormatDistance(meters), " m") <==> meters < KilometreThreshold
    ensures EndsWith(FormatDistance(meters), " km") <==> meters >= KilometreThreshold
  {
    var s := FormatDistance(meters);
    if meters < KilometreThreshold {
      FormatDistanceMetres(meters);
      var digits := IntToString(Round(meters));
      IntToStringEndsInDigit(Round(meters));
      assert s[|s| - 3] == digits[|digits| - 1];
    } else {
      assert s[|s| - 2] == 'k';
    }
  }

  lemma FormatDistance949()
    ensures FormatDistance(949.0) == "949 m"
  {
    assert Round(949.0) == 949;
    assert NatToString(9) == "9";
    assert NatToString(94) == "94";
    assert NatToString(949) == "949";
  }

  /** A distance just under the threshold still takes the metre branch and rounds up to 950. */
  lemma FormatDistance949Point5()
    ensures FormatDistance(949.5) == "950 m"
  {
    assert Round(949.5) == 950;
    assert NatToString(9) == "9";
    assert NatToString(95) == "95";
    assert NatToString(950) == "950";
  }

  /** Every distance from 949.5 m up to the threshold is written "950 m". */
  lemma FormatDistanceJustBelowThreshold(meters: real)
    requires 949.5 <= meters < KilometreThreshold
    ensures FormatDistance(meters) == "950 m"
  {
    assert Round(meters) == 950;
    assert NatToString(9) == "9";
    assert NatToString(95) == "95";
    assert NatToString(950) == "950";
  }

  /**
   * At the threshold itself the kilometre branch is taken. Over exact reals
   * 0.95 rounds half up to "1.0"; IEEE-754 doubles store 950 / 1000 just
   * below 0.95, where toFixed(1) writes "0.9".
   */
  lemma FormatDistance950()
    ensures EndsWith(FormatDistance(950.0), " km")
    ensures FormatDistance(950.0) == "1.0 km"
  {
    assert Scaled(0.95, 1) == 9.5;
    assert Round(9.5) == 10;
    assert NatToString(1) == "1";
    assert PaddedDigits(0, 1) == "0";
    assert FixedDigits(10, 1) == "1.0";
  }

  lemma FormatDistance1500()
    ensures FormatDistance(1500.0) == "1.5 km"
  {
    assert Scaled(1.5, 1) == 15.0;
    assert Round(15.0) == 15;
    assert NatToString(1) == "1";
    assert PaddedDigits(5, 1) == "5";
    assert FixedDigits(15, 1) == "1.5";
  }

  lemma FormatDistance2000()
    ensures FormatDistance(2000.0) == "2.0 km"
  {
    assert Scaled(2.0, 1) == 20.0;
    assert Round(20.0) == 20;
    assert NatToString(2) == "2";
    assert PaddedDigits(0, 1) == "0";
    assert FixedDigits(20, 1) == "2.0";
  }

  /** The coordinate line reads back as both coordinates rounded the way toFixed(5) rounds. */
  lemma FormatLatLngRoundTrip(position: LatLng)
    ensures var r := ParseLatLng(FormatLatLng(position));
            && r.Some?
            && IsFixedRounding(r.value.0, position.lat, 5)
            && IsFixedRounding(r.value.1, position.lng, 5)
  {
    var a, b := ToFixed(position.lat, 5), ToFixed(position.lng, 5);
    ToFixedRoundTrip(position.lat, 5);
    ToFixedRoundTrip(position.lng, 5);
    ParseCoordinates(a, b);
  }

  /**
   * formatLatLng writes the one line that reads back as both coordinates
   * rounded as toFixed(5) rounds them.
   */
  lemma {:induction false} FormatLatLngOnly(position: LatLng, s: string)
    ensures s == FormatLatLng(position) <==>
            var r := ParseLatLng(s);
            r.Some? && IsFixedRounding(r.value.0, position.lat, 5) && IsFixedRounding(r.value.1, position.lng, 5)
  {
    var t := FormatLatLng(position);
    FormatLatLngRoundTrip(position);
    var r := ParseLatLng(s);
    if r.Some? && IsFixedRounding(r.value.0, position.lat, 5) && IsFixedRounding(r.value.1, position.lng, 5) {
      var q := ParseLatLng(t).value;
      FixedRoundingUnique(r.value.0, q.0, position.lat, 5);
      FixedRoundingUnique(r.value.1, q.1, position.lng, 5);
      var a, b := LatLngParts(s);
      var a', b' := LatLngParts(t);
      ParseFixedInjective(a, a', 5);
      ParseFixedInjective(b, b', 5);
    }
  }

  /** A line ParseLatLng accepts, split into its two numbers. */
  lemma {:induction false} LatLngParts(s: string) returns (a: string, b: string)
    requires ParseLatLng(s).Some?
    ensures s == a + "°, " + b + "°"
    ensures ParseFixed(a, 5) == Some(ParseLatLng(s).value.0)
    ensures ParseFixed(b, 5) == Some(ParseLatLng(s).value.1)
  {
    var k := IndexOf(s, '°');
    assert k + 4 <= |s| && s[k..k + 3] == "°, " && s[|s| - 1] == '°';
    a, b := s[..k], s[k + 3..|s| - 1];
    assert ParseFixed(a, 5).Some? && ParseFixed(b, 5).Some?;
    assert s[..k + 3] == a + "°, " by { assert s[..k + 3] == s[..k] + s[k..k + 3]; }
    assert s[..|s| - 1] == a + "°, " + b by { assert s[..|s| - 1] == s[..k + 3] + s[k + 3..|s| - 1]; }
    assert s == s[..|s| - 1] + [s[|s| - 1]];
  }

  /** Two numbers without a degree sign, joined as formatLatLng joins them, are read back apart. */
  lemma ParseCoordinates(a: string, b: string)
    requires forall i | 0 <= i < |a| :: a[i] != '°'
    ensures ParseLatLng(a + "°, " + b + "°") == match (ParseFixed(a, 5), ParseFixed(b, 5))
                                               case (Some(lat), Some(lng)) => Some((lat, lng))
                                               case _ => None
  {
    var s := a + "°, " + b + "°";
    IndexOfAfter(a, "°, " + b + "°", '°');
    assert s == a + ("°, " + b + "°");
    var k := IndexOf(s, '°');
    assert s[k..k + 3] == "°, ";
    assert s[..k] == a;
    assert s[k + 3..|s| - 1] == b;
  }

  lemma {:induction false} IndexOfAfter(a: string, rest: string, c: char)
    requires forall i | 0 <= i < |a| :: a[i] != c
    requires rest != [] && rest[0] == c
    ensures IndexOf(a + rest, c) == |a|
  {
    if a != [] {
      assert (a + rest)[1..] == a[1..] + rest;
      IndexOfAfter(a[1..], rest, c);
    } else {
      assert a + rest == rest;
    }
  }
}
