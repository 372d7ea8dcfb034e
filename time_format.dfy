/**
 * The clock display: formatTime renders a signed millisecond count as
 * [-][hh:]mm:ss.mmm, splitting its magnitude into hours, minutes, seconds and
 * milliseconds by floor division and remainder.
 */
module TimeFormat {
  import opened Wrappers
  import opened Decimal

  const MsPerHour: nat := 3600000
  const MsPerMinute: nat := 60000
  const MsPerSecond: nat := 1000

  /** A duration split into its display fields. */
  datatype Fields = Fields(hours: nat, minutes: nat, seconds: nat, millis: nat)

  /** Fields as the decomposition leaves them: every field but hours stays below its carry. */
  predicate Canonical(f: Fields) {
    f.minutes < 60 && f.seconds < 60 && f.millis < 1000
  }

  /** The duration a set of fields stands for. */
  function Compose(f: Fields): nat {
    f.hours * MsPerHour + f.minutes * MsPerMinute + f.seconds * MsPerSecond + f.millis
  }

  /** Math.abs(ms): the magnitude, ms itself or its negation. */
  function Abs(ms: int): (a: nat)
    ensures a == ms || a == -ms
  {
    if ms < 0 then -ms else ms
  }

  /** The division steps of formatTime, applied to the magnitude of the input. */
  function Decompose(a: nat): (f: Fields)
    ensures Canonical(f) && Compose(f) == a
  {
    var rh := a % MsPerHour;
    var rm := rh % MsPerMinute;
    Fields(a / MsPerHour, rh / MsPerMinute, rm / MsPerSecond, rm % MsPerSecond)
  }

  /** The hours field, written only when there is at least one whole hour. */
  function HoursPart(h: nat): string {
    if h > 0 then PadStart(NatToString(h), 2) + ":" else ""
  }

  /** The always-present mm:ss.mmm part. */
  function ClockPart(f: Fields): string {
    PadStart(NatToString(f.minutes), 2) + ":" + PadStart(NatToString(f.seconds), 2) + "."
      + PadStart(NatToString(f.millis), 3)
  }

  /** formatTime(ms) */
  function FormatTime(ms: int): string {
    var f := Decompose(Abs(ms));
    (if ms < 0 then "-" else "") + Unsigned(f)
  }

  /** The rendering uses only digits and the three punctuation marks '-', ':' and '.'. */
  lemma FormatChars(ms: int)
    ensures forall c :: c in FormatTime(ms) ==> IsDigit(c) || c == '-' || c == ':' || c == '.'
  {
    var f := Decompose(Abs(ms));
    ClockPartChars(f);
    HoursPartChars(f.hours);
    FormatUnfolds(ms);
  }

  /** The rendering of a magnitude, given its fields: [hh:]mm:ss.mmm. */
  function Unsigned(f: Fields): string {
    HoursPart(f.hours) + ClockPart(f)
  }

  lemma ClockPartChars(f: Fields)
    ensures forall c :: c in ClockPart(f) ==> IsDigit(c) || c == ':' || c == '.'
  {
    var m, s, ms := PadStart(NatToString(f.minutes), 2), PadStart(NatToString(f.seconds), 2),
      PadStart(NatToString(f.millis), 3);
    SeparatedDigits(m, s, ms);
  }

  lemma SeparatedDigits(m: string, s: string, ms: string)
    requires AllDigits(m) && AllDigits(s) && AllDigits(ms)
    ensures forall c :: c in m + ":" + s + "." + ms ==> IsDigit(c) || c == ':' || c == '.'
  {
  }

  lemma HoursPartChars(h: nat)
    ensures forall c :: c in HoursPart(h) ==> IsDigit(c) || c == ':'
  {
    DigitsOnly(PadStart(NatToString(h), 2));
  }

  /** The decomposition is the only canonical one: Decompose inverts Compose. */
  lemma DecomposeCompose(f: Fields)
    requires Canonical(f)
    ensures Decompose(Compose(f)) == f
  {
    var rest := f.seconds * MsPerSecond + f.millis;
    var below := f.minutes * MsPerMinute + rest;
    assert (f.hours * 3600000 + below) / 3600000 == f.hours;
    assert (f.hours * 3600000 + below) % 3600000 == below;
    assert (f.minutes * 60000 + rest) / 60000 == f.minutes;
    assert (f.minutes * 60000 + rest) % 60000 == rest;
    assert (f.seconds * 1000 + f.millis) / 1000 == f.seconds;
    assert (f.seconds * 1000 + f.millis) % 1000 == f.millis;
  }

  /** The sign: a leading '-' exactly for negative inputs, followed by the rendering of the magnitude. */
  lemma FormatSign(ms: int)
    ensures var r := FormatTime(ms);
      0 < |r| && (r[0] == '-' <==> ms < 0)
    ensures FormatTime(ms) == (if ms < 0 then "-" else "") + Unsigned(Decompose(Abs(ms)))
    ensures ms < 0 ==> FormatTime(ms) == "-" + FormatTime(-ms)
  {
    FormatUnfolds(ms);
    UnsignedHasNoSign(Decompose(Abs(ms)));
    if ms < 0 {
      NegativeFormat(ms);
    }
  }

  lemma NegativeFormat(ms: int)
    requires ms < 0
    ensures FormatTime(ms) == "-" + FormatTime(-ms)
  {
    assert Abs(-ms) == Abs(ms);
    FormatUnfolds(ms);
    FormatUnfolds(-ms);
    SignGlued(FormatTime(ms), FormatTime(-ms), Unsigned(Decompose(Abs(ms))));
  }

  lemma SignGlued(neg: string, pos: string, u: string)
    requires neg == "-" + u && pos == "" + u
    ensures neg == "-" + pos
  {
    assert pos == u;
  }

  lemma FormatUnfolds(ms: int)
    ensures FormatTime(ms) == (if ms < 0 then "-" else "") + Unsigned(Decompose(Abs(ms)))
  {
  }

  lemma UnsignedHasNoSign(f: Fields)
    ensures 0 < |Unsigned(f)| && Unsigned(f)[0] != '-'
  {
    var hp, cp := HoursPart(f.hours), ClockPart(f);
    ClockPartChars(f);
    HoursPartChars(f.hours);
    NoSignInside(hp, cp);
  }

  lemma NoSignInside(hp: string, cp: string)
    requires 0 < |cp|
    requires forall c :: c in hp ==> IsDigit(c) || c == ':'
    requires forall c :: c in cp ==> IsDigit(c) || c == ':' || c == '.'
    ensures 0 < |hp + cp| && (hp + cp)[0] != '-'
  {
    assert (hp + cp)[0] in hp + cp;
  }

  /** For canonical fields mm:ss.mmm has nine characters, its fields at fixed places. */
  lemma ClockLayout(f: Fields)
    requires Canonical(f)
    ensures |ClockPart(f)| == 9 && ParseClock(ClockPart(f)) == Some(f.(hours := 0))
  {
    var m, s, ms := PadStart(NatToString(f.minutes), 2), PadStart(NatToString(f.seconds), 2),
      PadStart(NatToString(f.millis), 3);
    NatToStringFits(f.minutes, 2);
    NatToStringFits(f.seconds, 2);
    NatToStringFits(f.millis, 3);
    ValueOfNatToString(f.minutes);
    ValueOfNatToString(f.seconds);
    ValueOfNatToString(f.millis);
    Pieces(m, s, ms);
  }

  lemma Pieces(m: string, s: string, ms: string)
    requires |m| == 2 && |s| == 2 && |ms| == 3
    ensures var c := m + ":" + s + "." + ms;
      |c| == 9 && c[2] == ':' && c[5] == '.' && c[0..2] == m && c[3..5] == s && c[6..] == ms
  {
  }

  /**
   * An hours field, when present, is h padded to two digits and followed by
   * ':': three characters for h below 10, and otherwise h's own numeral, with
   * no leading zero.
   */
  lemma HoursLayout(h: nat)
    ensures var p := HoursPart(h);
      (p == "" <==> h == 0)
      && (h > 0 ==> 3 <= |p| && p[|p| - 1] == ':' && AllDigits(p[..|p| - 1]) && Value(p[..|p| - 1]) == h)
      && (0 < h < 10 ==> |p| == 3)
      && (10 <= h ==> p[0] != '0')
  {
    if h > 0 {
      var n := NatToString(h);
      var d := PadStart(n, 2);
      ValueOfNatToString(h);
      assert (d + ":")[..|d|] == d;
      if h < 10 {
        NatToStringFits(h, 1);
      } else {
        assert |n| >= 2;
        assert d == n;
        assert (d + ":")[0] == n[0];
      }
    }
  }

  /**
   * What comes before the last 9 characters of an unsigned rendering b of at
   * least 9 characters: nothing when h is 0, and otherwise a numeral denoting
   * h followed by ':' -- two digits below 10 hours, and with no leading zero
   * from 10 hours on.
   */
  predicate HoursShape(b: string, h: nat) {
    var n := |b|;
    && 9 <= n
    && (n == 9 <==> h == 0)
    && (h > 0 ==> 12 <= n && b[n - 10] == ':' && AllDigits(b[..n - 10]) && Value(b[..n - 10]) == h)
    && (0 < h < 10 ==> n == 12)
    && (10 <= h ==> b[0] != '0')
  }

  /** b is laid out as the unsigned rendering of f: [hh:]mm:ss.mmm with the clock part reading back as f's. */
  predicate Layout(b: string, f: Fields) {
    9 <= |b| && ParseClock(b[|b| - 9..]) == Some(f.(hours := 0)) && HoursShape(b, f.hours)
  }

  /**
   * The layout of the unsigned rendering: minutes and seconds in two digits
   * and milliseconds in three, at fixed places from the end, and an hours
   * field before a ':' exactly when there is a whole hour: two digits below
   * 10 hours, and otherwise the numeral of the hours with no leading zero.
   */
  lemma FormatFields(f: Fields)
    requires Canonical(f)
    ensures Layout(Unsigned(f), f)
  {
    ClockTail(f);
    HoursHead(f);
  }

  lemma ClockTail(f: Fields)
    requires Canonical(f)
    ensures var b := Unsigned(f);
      9 <= |b| && b[|b| - 9..] == ClockPart(f) && ParseClock(b[|b| - 9..]) == Some(f.(hours := 0))
  {
    ClockLayout(f);
    Split(HoursPart(f.hours), ClockPart(f));
  }

  lemma HoursHead(f: Fields)
    requires Canonical(f)
    ensures HoursShape(Unsigned(f), f.hours)
  {
    var hp, cp := HoursPart(f.hours), ClockPart(f);
    ClockLayout(f);
    HoursLayout(f.hours);
    JoinHours(f.hours, hp, cp);
    assert Unsigned(f) == hp + cp;
  }

  lemma JoinHours(h: nat, hp: string, cp: string)
    requires |cp| == 9 && (hp == "" <==> h == 0)
    requires h > 0 ==> 3 <= |hp| && hp[|hp| - 1] == ':' && AllDigits(hp[..|hp| - 1]) && Value(hp[..|hp| - 1]) == h
    requires 0 < h < 10 ==> |hp| == 3
    requires 10 <= h ==> hp[0] != '0'
    ensures HoursShape(hp + cp, h)
  {
    Split(hp, cp);
    if h > 0 {
      assert (hp + cp)[0] == hp[0];
    }
  }

  lemma Split(hp: string, cp: string)
    requires |cp| == 9
    ensures var b := hp + cp;
      b[|b| - 9..] == cp && (0 < |hp| ==> b[|b| - 10] == hp[|hp| - 1] && b[..|b| - 10] == hp[..|hp| - 1])
  {
  }

  /** Reads mm:ss.mmm back into minutes, seconds and milliseconds. */
  function ParseClock(c: string): Option<Fields>
    requires |c| == 9
  {
    if c[2] == ':' && c[5] == '.' && AllDigits(c[0..2]) && AllDigits(c[3..5]) && AllDigits(c[6..]) then
      Some(Fields(0, Value(c[0..2]), Value(c[3..5]), Value(c[6..])))
    else
      None
  }

  /** Reads [hh:]mm:ss.mmm back into a duration. */
  function ParseUnsigned(b: string): Option<nat> {
    var n := |b|;
    if n < 9 || (n > 9 && (n < 12 || b[n - 10] != ':' || !AllDigits(b[..n - 10]))) then None
    else
      match ParseClock(b[n - 9..])
      case None => None
      case Some(f) => Some(Compose(f.(hours := if n == 9 then 0 else Value(b[..n - 10]))))
  }

  /** Reads a rendering [-][hh:]mm:ss.mmm back into a signed millisecond count. */
  function ParseTime(t: string): Option<int> {
    if 0 < |t| && t[0] == '-' then
      match ParseUnsigned(t[1..])
      case None => None
      case Some(a) => Some(-(a as int))
    else
      ParseUnsigned(t)
  }

  /** Nothing is lost in the display: the rendering determines the millisecond count. */
  lemma FormatParse(ms: int)
    ensures ParseTime(FormatTime(ms)) == Some(ms)
  {
    var f := Decompose(Abs(ms));
    var u := Unsigned(f);
    FormatSign(ms);
    UnsignedParse(f);
    var t := FormatTime(ms);
    if ms < 0 {
      assert t[1..] == u;
    } else {
      assert t == u;
    }
  }

  lemma UnsignedParse(f: Fields)
    requires Canonical(f)
    ensures ParseUnsigned(Unsigned(f)) == Some(Compose(f))
  {
    FormatFields(f);
    ReadBack(Unsigned(f), f);
  }

  lemma ReadBack(b: string, f: Fields)
    requires Layout(b, f)
    ensures ParseUnsigned(b) == Some(Compose(f))
  {
    var n := |b|;
    ParseUnsignedIs(b, f.(hours := 0));
    assert f.(hours := 0).(hours := if n == 9 then 0 else Value(b[..n - 10])) == f;
  }

  /** ParseUnsigned on a well-shaped rendering whose clock part reads back as g. */
  lemma ParseUnsignedIs(b: string, g: Fields)
    requires var n := |b|;
      && 9 <= n && ParseClock(b[n - 9..]) == Some(g)
      && (n != 9 ==> 12 <= n && b[n - 10] == ':' && AllDigits(b[..n - 10]))
    ensures var n := |b|;
      ParseUnsigned(b) == Some(Compose(g.(hours := if n == 9 then 0 else Value(b[..n - 10]))))
  {
  }

  /** The clock part assembled from its three padded fields, for the worked examples below. */
  lemma ClockIs(f: Fields, mm: string, ss: string, mmm: string)
    requires mm == PadStart(NatToString(f.minutes), 2) && ss == PadStart(NatToString(f.seconds), 2)
    requires mmm == PadStart(NatToString(f.millis), 3)
    ensures ClockPart(f) == mm + ":" + ss + "." + mmm
  {
  }

  lemma FormatZero()
    ensures FormatTime(0) == "00:00.000"
  {
    var f := Fields(0, 0, 0, 0);
    assert Decompose(0) == f;
    ZeroPadded();
    ZeroPadded3();
    ClockIs(f, "00", "00", "000");
    ZeroGlued(ClockPart(f), "00", "00", "000");
    FormatUnfolds(0);
  }

  lemma ZeroGlued(x: string, mm: string, ss: string, mmm: string)
    requires x == mm + ":" + ss + "." + mmm && mm == "00" && ss == "00" && mmm == "000"
    ensures x == "00:00.000"
  {
  }

  lemma FormatHourMinuteSecond()
    ensures FormatTime(3661000) == "01:01:01.000"
  {
    var f := Fields(1, 1, 1, 0);
    HourMinuteSecondFields();
    OnePadded();
    ZeroPadded3();
    ClockIs(f, "01", "01", "000");
    FormatUnfolds(3661000);
    HoursGlued(FormatTime(3661000), HoursPart(1), ClockPart(f));
  }

  lemma HourMinuteSecondFields()
    ensures Decompose(3661000) == Fields(1, 1, 1, 0)
  {
  }

  lemma OnePadded()
    ensures PadStart(NatToString(1), 2) == "01"
  {
    var d := NatToString(1);
    assert d == "1";
    PadOne(d);
  }

  lemma PadOne(d: string)
    requires d == "1"
    ensures PadStart(d, 2) == "01"
  {
    var r := PadStart(d, 2);
    assert r == [r[0]] + r[1..];
  }

  lemma HoursGlued(x: string, hh: string, c: string)
    requires x == "" + (hh + c) && hh == "01:" && c == "01" + ":" + "01" + "." + "000"
    ensures x == "01:01:01.000"
  {
  }

  lemma FormatHalfSecond()
    ensures FormatTime(500) == "00:00.500"
  {
    var f := Fields(0, 0, 0, 500);
    assert Decompose(500) == f;
    HalfSecondClock();
    FormatUnfolds(500);
  }

  lemma HalfSecondClock()
    ensures ClockPart(Fields(0, 0, 0, 500)) == "00:00.500"
  {
    ZeroPadded();
    FiveHundred();
    ClockIs(Fields(0, 0, 0, 500), "00", "00", "500");
    HalfSecondGlued(ClockPart(Fields(0, 0, 0, 500)), "00", "00", "500");
  }

  lemma HalfSecondGlued(x: string, mm: string, ss: string, mmm: string)
    requires x == mm + ":" + ss + "." + mmm && mm == "00" && ss == "00" && mmm == "500"
    ensures x == "00:00.500"
  {
  }

  lemma ZeroPadded()
    ensures PadStart(NatToString(0), 2) == "00"
  {
    var z := NatToString(0);
    assert z == "0";
    PadZero(z, 2, "00");
  }

  lemma ZeroPadded3()
    ensures PadStart(NatToString(0), 3) == "000"
  {
    var z := NatToString(0);
    assert z == "0";
    PadZero(z, 3, "000");
  }

  lemma PadZero(z: string, w: nat, r: string)
    requires z == "0" && 0 < w && |r| == w && forall i :: 0 <= i < w ==> r[i] == '0'
    ensures PadStart(z, w) == r
  {
  }

  lemma FiveHundred()
    ensures PadStart(NatToString(500), 3) == "500"
  {
    assert NatToString(5) == "5";
    assert NatToString(50) == "50";
  }

  lemma FormatNegativeHalfSecond()
    ensures FormatTime(-500) == "-00:00.500"
  {
    FormatHalfSecond();
    NegativeFormat(-500);
    Signed(FormatTime(-500), FormatTime(500));
  }

  lemma Signed(x: string, y: string)
    requires x == "-" + y && y == "00:00.500"
    ensures x == "-00:00.500"
  {
  }
}
