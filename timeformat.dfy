/** `seconds_to_time` in race_analysis_app.py: a seconds count rendered as
    HH:MM:SS by floor division, or "N/A" when the value is missing. */
module TimeFormat {
  import opened Wrappers
  import opened PyNum
  import opened Text

  /** The three numbers the formatter prints. */
  datatype Clock = Clock(hours: int, minutes: int, seconds: int)

  /** hours = `int(s // 3600)`, minutes = `int((s % 3600) // 60)`,
      seconds = `int(s % 60)`, with Python's flooring `//` and `%`. */
  function ClockParts(s: real): (c: Clock)
    ensures c.hours * 3600 + c.minutes * 60 + c.seconds == s.Floor
    ensures 0 <= c.minutes < 60 && 0 <= c.seconds < 60
    ensures 0.0 <= s ==> 0 <= c.hours
  {
    var h := FloorDiv(s, 3600.0);
    var rest := FloatMod(s, 3600.0);
    var m := FloorDiv(rest, 60.0);
    var sixty := FloatMod(s, 60.0);
    // s // 60 is the whole minutes of s: 60 per hour plus those of the remainder
    FloorDivUnique(s, 60.0, 60 * h + m);
    var frac := sixty;
    assert frac == rest - 60.0 * m as real;
    FloorUnique(s, h * 3600 + m * 60 + frac.Floor);
    Clock(h, m, Trunc(sixty))
  }

  function DigitChar(d: int): (c: char)
    requires 0 <= d < 10
    ensures '0' <= c <= '9' && (c as int) - ('0' as int) == d
  {
    (('0' as int) + d) as char
  }

  /** The number a string of decimal digits spells. */
  function DigitsValue(s: string): (n: nat)
    requires AllDigits(s)
  {
    if s == [] then 0
    else DigitsValue(s[..|s| - 1]) * 10 + ((s[|s| - 1] as int) - ('0' as int))
  }

  /** Decimal rendering of a natural number, without leading zeros. */
  function NatToString(n: nat): (r: string)
    ensures |r| >= 1 && AllDigits(r) && DigitsValue(r) == n
    ensures |r| > 1 ==> r[0] != '0'
    ensures n < 10 <==> |r| == 1
  {
    if n < 10 then [DigitChar(n)]
    else
      var r := NatToString(n / 10) + [DigitChar(n % 10)];
      assert r[..|r| - 1] == NatToString(n / 10);
      r
  }

  /** Python's `{n:02d}`: at least two characters, zero-padded; a negative
      number keeps its sign, which already fills the width. */
  function Pad2(n: int): (r: string)
    ensures 0 <= n ==> |r| >= 2 && AllDigits(r) && DigitsValue(r) == n
    ensures 0 <= n < 100 ==> |r| == 2
    ensures 10 <= n ==> r[0] != '0'
    ensures n < 0 ==> r == "-" + NatToString(-n)
  {
    if n < 0 then "-" + NatToString(-n)
    else if n < 10 then
      var r := "0" + NatToString(n);
      assert r[..1] == "0";
      r
    else NatToString(n)
  }

  /** `seconds_to_time`. */
  function SecondsToTime(seconds: Option<real>): (r: string)
    ensures seconds.None? ==> r == "N/A"
    ensures seconds.Some? ==> r != "N/A" && |r| >= 8
  {
    match seconds
    case None => "N/A"
    case Some(s) =>
      var c := ClockParts(s);
      Pad2(c.hours) + ":" + Pad2(c.minutes) + ":" + Pad2(c.seconds)
  }

  /** Reads an "H:MM:SS" string back: everything before the last six characters
      is the hours, then two-digit minutes and seconds. */
  function ParseClock(r: string): Option<Clock> {
    if |r| < 8 || r[|r| - 6] != ':' || r[|r| - 3] != ':' then None
    else
      var h := r[..|r| - 6];
      var m := r[|r| - 5..|r| - 3];
      var s := r[|r| - 2..];
      if AllDigits(h) && AllDigits(m) && AllDigits(s) then
        Some(Clock(DigitsValue(h), DigitsValue(m), DigitsValue(s)))
      else None
  }

  /** For a present, non-negative value the rendered text reads back as the
      clock parts, so it shows exactly floor(s) seconds, with minutes and
      seconds below 60 in two digits. */
  lemma ClockRoundTrip(s: real)
    requires 0.0 <= s
    ensures ParseClock(SecondsToTime(Some(s))) == Some(ClockParts(s))
    ensures var c := ParseClock(SecondsToTime(Some(s))).value;
      c.hours * 3600 + c.minutes * 60 + c.seconds == s.Floor &&
      0 <= c.minutes < 60 && 0 <= c.seconds < 60
  {
    var c := ClockParts(s);
    ParseJoined(Pad2(c.hours), Pad2(c.minutes), Pad2(c.seconds));
  }

  /** Digit fields joined by colons, the last two of width two, read back as
      the numbers they spell. */
  lemma ParseJoined(h: string, m: string, sec: string)
    requires |h| >= 2 && |m| == 2 && |sec| == 2
    requires AllDigits(h) && AllDigits(m) && AllDigits(sec)
    ensures ParseClock(h + ":" + m + ":" + sec)
         == Some(Clock(DigitsValue(h), DigitsValue(m), DigitsValue(sec)))
  {
    JoinedFields(h, m, sec);
  }

  /** Where the fields and colons of `h:m:sec` sit, for two-character `m` and `sec`. */
  lemma JoinedFields(h: string, m: string, sec: string)
    requires |m| == 2 && |sec| == 2
    ensures var r := h + ":" + m + ":" + sec;
      && |r| == |h| + 6 && r[|r| - 6] == ':' && r[|r| - 3] == ':'
      && r[..|r| - 6] == h && r[|r| - 5..|r| - 3] == m && r[|r| - 2..] == sec
  {
    var a := h + ":";
    var b := a + m;
    var c := b + ":";
    var r := c + sec;
    assert r[..|c|] == c && r[|c|..] == sec;
    assert c[..|b|] == b && b[..|a|] == a && b[|a|..] == m && a[..|h|] == h;
    assert r[..|h|] == h by {
      assert r[..|h|] == r[..|c|][..|b|][..|a|][..|h|];
    }
    assert r[|a|..|b|] == m by {
      assert r[|a|..|b|] == r[..|c|][..|b|][|a|..];
    }
  }

  /** 3725.9 seconds is 1 hour, 2 minutes and 5 whole seconds: "01:02:05". */
  lemma ExampleClock()
    ensures SecondsToTime(Some(3725.9)) == "01:02:05"
  {
    var c := ClockParts(3725.9);
    assert c.hours * 3600 + c.minutes * 60 + c.seconds == 3725;
    assert c == Clock(1, 2, 5);
    assert NatToString(1) == "1";
    assert NatToString(2) == "2";
    assert NatToString(5) == "5";
  }

  /** A negative value still yields minutes and seconds in 0..59 (they floor),
      with a signed hour field: -1.5 seconds renders as "-1:59:58". */
  lemma ExampleNegativeClock()
    ensures SecondsToTime(Some(-1.5)) == "-1:59:58"
  {
    var c := ClockParts(-1.5);
    assert c.hours * 3600 + c.minutes * 60 + c.seconds == -2;
    assert c == Clock(-1, 59, 58);
    assert NatToString(1) == "1";
    assert NatToString(59) == "59";
    assert NatToString(58) == "58";
  }
}
