/**
  Lap-time conversion (`get_lap_time_sec` in raceroom.py together with the
  `.split('s')[0].split('m ')` that precedes each call). A time is carried
  as a whole number of thousandths of a second instead of a float, so the
  arithmetic `minutes * 60 + seconds` and the three-decimal rendering are
  exact.
 */
module LapTime {
  import opened Wrappers
  import opened Strings

  /**
    Python's `float(text)` for a plain decimal `[digits][.digits]` (at least
    one digit in all), in thousandths. A value with more than three decimal
    places, or any other text, is refused.
   */
  function ParseDecimal(text: string): Option<nat> {
    var parts := Split(text, ".");
    if |parts| == 1 then
      if |parts[0]| > 0 && AllDigits(parts[0]) then Some(DigitsValue(parts[0]) * 1000) else None
    else if |parts| == 2 then
      var whole, frac := parts[0], parts[1];
      if AllDigits(whole) && AllDigits(frac) && |whole| + |frac| > 0 && |frac| <= 3
      then Some(DigitsValue(whole) * 1000 + DigitsValue(frac + "000"[..3 - |frac|]))
      else None
    else None
  }

  /** The three decimal digits of a number of thousandths below one second. */
  function Pad3(r: nat): (s: string)
    requires r < 1000
    ensures |s| == 3 && AllDigits(s)
  {
    [DigitChar(r / 100), DigitChar(r / 10 % 10), DigitChar(r % 10)]
  }

  /** Python's `'{:.3f}'.format(t / 1000)`. */
  function FixedPoint3(t: nat): string {
    NatToString(t / 1000) + "." + Pad3(t % 1000)
  }

  /** Python's `s.replace(from, to)` for single characters. */
  function ReplaceChar(s: string, from: char, to: char): (r: string)
    ensures |r| == |s|
    ensures forall i :: 0 <= i < |s| ==> r[i] == if s[i] == from then to else s[i]
  {
    if |s| == 0 then [] else [if s[0] == from then to else s[0]] + ReplaceChar(s[1..], from, to)
  }

  /** The text written to the sheet: three decimals and a comma for the decimal point. */
  function Format(t: nat): (s: string)
    ensures |s| >= 5 && s[|s| - 4] == ','
    ensures AllDigits(s[..|s| - 4]) && AllDigits(s[|s| - 3..])
  {
    var r := ReplaceChar(FixedPoint3(t), '.', ',');
    assert r[..|r| - 4] == NatToString(t / 1000);
    assert r[|r| - 3..] == Pad3(t % 1000);
    r
  }

  /**
    The number `get_lap_time_sec` formats, in thousandths:
    `float(minutes) * 60 + float(seconds)` for two parts, `float(parts[0])`
    otherwise.
   */
  function LapTimeValue(parts: seq<string>): Option<nat>
    requires |parts| >= 1
  {
    if |parts| == 2 then
      match (ParseDecimal(parts[0]), ParseDecimal(parts[1]))
      case (Some(minutes), Some(seconds)) => Some(minutes * 60 + seconds)
      case _ => None
    else ParseDecimal(parts[0])
  }

  /** `get_lap_time_sec`: the value above, written with three decimals and a comma. */
  function LapTimeSec(parts: seq<string>): Option<string>
    requires |parts| >= 1
  {
    match LapTimeValue(parts)
    case Some(t) => Some(Format(t))
    case None => None
  }

  /** The cut `laptime.split('s')[0].split('m ')` that `get_data` applies before each conversion. */
  function LapTimeParts(laptime: string): (parts: seq<string>)
    ensures |parts| >= 1
  {
    Split(Split(laptime, "s")[0], "m ")
  }

  /** The time `get_data` reads from a leaderboard entry, in thousandths. */
  function ParseLapTime(laptime: string): Option<nat> {
    LapTimeValue(LapTimeParts(laptime))
  }

  /** `get_lap_time_sec(laptime.split('s')[0].split('m '))`, as `get_data` calls it. */
  function ConvertLapTime(laptime: string): Option<string> {
    LapTimeSec(LapTimeParts(laptime))
  }

  // ---------------------------------------------------------------------------
  // Properties
  // ---------------------------------------------------------------------------

  lemma DigitsDigitValue(c: char)
    requires IsDigit(c)
    ensures DigitsValue([c]) == DigitValue(c)
  {
    assert [c][..0] == [];
  }

  lemma Pad3Value(r: nat)
    requires r < 1000
    ensures DigitsValue(Pad3(r)) == r
  {
    var s := Pad3(r);
    assert s[..2][..1] == [s[0]];
    DigitsDigitValue(s[0]);
    assert s[..2] == s[..|s| - 1][..2];
  }

  /** Reading back the three-decimal rendering gives the same number of thousandths. */
  lemma FixedPointRoundTrip(t: nat)
    ensures ParseDecimal(FixedPoint3(t)) == Some(t)
  {
    var whole, frac := NatToString(t / 1000), Pad3(t % 1000);
    assert FixedPoint3(t) == whole + "." + frac;
    NatToStringRoundTrip(t / 1000);
    Pad3Value(t % 1000);
    ParseFraction(whole, frac);
  }

  /** Undoing the comma gives back the number the text was rendered from. */
  lemma {:induction false} FormatRoundTrip(t: nat)
    ensures ParseDecimal(ReplaceChar(Format(t), ',', '.')) == Some(t)
  {
    var f := FixedPoint3(t);
    assert forall i :: 0 <= i < |f| ==> f[i] != ',' by {
      assert f == NatToString(t / 1000) + "." + Pad3(t % 1000);
    }
    assert ReplaceChar(Format(t), ',', '.') == f;
    FixedPointRoundTrip(t);
  }

  /** Different times are written differently. */
  lemma FormatInjective(t: nat, u: nat)
    requires Format(t) == Format(u)
    ensures t == u
  {
    FormatRoundTrip(t);
    FormatRoundTrip(u);
  }

  lemma ParseWhole(s: string)
    requires |s| > 0 && AllDigits(s)
    ensures ParseDecimal(s) == Some(DigitsValue(s) * 1000)
  {
    SplitNone(s, ".");
  }

  lemma ParseFraction(s: string, f: string)
    requires |s| > 0 && AllDigits(s) && |f| == 3 && AllDigits(f)
    ensures ParseDecimal(s + "." + f) == Some(DigitsValue(s) * 1000 + DigitsValue(f))
  {
    SplitAround(s, f, ".");
    ParseThreeDecimals(s + "." + f, s, f);
  }

  lemma ParseFractionTo(s: string, f: string, x: nat)
    requires |s| > 0 && AllDigits(s) && |f| == 3 && AllDigits(f)
    requires x == DigitsValue(s) * 1000 + DigitsValue(f)
    ensures ParseDecimal(s + "." + f) == Some(x)
  {
    // Folded to keep the proof small: the steps below use these definitions only through their contracts and lemmas.
    hide ParseDecimal;
    ParseFraction(s, f);
  }

  lemma ParseThreeDecimals(text: string, whole: string, frac: string)
    requires Split(text, ".") == [whole, frac]
    requires AllDigits(whole) && AllDigits(frac) && |frac| == 3
    ensures ParseDecimal(text) == Some(DigitsValue(whole) * 1000 + DigitsValue(frac))
  {
    // Folded to keep the proof small: the steps below use these definitions only through their contracts and lemmas.
    hide DigitsValue;
    assert frac + "000"[..3 - |frac|] == frac;
  }

  /** Cutting off the trailing `s` of a lap time that has no other `s`. */
  lemma StripSeconds(x: string)
    requires forall i :: 0 <= i < |x| ==> x[i] != 's'
    ensures Split(x + "s", "s")[0] == x
  {
    SplitAround(x, "", "s");
    assert x + "s" + "" == x + "s";
  }

  lemma NoCharIn(m: string, s: string, f: string, c: char)
    requires AllDigits(m) && AllDigits(s) && AllDigits(f)
    requires !IsDigit(c) && c != '.' && c != 'm' && c != ' '
    ensures forall i :: 0 <= i < |m + "m " + s + "." + f| ==> (m + "m " + s + "." + f)[i] != c
  {
    var t := m + "m " + s + "." + f;
    forall i | 0 <= i < |t|
      ensures t[i] != c
    {
      if i < |m| { assert t[i] == m[i]; }
      else if i < |m| + 2 { }
      else if i < |m| + 2 + |s| { assert t[i] == s[i - |m| - 2]; }
      else if i == |m| + 2 + |s| { }
      else { assert t[i] == f[i - |m| - 3 - |s|]; }
    }
  }

  lemma NoCharInSeconds(s: string, f: string, c: char)
    requires AllDigits(s) && AllDigits(f)
    requires !IsDigit(c) && c != '.'
    ensures forall i :: 0 <= i < |s + "." + f| ==> (s + "." + f)[i] != c
  {
    var t := s + "." + f;
    forall i | 0 <= i < |t|
      ensures t[i] != c
    {
      if i < |s| { assert t[i] == s[i]; }
      else if i == |s| { }
      else { assert t[i] == f[i - |s| - 1]; }
    }
  }

  /** The text `get_data` writes is the formatted time it reads. */
  lemma ConvertIsFormatted(laptime: string)
    ensures ConvertLapTime(laptime) == if ParseLapTime(laptime).Some? then Some(Format(ParseLapTime(laptime).value)) else None
  {
  }

  lemma PairValue(a: string, b: string, minutes: nat, seconds: nat, t: nat)
    requires ParseDecimal(a) == Some(minutes) && ParseDecimal(b) == Some(seconds)
    requires t == minutes * 60 + seconds
    ensures LapTimeValue([a, b]) == Some(t)
  {
  }

  /** The text of a lap time with minutes is cut into `[minutes, seconds]`. */
  lemma SplitMinutes(m: string, s: string, f: string)
    requires AllDigits(m) && AllDigits(s) && AllDigits(f)
    ensures Split(Split(m + "m " + s + "." + f + "s", "s")[0], "m ") == [m, s + "." + f]
  {
    var sec := s + "." + f;
    var text := m + "m " + s + "." + f;
    NoCharIn(m, s, f, 's');
    StripSeconds(text);
    assert text == m + "m " + sec;
    NoCharInSeconds(s, f, 'm');
    SplitAround(m, sec, "m ");
  }

  /** The text of a lap time under a minute stays in one piece. */
  lemma SplitSecondsOnly(s: string, f: string)
    requires AllDigits(s) && AllDigits(f)
    ensures Split(Split(s + "." + f + "s", "s")[0], "m ") == [s + "." + f]
  {
    var sec := s + "." + f;
    NoCharInSeconds(s, f, 's');
    StripSeconds(sec);
    NoCharInSeconds(s, f, 'm');
    SplitNone(sec, "m ");
  }

  lemma MinutesValue(m: string, s: string, f: string, t: nat)
    requires |m| > 0 && AllDigits(m)
    requires |s| > 0 && AllDigits(s)
    requires |f| == 3 && AllDigits(f)
    requires t == (DigitsValue(m) * 60 + DigitsValue(s)) * 1000 + DigitsValue(f)
    ensures LapTimeValue([m, s + "." + f]) == Some(t)
  {
    ParseWhole(m);
    ParseFraction(s, f);
    PairValue(m, s + "." + f, DigitsValue(m) * 1000, DigitsValue(s) * 1000 + DigitsValue(f), t);
  }

  lemma SecondsValue(s: string, f: string, t: nat)
    requires |s| > 0 && AllDigits(s)
    requires |f| == 3 && AllDigits(f)
    requires t == DigitsValue(s) * 1000 + DigitsValue(f)
    ensures LapTimeValue([s + "." + f]) == Some(t)
  {
    ParseFractionTo(s, f, t);
  }

  /**
    `"<M>m <S>.<fff>s"` converts to `M * 60 + S` seconds with the three
    decimals `fff`; `t` is that time in thousandths.
   */
  lemma ConvertMinutes(m: string, s: string, f: string, t: nat)
    requires |m| > 0 && AllDigits(m)
    requires |s| > 0 && AllDigits(s)
    requires |f| == 3 && AllDigits(f)
    requires t == (DigitsValue(m) * 60 + DigitsValue(s)) * 1000 + DigitsValue(f)
    ensures ParseLapTime(m + "m " + s + "." + f + "s") == Some(t)
    ensures ConvertLapTime(m + "m " + s + "." + f + "s") == Some(Format(t))
  {
    SplitMinutes(m, s, f);
    MinutesValue(m, s, f, t);
  }

  /** `"<S>.<fff>s"` converts to `S` seconds with the three decimals `fff`. */
  lemma ConvertSeconds(s: string, f: string, t: nat)
    requires |s| > 0 && AllDigits(s)
    requires |f| == 3 && AllDigits(f)
    requires t == DigitsValue(s) * 1000 + DigitsValue(f)
    ensures ParseLapTime(s + "." + f + "s") == Some(t)
    ensures ConvertLapTime(s + "." + f + "s") == Some(Format(t))
  {
    SplitSecondsOnly(s, f);
    SecondsValue(s, f, t);
  }

  lemma SmallValues()
    ensures DigitsValue("1") == 1 && DigitsValue("23") == 23 && DigitsValue("456") == 456
    ensures DigitsValue("45") == 45 && DigitsValue("100") == 100
  {
    DigitsDigitValue('1');
    DigitsDigitValue('2');
    DigitsDigitValue('4');
    assert "23"[..1] == "2";
    assert "45"[..1] == "4";
    assert "456"[..2] == "45";
    assert "100"[..2] == "10";
    assert "10"[..1] == "1";
  }

  /** The text written is the whole seconds, a comma, and the three decimals. */
  lemma FormatParts(t: nat)
    ensures Format(t) == NatToString(t / 1000) + "," + Pad3(t % 1000)
  {
    var w, f := NatToString(t / 1000), Pad3(t % 1000);
    var r, e := Format(t), w + "," + f;
    assert FixedPoint3(t) == w + "." + f;
    forall i | 0 <= i < |r|
      ensures r[i] == e[i]
    {
      if i < |w| {
        assert FixedPoint3(t)[i] == w[i];
      } else if i > |w| {
        assert FixedPoint3(t)[i] == f[i - |w| - 1];
      }
    }
  }

  lemma SmallFormats()
    ensures Format(83456) == "83,456" && Format(45100) == "45,100"
  {
    // Folded to keep the proof small: the steps below use these definitions only through their contracts and lemmas.
    hide Format;
    FormatParts(83456);
    FormatParts(45100);
    assert NatToString(83) == "83" && Pad3(456) == "456";
    assert NatToString(45) == "45" && Pad3(100) == "100";
  }

  /** The worked examples: a time over a minute and one under it. */
  lemma ConvertExample()
    ensures ConvertLapTime("1m 23.456s") == Some("83,456")
    ensures ConvertLapTime("45.100s") == Some("45,100")
  {
    // Folded to keep the proof small: the steps below use these definitions only through their contracts and lemmas.
    hide Format;
    hide DigitsValue;
    hide ParseLapTime;
    hide ConvertLapTime;
    SmallValues();
    SmallFormats();
    assert "1" + "m " + "23" + "." + "456" + "s" == "1m 23.456s";
    assert "45" + "." + "100" + "s" == "45.100s";
    ConvertMinutes("1", "23", "456", 83456);
    ConvertSeconds("45", "100", 45100);
  }

  /** Two times of about a minute, written as leaderboard entries write them. */
  lemma MinuteTimes()
    ensures ParseLapTime("1m 00.000s") == Some(60000)
    ensures ParseLapTime("1m 01.000s") == Some(61000)
  {
    DigitsDigitValue('0');
    DigitsDigitValue('1');
    assert "00"[..1] == "0";
    assert "01"[..1] == "0";
    assert "000"[..2] == "00";
    assert "1" + "m " + "00" + "." + "000" + "s" == "1m 00.000s";
    assert "1" + "m " + "01" + "." + "000" + "s" == "1m 01.000s";
    ConvertMinutes("1", "00", "000", 60000);
    ConvertMinutes("1", "01", "000", 61000);
  }
}
