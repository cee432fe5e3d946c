/** The `m:ss` rendering of a playback position or duration (`formatTime`),
    over whole seconds, together with a reader for that rendering. */
module TimeFormat {
  import opened Options

  predicate IsDigit(c: char) {
    '0' <= c <= '9'
  }

  predicate AllDigits(s: string) {
    forall i :: 0 <= i < |s| ==> IsDigit(s[i])
  }

  function DigitChar(d: nat): (c: char)
    requires d < 10
    ensures IsDigit(c)
  {
    ('0' as int + d) as char
  }

  function DigitValue(c: char): (d: nat)
    requires IsDigit(c)
    ensures d < 10
  {
    c as int - '0' as int
  }

  /** The decimal numeral of `n`, as JavaScript's template literal writes an
      integer: no sign and no leading zero. */
  function Decimal(n: nat): (s: string)
    ensures |s| >= 1 && AllDigits(s)
    ensures s[0] == '0' ==> n == 0
    ensures n < 10 <==> |s| == 1
    decreases n
  {
    if n < 10 then [DigitChar(n)] else Decimal(n / 10) + [DigitChar(n % 10)]
  }

  /** The number a string of decimal digits denotes. */
  function DecimalValue(s: string): nat
    requires AllDigits(s)
  {
    if s == [] then 0 else DecimalValue(s[..|s| - 1]) * 10 + DigitValue(s[|s| - 1])
  }

  lemma {:induction false} DecimalRoundTrip(n: nat)
    ensures DecimalValue(Decimal(n)) == n
    decreases n
  {
    if n >= 10 {
      var s := Decimal(n);
      assert s[..|s| - 1] == Decimal(n / 10);
      DecimalRoundTrip(n / 10);
    }
  }

  /** The seconds field: the numeral, with a "0" in front when it has one digit. */
  function PadSeconds(sec: nat): (s: string)
    requires sec < 60
    ensures |s| == 2 && AllDigits(s)
    ensures s[0] == '0' <==> sec < 10
    ensures DecimalValue(s) == sec
  {
    DecimalRoundTrip(sec);
    if sec < 10 then
      assert ("0" + Decimal(sec))[..1] == "0";
      "0" + Decimal(sec)
    else
      Decimal(sec)
  }

  /** `formatTime(time)` for a whole number of seconds: minutes, a colon, and
      the remaining seconds as two digits. */
  function FormatTime(t: nat): (r: string)
    ensures |r| == |Decimal(t / 60)| + 3 && r[|r| - 3] == ':'
    ensures r[|r| - 2] == '0' <==> t % 60 < 10
  {
    Decimal(t / 60) + ":" + PadSeconds(t % 60)
  }

  /** Position of the first ':' in `s` at or after `from`. */
  function FindColon(s: string, from: nat): (r: Option<nat>)
    requires from <= |s|
    ensures r.Some? ==> from <= r.value < |s| && s[r.value] == ':'
    ensures r.Some? ==> forall k :: from <= k < r.value ==> s[k] != ':'
    ensures r.None? ==> forall k :: from <= k < |s| ==> s[k] != ':'
    decreases |s| - from
  {
    if from == |s| then None
    else if s[from] == ':' then Some(from)
    else FindColon(s, from + 1)
  }

  /** Reads an `m:ss` string back into seconds; None for anything else. */
  function ParseTime(s: string): Option<nat> {
    match FindColon(s, 0)
    case None => None
    case Some(c) =>
      var minutes := s[..c];
      var seconds := s[c + 1..];
      if |minutes| >= 1 && AllDigits(minutes) && |seconds| == 2 && AllDigits(seconds)
         && DecimalValue(seconds) < 60
      then Some(DecimalValue(minutes) * 60 + DecimalValue(seconds))
      else None
  }

  /** A numeral, a colon and a two-digit seconds field read back as their value. */
  lemma ParseTimeFields(m: string, sec: string)
    requires |m| >= 1 && AllDigits(m)
    requires |sec| == 2 && AllDigits(sec) && DecimalValue(sec) < 60
    ensures ParseTime(m + ":" + sec) == Some(DecimalValue(m) * 60 + DecimalValue(sec))
  {
    var s := m + ":" + sec;
    assert s[|m|] == ':';
    assert forall k :: 0 <= k < |m| ==> s[k] == m[k] && IsDigit(m[k]);
    assert FindColon(s, 0) == Some(|m|);
    assert s[..|m|] == m;
    assert s[|m| + 1..] == sec;
  }

  /** The rendering loses nothing: reading it back gives the same seconds. */
  lemma FormatTimeRoundTrip(t: nat)
    ensures ParseTime(FormatTime(t)) == Some(t)
  {
    ParseTimeFields(Decimal(t / 60), PadSeconds(t % 60));
    DecimalRoundTrip(t / 60);
  }

  /** Distinct durations are rendered differently. */
  lemma FormatTimeInjective(t: nat, u: nat)
    requires FormatTime(t) == FormatTime(u)
    ensures t == u
  {
    FormatTimeRoundTrip(t);
    FormatTimeRoundTrip(u);
  }

  /** The shape of the rendering: minutes without padding, one colon, and a
      two-digit seconds field that carries a leading "0" exactly below ten. */
  lemma FormatTimeShape(t: nat)
    ensures var s := FormatTime(t);
      var m := Decimal(t / 60);
      |s| == |m| + 3 && s[..|m|] == m && s[|m|] == ':' &&
      DecimalValue(m) == t / 60 &&
      DecimalValue(s[|m| + 1..]) == t % 60 &&
      (s[|m| + 1] == '0' <==> t % 60 < 10)
  {
    var s := FormatTime(t);
    var m := Decimal(t / 60);
    assert s[..|m|] == m;
    assert s[|m| + 1..] == PadSeconds(t % 60);
    DecimalRoundTrip(t / 60);
  }

  lemma FormatTimeExamples()
    ensures FormatTime(65) == "1:05"
    ensures FormatTime(5) == "0:05"
    ensures FormatTime(600) == "10:00"
  {
    assert Decimal(1) == "1";
    assert Decimal(5) == "5";
    assert Decimal(0) == "0";
    assert Decimal(10) == "10";
  }
}
