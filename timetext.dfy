/**
 * Decimal rendering of integers (`std::to_string` on non-negative values) and the
 * `formatTime` helper that the sliding puzzle and the shooter both use to draw a
 * millisecond count as minutes and zero-padded seconds.
 */
module TimeText {

  function DigitChar(d: int): (c: char)
    requires 0 <= d < 10
    ensures '0' <= c <= '9'
  {
    "0123456789"[d]
  }

  function DigitValue(c: char): int
  {
    c as int - '0' as int
  }

  predicate IsDigits(s: string)
  {
    forall i :: 0 <= i < |s| ==> '0' <= s[i] <= '9'
  }

  /** The value of a string of decimal digits, most significant first. */
  function ValueOf(s: string): nat
    requires IsDigits(s)
  {
    if s == [] then 0 else ValueOf(s[..|s| - 1]) * 10 + DigitValue(s[|s| - 1])
  }

  /** `to_string(n)` for a non-negative `n`: decimal digits, no sign, no leading zero. */
  function Digits(n: nat): (s: string)
    ensures |s| >= 1 && IsDigits(s)
    ensures n < 10 <==> |s| == 1
    ensures |s| > 1 ==> s[0] != '0'
  {
    if n < 10 then [DigitChar(n)] else Digits(n / 10) + [DigitChar(n % 10)]
  }

  /** Reading back what `Digits` wrote gives the number again. */
  lemma {:induction false} DigitsRoundTrip(n: nat)
    ensures ValueOf(Digits(n)) == n
  {
    var s := Digits(n);
    if n >= 10 {
      DigitsRoundTrip(n / 10);
      assert s[..|s| - 1] == Digits(n / 10);
    }
  }

  lemma MinutesOfMilliseconds(ms: nat)
    ensures ms / 1000 / 60 == ms / 60000
  {
    var s := ms / 1000;
    var m := s / 60;
    assert ms == 1000 * s + ms % 1000;
    assert s == 60 * m + s % 60;
    assert ms == 60000 * m + (1000 * (s % 60) + ms % 1000);
    assert 0 <= 1000 * (s % 60) + ms % 1000 < 60000;
  }

  /** The seconds field of `formatTime`: a `0` in front of a single digit. */
  function PaddedSeconds(secs: nat): (r: string)
    requires secs < 60
    ensures |r| == 2 && IsDigits(r) && ValueOf(r) == secs
  {
    DigitsRoundTrip(secs);
    if secs < 10 then
      var r := "0" + Digits(secs);
      assert r[..1] == "0";
      r
    else
      Digits(secs)
  }

  /**
   * `formatTime(ms)`: whole minutes, a colon, then the seconds within the minute, padded
   * with a leading `0` below ten. The result always ends in exactly two second digits.
   */
  function FormatTime(ms: nat): (r: string)
    ensures |r| >= 4 && r[|r| - 3] == ':'
    ensures IsDigits(r[..|r| - 3]) && ValueOf(r[..|r| - 3]) == ms / 60000
    ensures IsDigits(r[|r| - 2..]) && ValueOf(r[|r| - 2..]) == (ms / 1000) % 60
  {
    var seconds := ms / 1000;
    var minutes := seconds / 60;
    var m := Digits(minutes);
    var sec := PaddedSeconds(seconds % 60);
    var r := m + ":" + sec;
    MinutesOfMilliseconds(ms);
    DigitsRoundTrip(minutes);
    assert r[..|r| - 3] == m;
    assert r[|r| - 2..] == sec;
    r
  }
}
