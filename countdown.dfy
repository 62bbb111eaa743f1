/** The countdown readout of the game board: `m:ss` text and its colour. */
module Countdown {

  datatype Option<T> = None | Some(value: T)

  datatype Color = Red | Black

  /** The timer turns red for the last ten seconds. */
  function TimerColor(timeLeft: int): (c: Color)
    ensures c == Red <==> timeLeft <= 10
    ensures c == Black <==> timeLeft > 10
  {
    if timeLeft <= 10 then Red else Black
  }

  predicate IsDigit(c: char)
  {
    '0' <= c <= '9'
  }

  predicate AllDigits(s: string)
  {
    forall i :: 0 <= i < |s| ==> IsDigit(s[i])
  }

  function DigitChar(d: nat): (c: char)
    requires d < 10
    ensures IsDigit(c) && c as int - '0' as int == d
  {
    ('0' as int + d) as char
  }

  /** The value of a string of decimal digits (0 for the empty string). */
  function DigitsValue(s: string): nat
    requires AllDigits(s)
  {
    if s == [] then 0
    else DigitsValue(s[..|s| - 1]) * 10 + (s[|s| - 1] as int - '0' as int)
  }

  /** The decimal numeral JavaScript prints for a natural number. */
  function NatToString(n: nat): (r: string)
    ensures AllDigits(r) && |r| >= 1
    ensures |r| == 1 <==> n < 10
    decreases n
  {
    if n < 10 then [DigitChar(n)] else NatToString(n / 10) + [DigitChar(n % 10)]
  }

  /** Reading the numeral back gives the number. */
  lemma {:induction false} NatToStringValue(n: nat)
    ensures DigitsValue(NatToString(n)) == n
  {
    if n >= 10 {
      var r := NatToString(n);
      NatToStringValue(n / 10);
      assert r[..|r| - 1] == NatToString(n / 10);
    }
  }

  /** The numeral JavaScript prints for any integer. */
  function IntToString(n: int): string
  {
    if n < 0 then "-" + NatToString(-n) else NatToString(n)
  }

  /** `Math.floor(a / b)` for a positive divisor. */
  function FloorDiv(a: int, b: int): (q: int)
    requires b > 0
    ensures b * q <= a < b * q + b
  {
    a / b
  }

  /** The quotient of JavaScript's `%`, which truncates toward zero. */
  function TruncDiv(a: int, b: int): int
    requires b > 0
  {
    if a >= 0 then a / b else -((-a) / b)
  }

  /** JavaScript's `%`: the remainder of truncating division, so it has the sign of `a`. */
  function JsRem(a: int, b: int): (r: int)
    requires b > 0
    ensures a == b * TruncDiv(a, b) + r
    ensures -b < r < b
    ensures a >= 0 ==> r >= 0
    ensures a < 0 ==> r <= 0
  {
    if a >= 0 then a % b
    else
      var q := (-a) / b;
      assert b * -q == -(b * q);
      -((-a) % b)
  }

  /** `s.slice(-2)`: the last two characters, or all of a shorter string. */
  function Last2(s: string): (r: string)
    ensures |r| == if |s| < 2 then |s| else 2
    ensures r == s[|s| - |r|..]
  {
    if |s| <= 2 then s else s[|s| - 2..]
  }

  /** The readout `Math.floor(t / 60) + ':' + ('0' + (t % 60)).slice(-2)`. */
  function FormatTime(t: int): string
  {
    IntToString(FloorDiv(t, 60)) + ":" + Last2("0" + IntToString(JsRem(t, 60)))
  }

  /** Reading a readout of minutes, a colon and two digits of seconds below 60. */
  function ParseTime(s: string): Option<nat>
  {
    if |s| >= 4 && s[|s| - 3] == ':' && AllDigits(s[..|s| - 3]) && AllDigits(s[|s| - 2..])
       && DigitsValue(s[|s| - 2..]) < 60
    then Some(DigitsValue(s[..|s| - 3]) * 60 + DigitsValue(s[|s| - 2..]))
    else None
  }

  /** The seconds field is always two digits: zero-padded below ten. */
  lemma PaddedSeconds(sec: nat)
    requires sec < 60
    ensures |Last2("0" + NatToString(sec))| == 2
    ensures AllDigits(Last2("0" + NatToString(sec)))
    ensures DigitsValue(Last2("0" + NatToString(sec))) == sec
  {
    var p := "0" + NatToString(sec);
    NatToStringValue(sec);
    if sec < 10 {
      assert Last2(p) == p;
      assert p[..1] == "0";
    } else {
      assert |NatToString(sec)| == 2 by {
        assert NatToString(sec) == NatToString(sec / 10) + [DigitChar(sec % 10)];
      }
      assert Last2(p) == NatToString(sec);
    }
  }

  /** For a non-negative time, JavaScript's operators agree with Dafny's. */
  lemma FormatTimeOfNat(t: int)
    requires t >= 0
    ensures FormatTime(t) == NatToString(t / 60) + ":" + Last2("0" + NatToString(t % 60))
  {
    assert FloorDiv(t, 60) == t / 60;
    assert JsRem(t, 60) == t % 60;
  }

  /** Minutes, a colon and two digits of seconds below 60 parse as their total. */
  lemma ParseJoined(minutes: string, seconds: string)
    requires AllDigits(minutes) && |minutes| >= 1
    requires AllDigits(seconds) && |seconds| == 2 && DigitsValue(seconds) < 60
    ensures ParseTime(minutes + ":" + seconds)
            == Some(DigitsValue(minutes) * 60 + DigitsValue(seconds))
  {
    var s := minutes + ":" + seconds;
    assert s[..|s| - 3] == minutes;
    assert s[|s| - 2..] == seconds;
  }

  /** For every non-negative time, the readout reads back as that time. */
  lemma FormatTimeRoundTrip(t: int)
    requires t >= 0
    ensures ParseTime(FormatTime(t)) == Some(t)
  {
    var minutes := NatToString(t / 60);
    var seconds := Last2("0" + NatToString(t % 60));
    PaddedSeconds(t % 60);
    calc {
      ParseTime(FormatTime(t));
      { FormatTimeOfNat(t); }
      ParseTime(minutes + ":" + seconds);
      { ParseJoined(minutes, seconds); }
      Some(DigitsValue(minutes) * 60 + DigitsValue(seconds));
      { NatToStringValue(t / 60); }
      Some(t);
    }
  }

  /** The readout turns red exactly when it shows at most ten seconds left. */
  lemma RedExactlyFromTenSeconds(t: int)
    requires t >= 0
    ensures ParseTime(FormatTime(t)).Some?
    ensures TimerColor(t) == Red <==> ParseTime(FormatTime(t)).value <= 10
  {
    FormatTimeRoundTrip(t);
  }
}
