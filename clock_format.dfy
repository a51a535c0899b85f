/**
 * The timer's display string: `h:mm:ss` from an hour on, `m:ss` below it, built with JavaScript's
 * floor division, truncating `%` and `padStart(2, "0")`.
 */
module ClockFormat {
  import opened Optional
  import opened Text

  /** `formatTime(seconds)`. */
  function FormatTime(seconds: int): string {
    var h := seconds / 3600;
    var m := JsRem(seconds, 3600) / 60;
    var s := JsRem(seconds, 60);
    if h > 0 then IntToString(h) + ":" + Pad2(IntToString(m)) + ":" + Pad2(IntToString(s))
    else IntToString(m) + ":" + Pad2(IntToString(s))
  }

  /** Reading a clock string back: two or three `:`-separated non-empty digit fields. */
  function ClockSeconds(t: string): Option<int> {
    ReadFields(Split(t, ':'))
  }

  predicate IsField(f: string) {
    f != [] && AllDigits(f)
  }

  function ReadFields(parts: seq<string>): Option<int> {
    if |parts| == 3 && IsField(parts[0]) && IsField(parts[1]) && IsField(parts[2]) then
      Some(DigitsValue(parts[0], 10) * 3600 + DigitsValue(parts[1], 10) * 60 + DigitsValue(parts[2], 10))
    else if |parts| == 2 && IsField(parts[0]) && IsField(parts[1]) then
      Some(DigitsValue(parts[0], 10) * 60 + DigitsValue(parts[1], 10))
    else None
  }

  lemma ClockArithmetic(n: nat)
    ensures n % 3600 / 60 < 60 && n % 60 < 60
    ensures (n / 3600) * 3600 + (n % 3600 / 60) * 60 + n % 60 == n
  {
    var q, r := n / 3600, n % 3600;
    var m, s := r / 60, r % 60;
    assert n == 3600 * q + r && r == 60 * m + s && 0 <= s < 60;
    ModOfMultiple(n, 60 * q + m, s);
  }

  lemma ModOfMultiple(n: int, k: int, s: int)
    requires n == 60 * k + s && 0 <= s < 60
    ensures n % 60 == s
  {
  }

  /** A padded decimal field: digits only, so no separator, and its value is the number's. */
  lemma Field(k: nat)
    ensures var f := Pad2(NatToString(k)); f != [] && AllDigits(f) && ':' !in f && DigitsValue(f, 10) == k
  {
    DigitsValueOfNatToString(k);
    var f := Pad2(NatToString(k));
    assert forall i :: 0 <= i < |f| ==> f[i] != ':';
  }

  lemma {:induction false} ThreeFields(a: string, b: string, c: string)
    requires ':' !in a && ':' !in b && ':' !in c
    ensures Split(a + ":" + b + ":" + c, ':') == [a, b, c]
  {
    SplitNoSep(c, ':');
    SplitJoin(b, ':', c);
    SplitJoin(a, ':', b + ":" + c);
    assert a + ":" + b + ":" + c == a + [':'] + (b + [':'] + c);
  }

  lemma {:induction false} TwoFields(a: string, b: string)
    requires ':' !in a && ':' !in b
    ensures Split(a + ":" + b, ':') == [a, b]
  {
    SplitNoSep(b, ':');
    SplitJoin(a, ':', b);
  }

  lemma ReadThree(a: string, b: string, c: string, x: nat, y: nat, z: nat)
    requires IsField(a) && IsField(b) && IsField(c)
    requires DigitsValue(a, 10) == x && DigitsValue(b, 10) == y && DigitsValue(c, 10) == z
    ensures ReadFields([a, b, c]) == Some(x * 3600 + y * 60 + z)
  {
    var p := [a, b, c];
    assert |p| == 3 && p[0] == a && p[1] == b && p[2] == c;
  }

  lemma ReadTwo(a: string, b: string, x: nat, y: nat)
    requires IsField(a) && IsField(b)
    requires DigitsValue(a, 10) == x && DigitsValue(b, 10) == y
    ensures ReadFields([a, b]) == Some(x * 60 + y)
  {
    var p := [a, b];
    assert |p| == 2 && p[0] == a && p[1] == b;
  }

  /** For every non-negative count, the display reads back as that count, and it has three
      fields exactly from one hour on. */
  lemma FormatTimeRoundTrip(n: nat)
    ensures ClockSeconds(FormatTime(n)) == Some(n)
    ensures |Split(FormatTime(n), ':')| == (if n >= 3600 then 3 else 2)
  {
    if n >= 3600 { RoundTripHours(n); } else { RoundTripMinutes(n); }
  }

  lemma HoursShape(n: nat)
    requires n >= 3600
    ensures n / 3600 > 0 && n % 3600 / 60 < 60 && n % 60 < 60
    ensures FormatTime(n) == NatToString(n / 3600) + ":" + Pad2(NatToString(n % 3600 / 60)) + ":" + Pad2(NatToString(n % 60))
  {
    assert JsRem(n, 3600) == n % 3600 && JsRem(n, 60) == n % 60;
  }

  lemma MinutesShape(n: nat)
    requires n < 3600
    ensures n / 3600 == 0 && n % 3600 / 60 < 60 && n % 60 < 60
    ensures FormatTime(n) == NatToString(n % 3600 / 60) + ":" + Pad2(NatToString(n % 60))
  {
    assert JsRem(n, 3600) == n % 3600 && JsRem(n, 60) == n % 60;
  }

  /** An `h:mm:ss` string reads back as its seconds. */
  lemma ReadBackThree(h: nat, m: nat, s: nat)
    ensures var t := NatToString(h) + ":" + Pad2(NatToString(m)) + ":" + Pad2(NatToString(s));
      ClockSeconds(t) == Some(h * 3600 + m * 60 + s) && |Split(t, ':')| == 3
  {
    var a, mm, ss := NatToString(h), Pad2(NatToString(m)), Pad2(NatToString(s));
    var t := a + ":" + mm + ":" + ss;
    assert Split(t, ':') == [a, mm, ss] by {
      Field(m);
      Field(s);
      ThreeFields(a, mm, ss);
    }
    assert ReadFields([a, mm, ss]) == Some(h * 3600 + m * 60 + s) by {
      Field(m);
      Field(s);
      DigitsValueOfNatToString(h);
      ReadThree(a, mm, ss, h, m, s);
    }
  }

  /** An `m:ss` string reads back as its seconds. */
  lemma ReadBackTwo(m: nat, s: nat)
    ensures var t := NatToString(m) + ":" + Pad2(NatToString(s));
      ClockSeconds(t) == Some(m * 60 + s) && |Split(t, ':')| == 2
  {
    var a, ss := NatToString(m), Pad2(NatToString(s));
    var t := a + ":" + ss;
    assert Split(t, ':') == [a, ss] by {
      Field(s);
      TwoFields(a, ss);
    }
    assert ReadFields([a, ss]) == Some(m * 60 + s) by {
      Field(s);
      DigitsValueOfNatToString(m);
      ReadTwo(a, ss, m, s);
    }
  }

  lemma RoundTripHours(n: nat)
    requires n >= 3600
    ensures ClockSeconds(FormatTime(n)) == Some(n) && |Split(FormatTime(n), ':')| == 3
  {
    HoursShape(n);
    ClockArithmetic(n);
    ReadBackThree(n / 3600, n % 3600 / 60, n % 60);
  }

  lemma RoundTripMinutes(n: nat)
    requires n < 3600
    ensures ClockSeconds(FormatTime(n)) == Some(n) && |Split(FormatTime(n), ':')| == 2
  {
    MinutesShape(n);
    ClockArithmetic(n);
    ReadBackTwo(n % 3600 / 60, n % 60);
  }
}
