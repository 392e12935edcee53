/** `formatTime(seconds)`: whole seconds as "MM:SS", minutes not clamped. */
module TimerTime {
  import opened JsText

  function FormatTime(timer: nat): (s: string)
    ensures |s| >= 5 && s[|s| - 3] == ':'
  {
    PaddedValue(timer / 60);
    PaddedValue(timer % 60);
    PadStart2(NatToString(timer / 60)) + ":" + PadStart2(NatToString(timer % 60))
  }

  /** A clock string: at least two minute digits, a colon, exactly two second digits. */
  predicate IsClock(s: string) {
    && |s| >= 5
    && s[|s| - 3] == ':'
    && AllDigits(s[..|s| - 3])
    && AllDigits(s[|s| - 2..])
  }

  function MinutesField(s: string): string requires IsClock(s) { s[..|s| - 3] }

  function SecondsField(s: string): string requires IsClock(s) { s[|s| - 2..] }

  /** Reading a clock string back into seconds. */
  function ReadClock(s: string): nat
    requires IsClock(s)
  {
    DecimalValue(MinutesField(s)) * 60 + DecimalValue(SecondsField(s))
  }

  lemma {:induction false} PaddedValue(n: nat)
    ensures AllDigits(PadStart2(NatToString(n)))
    ensures |PadStart2(NatToString(n))| >= 2
    ensures DecimalValue(PadStart2(NatToString(n))) == n
    ensures n < 100 ==> |PadStart2(NatToString(n))| == 2
  {
    var s := NatToString(n);
    DecimalValueOfNatToString(n);
    NatToStringLength(n);
    if |s| < 2 {
      assert PadStart2(s) == seq(2 - |s|, _ => '0') + s;
      DecimalValueLeadingZeros(2 - |s|, s);
    }
  }

  /**
   * The layout: the minutes `t div 60` in at least two digits, a colon, and the seconds
   * `t mod 60` in exactly two digits, so the seconds field reads 00..59 and the whole reads back
   * as `minutes * 60 + seconds = t`.
   */
  lemma FormatTimeLayout(t: nat)
    ensures IsClock(FormatTime(t))
    ensures DecimalValue(MinutesField(FormatTime(t))) == t / 60
    ensures DecimalValue(SecondsField(FormatTime(t))) == t % 60 < 60
    ensures ReadClock(FormatTime(t)) == t
  {
    var q, r := t / 60, t % 60;
    var m, sec := PadStart2(NatToString(q)), PadStart2(NatToString(r));
    PaddedValue(q);
    PaddedValue(r);
    ClockParts(m, sec);
    assert FormatTime(t) == m + ":" + sec;
    assert t == q * 60 + r;
  }

  lemma ClockParts(m: string, sec: string)
    requires AllDigits(m) && |m| >= 2 && AllDigits(sec) && |sec| == 2
    ensures IsClock(m + ":" + sec)
    ensures MinutesField(m + ":" + sec) == m && SecondsField(m + ":" + sec) == sec
  {
    var s := m + ":" + sec;
    assert s[..|s| - 3] == m;
    assert s[|s| - 2..] == sec;
  }

  /** Two different second counts never format alike. */
  lemma FormatTimeInjective(a: nat, b: nat)
    requires FormatTime(a) == FormatTime(b)
    ensures a == b
  {
    FormatTimeLayout(a);
    FormatTimeLayout(b);
  }

  /** The output is exactly five characters long while the minutes fit in two digits. */
  lemma FormatTimeLength(t: nat)
    ensures |FormatTime(t)| == 5 <==> t < 6000
  {
    PaddedValue(t / 60);
    PaddedValue(t % 60);
    NatToStringLength(t / 60);
    if t >= 6000 {
      assert |NatToString(t / 60)| >= 3 by {
        assert NatToString(t / 60) == NatToString(t / 60 / 10) + [DigitChar(t / 60 % 10)];
        NatToStringLength(t / 60 / 10);
      }
    }
  }

  /** Worked examples: the minutes are not clamped or wrapped at an hour. */
  lemma FormatTime754()
    ensures FormatTime(754) == "12:34"
  {
    TwoDigitExample(754, 12, 34);
    var a, b := PadStart2(NatToString(12)), PadStart2(NatToString(34));
    TwoDigits(12);
    TwoDigits(34);
    assert a == ['1', '2'];
    assert b == ['3', '4'];
    assert a + ":" + b == "12:34";
  }

  lemma FormatTime3600()
    ensures FormatTime(3600) == "60:00"
  {
    TwoDigitExample(3600, 60, 0);
    var a, b := PadStart2(NatToString(60)), PadStart2(NatToString(0));
    TwoDigits(60);
    TwoDigits(0);
    assert a == ['6', '0'];
    assert b == ['0', '0'];
    assert a + ":" + b == "60:00";
  }

  lemma FormatTime3661()
    ensures FormatTime(3661) == "61:01"
  {
    TwoDigitExample(3661, 61, 1);
    var a, b := PadStart2(NatToString(61)), PadStart2(NatToString(1));
    TwoDigits(61);
    TwoDigits(1);
    assert a == ['6', '1'];
    assert b == ['0', '1'];
    assert a + ":" + b == "61:01";
  }

  lemma FormatTime6000()
    ensures FormatTime(6000) == "100:00"
  {
    TwoDigitExample(6000, 100, 0);
    TwoDigits(0);
    assert NatToString(100) == NatToString(10) + ['0'];
    assert NatToString(10) == NatToString(1) + ['0'];
  }

  lemma FormatTimeZero()
    ensures FormatTime(0) == "00:00"
  {
    TwoDigits(0);
  }

  /** `formatTime(m * 60 + s)` is the padded minutes `m`, a colon and the padded seconds `s`. */
  lemma TwoDigitExample(t: nat, m: nat, sec: nat)
    requires m * 60 + sec == t && sec < 60
    ensures FormatTime(t) == PadStart2(NatToString(m)) + ":" + PadStart2(NatToString(sec))
  {
    DivMod60(t, m, sec);
  }

  lemma DivMod60(t: nat, m: nat, sec: nat)
    requires m * 60 + sec == t && sec < 60
    ensures t / 60 == m && t % 60 == sec
  {
  }

  lemma TwoDigits(n: nat)
    requires n < 100
    ensures PadStart2(NatToString(n)) == [DigitChar(n / 10), DigitChar(n % 10)]
  {
    if n < 10 {
      var s := NatToString(n);
      assert s == [DigitChar(n)];
      assert seq(1, _ => '0') == ['0'];
      assert PadStart2(s) == ['0', DigitChar(n)];
      assert n / 10 == 0 && n % 10 == n;
    } else {
      var q, r := n / 10, n % 10;
      assert q < 10;
      assert NatToString(q) == [DigitChar(q)];
      assert NatToString(n) == [DigitChar(q), DigitChar(r)];
    }
  }
}
