/** The test timer: the time allowed for a test, the countdown tick, and the
    clock text shown on the palette and in the history list. */
module Timing {
  import opened Rounding

  /** Minutes allowed per question, in tenths (1.2 minutes). */
  const TimePerQuestionTenthMinutes: nat := 12

  /** Seconds allowed for n questions: n * 1.2 * 60 rounded to the nearest second. */
  function TimeForN(n: nat): (r: nat)
    ensures r == 72 * n
  {
    RoundDiv(n * TimePerQuestionTenthMinutes * 60, 10)
  }

  /** One firing of the countdown interval on the remaining seconds p:
      the new remaining value and whether the countdown expired. */
  function TickStep(p: int): (r: (int, bool))
    ensures r.1 <==> p <= 1
    ensures r.1 ==> r.0 == 0
    ensures !r.1 ==> r.0 == p - 1 && r.0 >= 1
  {
    if p <= 1 then (0, true) else (p - 1, false)
  }

  /** The countdown as the interval sees it: the remaining seconds and
      whether the interval is still scheduled. */
  datatype Countdown = Countdown(remaining: int, running: bool)

  /** The state after k more firings, with the number of expiries seen.
      A cleared interval does not fire again. */
  function Run(c: Countdown, k: nat): (Countdown, nat)
    decreases k
  {
    if k == 0 || !c.running then (c, 0)
    else
      var (p, expired) := TickStep(c.remaining);
      var (c', n) := Run(Countdown(p, !expired), k - 1);
      (c', n + if expired then 1 else 0)
  }

  /** Started with sec >= 1 seconds, the countdown loses one second per firing
      while above 1, expires on exactly the sec-th firing, and then stays
      expired: it expires once and only once. */
  lemma {:induction false} RunFrom(sec: int, k: nat)
    requires sec >= 1
    ensures k < sec ==> Run(Countdown(sec, true), k) == (Countdown(sec - k, true), 0)
    ensures k >= sec ==> Run(Countdown(sec, true), k) == (Countdown(0, false), 1)
  {
    if k > 0 {
      if sec == 1 {
        assert Run(Countdown(0, false), k - 1) == (Countdown(0, false), 0);
      } else {
        RunFrom(sec - 1, k - 1);
      }
    }
  }

  // ---------- Clock text ----------

  /** The decimal digit character for d. */
  function DigitChar(d: nat): (c: char)
    requires d < 10
    ensures '0' <= c <= '9' && c as int - '0' as int == d
  {
    ('0' as int + d) as char
  }

  /** Decimal text of n without leading zeros (JavaScript's String(n)). */
  function Digits(n: nat): (s: string)
    ensures |s| >= 1
    ensures forall i :: 0 <= i < |s| ==> '0' <= s[i] <= '9'
    ensures n < 10 ==> |s| == 1
    ensures n >= 10 ==> |s| >= 2 && s[0] != '0'
  {
    if n < 10 then [DigitChar(n)] else Digits(n / 10) + [DigitChar(n % 10)]
  }

  /** padStart(2, '0'): a text shorter than 2 gets '0' in front up to length 2. */
  function Pad2(s: string): (r: string)
    ensures |s| >= 2 ==> r == s
    ensures |s| < 2 ==> |r| == 2 && r[2 - |s|..] == s
    ensures forall i :: 0 <= i < |r| - |s| ==> r[i] == '0'
    decreases 2 - |s|
  {
    if |s| >= 2 then s else Pad2("0" + s)
  }

  /** The time as m:ss-like text: hh unpadded when there are hours, minutes
      and seconds always two digits. */
  function Fmt(s: nat): string {
    var h := s / 3600;
    var m := (s % 3600) / 60;
    var sec := s % 60;
    if h != 0 then Digits(h) + ":" + Pad2(Digits(m)) + ":" + Pad2(Digits(sec))
    else Pad2(Digits(m)) + ":" + Pad2(Digits(sec))
  }

  /** Reading a clock text back: digits accumulate into the current field,
      each ':' closes a field and carries it over in base 60. */
  function ReadClock(t: string, carried: nat, field: nat): nat
    decreases |t|
  {
    if t == [] then carried + field
    else if t[0] == ':' then ReadClock(t[1..], (carried + field) * 60, 0)
    else ReadClock(t[1..], carried, field * 10 + DigitValue(t[0]))
  }

  function DigitValue(c: char): nat {
    if '0' <= c <= '9' then c as int - '0' as int else 0
  }

  /** The value of a run of digits, read left to right from field. */
  function Accumulate(t: string, field: nat): nat
    decreases |t|
  {
    if t == [] then field else Accumulate(t[1..], field * 10 + DigitValue(t[0]))
  }

  function ClockValue(t: string): nat {
    ReadClock(t, 0, 0)
  }

  lemma {:induction false} AccumulateSnoc(t: string, c: char, field: nat)
    ensures Accumulate(t + [c], field) == Accumulate(t, field) * 10 + DigitValue(c)
    decreases |t|
  {
    if t == [] {
      assert t + [c] == [c];
    } else {
      assert (t + [c])[1..] == t[1..] + [c];
      AccumulateSnoc(t[1..], c, field * 10 + DigitValue(t[0]));
    }
  }

  /** The decimal text of n reads back as n. */
  lemma {:induction false} DigitsRead(n: nat)
    ensures Accumulate(Digits(n), 0) == n
  {
    if n >= 10 {
      DigitsRead(n / 10);
      AccumulateSnoc(Digits(n / 10), DigitChar(n % 10), 0);
    }
  }

  /** Leading zeros do not change the value read. */
  lemma {:induction false} PaddedRead(s: string)
    ensures Accumulate(Pad2(s), 0) == Accumulate(s, 0)
    decreases 2 - |s|
  {
    if |s| < 2 {
      PaddedRead("0" + s);
      assert ("0" + s)[1..] == s;
    }
  }

  /** A run of digits followed by more text is read as one field value. */
  lemma {:induction false} ReadDigitsThen(a: string, b: string, carried: nat, field: nat)
    requires NoColon(a)
    ensures ReadClock(a + b, carried, field) == ReadClock(b, carried, Accumulate(a, field))
    decreases |a|
  {
    if a == [] {
      assert a + b == b;
    } else {
      assert (a + b)[0] == a[0];
      assert (a + b)[1..] == a[1..] + b;
      ReadDigitsThen(a[1..], b, carried, field * 10 + DigitValue(a[0]));
    }
  }

  /** Division by 60 is determined by a quotient and a remainder below 60. */
  lemma DivMod60(x: int, q: int, r: int)
    requires x == 60 * q + r && 0 <= r < 60
    ensures x / 60 == q && x % 60 == r
  {
  }

  lemma Decompose(s: nat)
    ensures s == 3600 * (s / 3600) + 60 * ((s % 3600) / 60) + s % 60
    ensures (s % 3600) / 60 < 60
  {
    var h, r := s / 3600, s % 3600;
    var m, sec := r / 60, r % 60;
    assert s == 3600 * h + r && 0 <= r < 3600;
    assert r == 60 * m + sec && 0 <= sec < 60;
    assert s == 60 * (60 * h + m) + sec;
    DivMod60(s, 60 * h + m, sec);
  }

  predicate NoColon(t: string) {
    forall i :: 0 <= i < |t| ==> t[i] != ':'
  }

  /** Two fields separated by ':' after a carried amount. */
  lemma ReadTwo(a: string, b: string, carried: nat)
    requires NoColon(a) && NoColon(b)
    ensures ReadClock(a + ":" + b, carried, 0) == (carried + Accumulate(a, 0)) * 60 + Accumulate(b, 0)
  {
    assert a + ":" + b == a + (":" + b);
    ReadDigitsThen(a, ":" + b, carried, 0);
    assert (":" + b)[1..] == b;
    ReadDigitsThen(b, [], (carried + Accumulate(a, 0)) * 60, 0);
    assert b + [] == b;
  }

  /** Three fields separated by ':'. */
  lemma ReadThree(a: string, b: string, c: string)
    requires NoColon(a) && NoColon(b) && NoColon(c)
    ensures ReadClock(a + ":" + b + ":" + c, 0, 0) == (Accumulate(a, 0) * 60 + Accumulate(b, 0)) * 60 + Accumulate(c, 0)
  {
    var tail := b + ":" + c;
    assert a + ":" + b + ":" + c == a + (":" + tail);
    ReadDigitsThen(a, ":" + tail, 0, 0);
    assert (":" + tail)[1..] == tail;
    ReadTwo(b, c, Accumulate(a, 0) * 60);
  }

  lemma PaddedDigits(n: nat)
    ensures NoColon(Pad2(Digits(n))) && Accumulate(Pad2(Digits(n)), 0) == n
  {
    DigitsRead(n);
    PaddedRead(Digits(n));
  }

  /** The clock text reads back as the number of seconds formatted. */
  lemma FmtRoundTrip(s: nat)
    ensures ClockValue(Fmt(s)) == s
  {
    Decompose(s);
    var h, m, sec := s / 3600, (s % 3600) / 60, s % 60;
    PaddedDigits(m);
    PaddedDigits(sec);
    if h != 0 {
      DigitsRead(h);
      ReadThree(Digits(h), Pad2(Digits(m)), Pad2(Digits(sec)));
    } else {
      ReadTwo(Pad2(Digits(m)), Pad2(Digits(sec)), 0);
    }
  }

  predicate AllDigits(t: string) {
    forall i :: 0 <= i < |t| ==> '0' <= t[i] <= '9'
  }

  /** The two fields of a two-character field, ':' and another field. */
  lemma SplitShort(a: string, b: string)
    requires |a| == 2
    ensures |a + ":" + b| == |b| + 3 && (a + ":" + b)[2] == ':'
    ensures (a + ":" + b)[..2] == a && (a + ":" + b)[3..] == b
  {
  }

  /** The three fields of h, ':', a two-character field, ':', another. */
  lemma SplitLong(h: string, a: string, b: string)
    requires |a| == 2 && |b| == 2
    ensures |h + ":" + a + ":" + b| == |h| + 6
    ensures var t := h + ":" + a + ":" + b;
      t[..|h|] == h && t[|t| - 6] == ':' && t[|t| - 3] == ':' &&
      t[|t| - 5..|t| - 3] == a && t[|t| - 2..] == b
  {
  }

  lemma ShortMinutes(s: nat)
    requires s < 3600
    ensures (s % 3600) / 60 == s / 60
  {
    assert s % 3600 == s;
  }

  /** Under an hour the text is exactly mm:ss: two digits reading as the
      minutes, ':', two digits reading as the seconds. */
  lemma FmtShortShape(s: nat)
    requires s < 3600
    ensures |Fmt(s)| == 5 && Fmt(s)[2] == ':'
    ensures AllDigits(Fmt(s)[..2]) && Accumulate(Fmt(s)[..2], 0) == s / 60
    ensures AllDigits(Fmt(s)[3..]) && Accumulate(Fmt(s)[3..], 0) == s % 60
  {
    Decompose(s);
    ShortMinutes(s);
    var m, sec := (s % 3600) / 60, s % 60;
    PaddedField(m);
    PaddedField(sec);
    assert Fmt(s) == Pad2(Digits(m)) + ":" + Pad2(Digits(sec));
    SplitShort(Pad2(Digits(m)), Pad2(Digits(sec)));
  }

  /** From an hour on the text is h:mm:ss: the hours as String(h) without
      leading zeros, then ':' and two digits reading as the minutes, ':' and
      two digits reading as the seconds. */
  lemma FmtLongShape(s: nat)
    requires s >= 3600
    ensures |Fmt(s)| == |Digits(s / 3600)| + 6
    ensures Fmt(s)[..|Digits(s / 3600)|] == Digits(s / 3600)
    ensures Fmt(s)[|Fmt(s)| - 6] == ':' && Fmt(s)[|Fmt(s)| - 3] == ':'
    ensures AllDigits(Fmt(s)[|Fmt(s)| - 5..|Fmt(s)| - 3])
    ensures Accumulate(Fmt(s)[|Fmt(s)| - 5..|Fmt(s)| - 3], 0) == (s % 3600) / 60
    ensures AllDigits(Fmt(s)[|Fmt(s)| - 2..]) && Accumulate(Fmt(s)[|Fmt(s)| - 2..], 0) == s % 60
  {
    Decompose(s);
    var h, m, sec := s / 3600, (s % 3600) / 60, s % 60;
    assert h != 0;
    PaddedField(m);
    PaddedField(sec);
    assert Fmt(s) == Digits(h) + ":" + Pad2(Digits(m)) + ":" + Pad2(Digits(sec));
    SplitLong(Digits(h), Pad2(Digits(m)), Pad2(Digits(sec)));
  }

  /** A minutes or seconds field is two digits reading as its number. */
  lemma PaddedField(n: nat)
    requires n < 60
    ensures |Pad2(Digits(n))| == 2 && AllDigits(Pad2(Digits(n)))
    ensures Accumulate(Pad2(Digits(n)), 0) == n
  {
    PaddedWidth(n);
    PaddedDigits(n);
    var d, p := Digits(n), Pad2(Digits(n));
    forall i | 0 <= i < |p| ensures '0' <= p[i] <= '9' {
      if i >= |p| - |d| {
        if |d| >= 2 {
          assert p == d;
        } else {
          assert p[2 - |d|..] == d;
          assert p[i] == d[i - (2 - |d|)];
        }
      }
    }
  }

  /** A minutes or seconds field is two characters wide. */
  lemma PaddedWidth(n: nat)
    requires n < 60
    ensures |Pad2(Digits(n))| == 2
  {
    if n >= 10 {
      assert n / 10 < 10;
    }
  }
}
