/** `format_duration(sec)` in train_rl.py: whole seconds shown as hours, minutes and
    seconds, with the hour field omitted when it is zero. */
module Duration {
  import opened Text

  /** Python's `int(x)` on a float: truncation toward zero. */
  function Truncate(x: real): (n: int)
    ensures x >= 0.0 ==> n as real <= x < n as real + 1.0
    ensures x < 0.0 ==> n as real - 1.0 < x <= n as real
  {
    if x >= 0.0 then x.Floor else -((-x).Floor)
  }

  /** A number of seconds split into hours, minutes and seconds. */
  datatype Clock = Clock(h: int, m: nat, s: nat)

  function Seconds(c: Clock): int {
    c.h * 3600 + c.m * 60 + c.s
  }

  predicate Normal(c: Clock) {
    c.m < 60 && c.s < 60
  }

  /** `m, s = divmod(sec, 60); h, m = divmod(m, 60)`. Python's `divmod` rounds toward
      negative infinity, which for a positive divisor is Dafny's `/` and `%`. */
  function ClockOf(sec: int): (c: Clock)
    ensures Normal(c) && Seconds(c) == sec
    ensures sec >= 0 ==> c.h >= 0
  {
    var m, s := sec / 60, sec % 60;
    Clock(m / 60, m % 60, s)
  }

  /** There is only one normal split of a number of seconds, so `ClockOf` is it. */
  lemma ClockUnique(c: Clock, d: Clock)
    requires Normal(c) && Normal(d) && Seconds(c) == Seconds(d)
    ensures c == d
  {
    assert (c.h - d.h) * 3600 == (d.m - c.m) * 60 + (d.s - c.s);
    assert (c.m - d.m) * 60 == d.s - c.s;
  }

  function HourText(c: Clock): string {
    IntToString(c.h) + "h " + MinuteText(c)
  }

  function MinuteText(c: Clock): string {
    NatToString(c.m) + "m " + NatToString(c.s) + "s"
  }

  /** `f"{h}h {m}m {s}s"` when there is a non-zero hour count, `f"{m}m {s}s"` otherwise. */
  function FormatDuration(sec: int): (r: string)
    ensures ClockOf(sec).h != 0 <==> 'h' in r
  {
    var c := ClockOf(sec);
    NoLetterInMinuteText(c, 'h');
    if c.h != 0 then
      assert HourText(c)[|IntToString(c.h)|] == 'h';
      HourText(c)
    else MinuteText(c)
  }

  lemma NoLetterInNumber(n: int, ch: char)
    requires !IsDigit(ch) && ch != '-'
    ensures ch !in IntToString(n) && ch !in NatToString(if n < 0 then -n else n)
  {
  }

  lemma NoLetterInMinuteText(c: Clock, ch: char)
    requires !IsDigit(ch) && ch != '-' && ch != 'm' && ch != 's' && ch != ' '
    ensures ch !in MinuteText(c)
  {
    NoLetterInNumber(c.m, ch);
    NoLetterInNumber(c.s, ch);
  }

  /** Under an hour (and at least zero) the hour field is left out. */
  lemma NoHoursUnderAnHour(sec: int)
    requires 0 <= sec < 3600
    ensures FormatDuration(sec) == NatToString(sec / 60) + "m " + NatToString(sec % 60) + "s"
  {
  }

  lemma MinuteTextInjective(c: Clock, d: Clock)
    requires MinuteText(c) == MinuteText(d)
    ensures c.m == d.m && c.s == d.s
  {
    NoLetterInNumber(c.m, 'm');
    NoLetterInNumber(d.m, 'm');
    FieldsInjective(NatToString(c.m), NatToString(c.s), NatToString(d.m), NatToString(d.s));
    IntToStringInjective(c.m, d.m);
    IntToStringInjective(c.s, d.s);
  }

  /** Two numbers shown as `"{a}m {x}s"` are read back field by field. */
  lemma FieldsInjective(a: string, x: string, b: string, y: string)
    requires 'm' !in a && 'm' !in b
    requires a + "m " + x + "s" == b + "m " + y + "s"
    ensures a == b && x == y
  {
    var x', y' := " " + x + "s", " " + y + "s";
    assert a + ['m'] + x' == b + ['m'] + y' by {
      assert a + "m " + x + "s" == a + ['m'] + x';
      assert b + "m " + y + "s" == b + ['m'] + y';
    }
    CutAt(a, b, x', y', 'm');
    assert x == x'[1..|x'| - 1] && y == y'[1..|y'| - 1];
  }

  lemma HourTextInjective(c: Clock, d: Clock)
    requires HourText(c) == HourText(d)
    ensures c.h == d.h && MinuteText(c) == MinuteText(d)
  {
    NoLetterInNumber(c.h, 'h');
    NoLetterInNumber(d.h, 'h');
    HourFieldInjective(IntToString(c.h), MinuteText(c), IntToString(d.h), MinuteText(d));
    IntToStringInjective(c.h, d.h);
  }

  /** Two texts shown as `"{a}h {x}"` are read back field by field. */
  lemma HourFieldInjective(a: string, x: string, b: string, y: string)
    requires 'h' !in a && 'h' !in b
    requires a + "h " + x == b + "h " + y
    ensures a == b && x == y
  {
    var x', y' := " " + x, " " + y;
    assert a + ['h'] + x' == b + ['h'] + y' by {
      assert a + "h " + x == a + ['h'] + x';
      assert b + "h " + y == b + ['h'] + y';
    }
    CutAt(a, b, x', y', 'h');
    assert x == x'[1..] && y == y'[1..];
  }

  /** Different numbers of seconds are never shown the same way. */
  lemma FormatDurationInjective(a: int, b: int)
    requires FormatDuration(a) == FormatDuration(b)
    ensures a == b
  {
    var c, d := ClockOf(a), ClockOf(b);
    assert MinuteText(c) == MinuteText(d) by {
      if c.h != 0 {
        assert d.h != 0;
        HourTextInjective(c, d);
      }
    }
    assert c.m == d.m && c.s == d.s by {
      MinuteTextInjective(c, d);
    }
    if c.h != 0 {
      assert c.h == d.h by {
        HourTextInjective(c, d);
      }
    }
    ClockUnique(c, d);
  }
}
