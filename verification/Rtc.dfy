/** Setting the battery-backed calendar over a bus that may fail at any point, and reading it back. */
module Rtc {
  import opened Bytes
  import opened Wrappers

  const REG_CTRL1: nat := 0x00
  const REG_SECONDS: nat := 0x02
  const REGISTERS: nat := 0x10
  const CALENDAR: nat := 7
  const CTRL1_STOP: byte := 0x20

  datatype Time = Time(sec: int, min: int, hour: int, mday: int, wday: int, mon: int, year: int)

  /** What a bus write does: it succeeds, or fails after the chip took the first `taken` bytes. */
  datatype Outcome = Done | Faulty(taken: nat)

  function ToBcd(value: int): byte
    requires 0 <= value <= 99
  {
    (value / 10 * 16 + value % 10) as byte
  }

  function FromBcd(value: byte): int { value as int / 16 * 10 + value as int % 16 }

  predicate IsValidBcd(value: byte, maximum: int) {
    value as int % 16 <= 9 && value as int / 16 <= 9 && FromBcd(value) <= maximum
  }

  lemma Digits(q: int, r: int)
    requires 0 <= r <= 9
    ensures (16 * q + r) / 16 == q && (16 * q + r) % 16 == r
    ensures (10 * q + r) / 10 == q && (10 * q + r) % 10 == r
  {
  }

  lemma BcdParts(value: int)
    requires 0 <= value <= 99
    ensures ToBcd(value) as int == 16 * (value / 10) + value % 10
    ensures ToBcd(value) as int / 16 == value / 10 && ToBcd(value) as int % 16 == value % 10
  {
    Digits(value / 10, value % 10);
  }

  /** A coded value is read back, and is valid exactly within its maximum. */
  lemma BcdRoundTrip(value: int, maximum: int)
    requires 0 <= value <= 99
    ensures FromBcd(ToBcd(value)) == value
    ensures IsValidBcd(ToBcd(value), maximum) <==> value <= maximum
  {
    BcdParts(value);
    hide ToBcd;
    var q, r := value / 10, value % 10;
    assert value == 10 * q + r && q <= 9 && r <= 9;
    assert FromBcd(ToBcd(value)) == 10 * q + r;
  }

  /** Smaller values leave the upper bits of their code clear. */
  lemma BcdBounds(value: int)
    requires 0 <= value <= 99
    ensures value <= 79 ==> ToBcd(value) < 0x80
    ensures value <= 39 ==> ToBcd(value) < 0x40
    ensures value <= 19 ==> ToBcd(value) < 0x20
    ensures value <= 7 ==> ToBcd(value) < 0x08
  {
    BcdParts(value);
    hide ToBcd;
  }

  /** Every valid code is the code of the value it stands for. */
  lemma BcdIsExact(code: byte)
    requires IsValidBcd(code, 99)
    ensures 0 <= FromBcd(code) <= 99 && ToBcd(FromBcd(code)) == code
  {
    var q, r := code as int / 16, code as int % 16;
    Digits(q, r);
  }

  function DaysIn(mon: int, year: int): int
    requires 0 <= mon <= 11
  {
    [31, 28, 31, 30, 31, 30, 31, 31, 30, 31, 30, 31][mon] + if mon == 1 && year % 4 == 0 then 1 else 0
  }

  /** The times the calendar can be set to. */
  predicate Settable(t: Time) {
    100 <= t.year <= 199 && 0 <= t.mon <= 11 && 1 <= t.mday <= DaysIn(t.mon, t.year) && 0 <= t.wday <= 6 &&
    0 <= t.hour <= 23 && 0 <= t.min <= 59 && 0 <= t.sec <= 59
  }

  /** The calendar registers that hold a time. */
  function CalendarOf(t: Time): (s: seq<byte>)
    requires Settable(t)
    ensures |s| == CALENDAR
  {
    [ToBcd(t.sec) % 0x80, ToBcd(t.min) % 0x80, ToBcd(t.hour) % 0x40, ToBcd(t.mday) % 0x40, ToBcd(t.wday) % 0x08,
     ToBcd(t.mon + 1) % 0x20, ToBcd(t.year % 100)]
  }

  /** The stop bit and both test bits are clear. */
  predicate Running(ctrl1: byte) { ctrl1 / 8 % 2 == 0 && ctrl1 / 32 % 2 == 0 && ctrl1 / 128 == 0 }

  /** The time the first nine registers show, or nothing where they cannot be trusted. */
  function Reading(regs: seq<byte>): Option<Time>
    requires |regs| >= 9
  {
    var b := regs[REG_SECONDS..9];
    if !Running(regs[REG_CTRL1]) || b[5] >= 0x80 then None
    else if b[0] >= 0x80 then None
    else if !IsValidBcd(b[0] % 0x80, 59) || !IsValidBcd(b[1] % 0x80, 59) || !IsValidBcd(b[2] % 0x40, 23) ||
            !IsValidBcd(b[3] % 0x40, 31) || !IsValidBcd(b[4] % 0x08, 6) || !IsValidBcd(b[5] % 0x20, 12) ||
            !IsValidBcd(b[6], 99) || b[3] % 0x40 == 0 || b[5] % 0x20 == 0 then None
    else
      Some(Time(FromBcd(b[0] % 0x80), FromBcd(b[1] % 0x80), FromBcd(b[2] % 0x40), FromBcd(b[3] % 0x40),
                FromBcd(b[4] % 0x08), FromBcd(b[5] % 0x20) - 1, FromBcd(b[6]) + 100))
  }

  /** A whole calendar on a running chip reads as the time it holds. */
  lemma CalendarIsRead(regs: seq<byte>, t: Time)
    requires |regs| >= 9 && Settable(t) && regs[REG_CTRL1] == 0 && regs[REG_SECONDS..9] == CalendarOf(t)
    ensures Reading(regs) == Some(t)
  {
    hide ToBcd, FromBcd, IsValidBcd;
    var b := regs[REG_SECONDS..9];
    BcdRoundTrip(t.sec, 59);
    BcdBounds(t.sec);
    BcdRoundTrip(t.min, 59);
    BcdBounds(t.min);
    BcdRoundTrip(t.hour, 23);
    BcdBounds(t.hour);
    BcdRoundTrip(t.mday, 31);
    BcdBounds(t.mday);
    BcdRoundTrip(t.wday, 6);
    BcdBounds(t.wday);
    BcdRoundTrip(t.mon + 1, 12);
    BcdBounds(t.mon + 1);
    BcdRoundTrip(t.year % 100, 99);
    NonzeroBcd(t.mday);
    NonzeroBcd(t.mon + 1);
  }

  lemma NonzeroBcd(value: int)
    requires 1 <= value <= 99
    ensures ToBcd(value) != 0
  {
  }

  // --- the calendar and the registers, from outside ---------------------------------------

  /** Days from 1 March to the first of a month; months are 1 to 12. */
  function MonthStart(month: int): int { (153 * ((month + 9) % 12) + 2) / 5 }

  /** Leap days up to a year, of the Gregorian rule. */
  function LeapDays(year: int): int { year / 4 - year / 100 + year / 400 }

  /** The number of a day in the Gregorian calendar, counted from 1 March of year 0. */
  function DayNumber(year: int, month: int, day: int): int {
    var y := if month <= 2 then year - 1 else year;
    365 * y + LeapDays(y) + MonthStart(month) + day - 1
  }

  /** The day is one of its month: it lies before the first of the next month. */
  predicate Gregorian(year: int, month: int, day: int) {
    1 <= month <= 12 && day >= 1 &&
    DayNumber(year, month, day) < if month == 12 then DayNumber(year + 1, 1, 1) else DayNumber(year, month + 1, 1)
  }

  lemma EveryFourth(n: int)
    ensures n / 4 - (n - 1) / 4 == if n % 4 == 0 then 1 else 0
  {
  }

  lemma Centuries(year: int)
    requires 1900 < year < 2100
    ensures year / 100 == (if year < 2000 then 19 else 20) && (year - 1) / 100 == (if year <= 2000 then 19 else 20)
    ensures year / 400 == (if year < 2000 then 4 else 5) && (year - 1) / 400 == (if year <= 2000 then 4 else 5)
  {
  }

  lemma LeapYears(year: int)
    requires 1900 < year < 2100
    ensures LeapDays(year) - LeapDays(year - 1) == if year % 4 == 0 then 1 else 0
  {
    EveryFourth(year);
    Centuries(year);
  }

  lemma MonthStarts()
    ensures MonthStart(1) == 306 && MonthStart(2) == 337 && MonthStart(3) == 0 && MonthStart(4) == 31
    ensures MonthStart(5) == 61 && MonthStart(6) == 92 && MonthStart(7) == 122 && MonthStart(8) == 153
    ensures MonthStart(9) == 184 && MonthStart(10) == 214 && MonthStart(11) == 245 && MonthStart(12) == 275
  {
  }

  lemma MonthEnds(mon: int, year: int)
    requires 0 <= mon <= 11 && 100 <= year <= 199
    ensures DaysIn(mon, year) ==
            (if mon == 11 then DayNumber(1901 + year, 1, 1) else DayNumber(1900 + year, mon + 2, 1)) -
            DayNumber(1900 + year, mon + 1, 1)
  {
    hide MonthStart, LeapDays;
    LeapYears(1900 + year);
    MonthStarts();
  }

  /** The times that can be set are exactly those of the Gregorian calendar from 2000 to 2099. */
  lemma SettableExactly(t: Time)
    ensures Settable(t) <==>
            2000 <= 1900 + t.year <= 2099 && Gregorian(1900 + t.year, t.mon + 1, t.mday) && 0 <= t.wday <= 6 &&
            0 <= t.hour <= 23 && 0 <= t.min <= 59 && 0 <= t.sec <= 59
  {
    hide DaysIn, MonthStart, LeapDays;
    if 100 <= t.year <= 199 && 0 <= t.mon <= 11 {
      MonthEnds(t.mon, t.year);
      DaysGoOn(1900 + t.year, t.mon + 1, t.mday);
      hide DayNumber;
    }
  }

  lemma DaysGoOn(year: int, month: int, day: int)
    ensures DayNumber(year, month, day) == DayNumber(year, month, 1) + day - 1
  {
  }

  const REG_MINUTES: nat := 0x03
  const REG_HOURS: nat := 0x04
  const REG_DAYS: nat := 0x05
  const REG_WEEKDAYS: nat := 0x06
  const REG_MONTHS: nat := 0x07
  const REG_YEARS: nat := 0x08

  predicate BitSet(value: byte, bit: nat) { value as int / Power2(bit) % 2 == 1 }

  function Power2(n: nat): (p: nat)
    ensures p > 0
  {
    if n == 0 then 1 else 2 * Power2(n - 1)
  }

  /** The chip runs, in no test mode, with its voltage intact and its century bit clear. */
  predicate Trusted(regs: seq<byte>)
    requires |regs| >= 9
  {
    !BitSet(regs[REG_CTRL1], 5) && !BitSet(regs[REG_CTRL1], 3) && !BitSet(regs[REG_CTRL1], 7) &&
    !BitSet(regs[REG_MONTHS], 7) && !BitSet(regs[REG_SECONDS], 7)
  }

  /** Each register holds the code of its own field. */
  predicate Holds(regs: seq<byte>, t: Time)
    requires |regs| >= 9
  {
    0 <= t.sec <= 59 && 0 <= t.min <= 59 && 0 <= t.hour <= 23 && 1 <= t.mday <= 31 && 0 <= t.wday <= 6 &&
    0 <= t.mon <= 11 && 100 <= t.year <= 199 &&
    regs[REG_SECONDS] % 0x80 == ToBcd(t.sec) && regs[REG_MINUTES] % 0x80 == ToBcd(t.min) &&
    regs[REG_HOURS] % 0x40 == ToBcd(t.hour) && regs[REG_DAYS] % 0x40 == ToBcd(t.mday) &&
    regs[REG_WEEKDAYS] % 0x08 == ToBcd(t.wday) && regs[REG_MONTHS] % 0x20 == ToBcd(t.mon + 1) &&
    regs[REG_YEARS] == ToBcd(t.year - 100)
  }

  lemma TopBits(value: byte)
    ensures BitSet(value, 7) <==> value >= 0x80
    ensures Running(value) <==> !BitSet(value, 5) && !BitSet(value, 3) && !BitSet(value, 7)
  {
    assert Power2(3) == 8;
    assert Power2(5) == 4 * Power2(3);
    assert Power2(7) == 4 * Power2(5);
  }

  lemma FieldExactly(code: byte, maximum: int, value: int)
    requires 0 <= maximum <= 99
    ensures IsValidBcd(code, maximum) && FromBcd(code) == value <==> 0 <= value <= maximum && code == ToBcd(value)
    ensures IsValidBcd(code, maximum) ==> (code == 0 <==> FromBcd(code) == 0)
  {
    if IsValidBcd(code, maximum) {
      BcdIsExact(code);
    }
    if 0 <= value <= maximum {
      BcdRoundTrip(value, maximum);
    }
  }

  /** A time is read exactly when the registers can be trusted and hold it. */
  lemma ReadExactly(regs: seq<byte>, t: Time)
    requires |regs| >= 9
    ensures Reading(regs) == Some(t) <==> Trusted(regs) && Holds(regs, t)
  {
    hide ToBcd, FromBcd, IsValidBcd, Running, BitSet;
    TopBits(regs[REG_CTRL1]);
    TopBits(regs[REG_MONTHS]);
    TopBits(regs[REG_SECONDS]);
    FieldExactly(regs[REG_SECONDS] % 0x80, 59, t.sec);
    FieldExactly(regs[REG_MINUTES] % 0x80, 59, t.min);
    FieldExactly(regs[REG_HOURS] % 0x40, 23, t.hour);
    FieldExactly(regs[REG_DAYS] % 0x40, 31, t.mday);
    FieldExactly(regs[REG_WEEKDAYS] % 0x08, 6, t.wday);
    FieldExactly(regs[REG_MONTHS] % 0x20, 12, t.mon + 1);
    FieldExactly(regs[REG_YEARS], 99, t.year - 100);
  }

  // --- writing over a faulty bus -------------------------------------------------------

  /** What a burst of writes leaves in the registers. */
  function Burst(regs: seq<byte>, at: nat, values: seq<byte>, o: Outcome): (r: seq<byte>)
    requires at + |values| <= |regs|
    ensures |r| == |regs|
  {
    var taken := if o.Done? || o.taken > |values| then |values| else o.taken;
    regs[..at] + values[..taken] + regs[at + taken..]
  }

  /** The registers after an attempt to set a time, and whether it succeeded. */
  function SetAttempt(regs: seq<byte>, t: Time, stop: Outcome, write: Outcome, start: Outcome): (r: (seq<byte>, bool))
    requires |regs| == REGISTERS
    ensures |r.0| == REGISTERS
  {
    if !Settable(t) then (regs, false)
    else
      var a := Burst(regs, REG_CTRL1, [CTRL1_STOP], stop);
      if !stop.Done? then (a, false)
      else
        var b := Burst(a, REG_SECONDS, CalendarOf(t), write);
        if !write.Done? then (b, false) else (Burst(b, REG_CTRL1, [0], start), start.Done?)
  }

  /** A set that succeeds is read back exactly. */
  lemma SetIsReadBack(regs: seq<byte>, t: Time, stop: Outcome, write: Outcome, start: Outcome)
    requires |regs| == REGISTERS && SetAttempt(regs, t, stop, write, start).1
    ensures Reading(SetAttempt(regs, t, stop, write, start).0) == Some(t)
  {
    hide Reading, CalendarOf, Burst;
    var a := Burst(regs, REG_CTRL1, [CTRL1_STOP], stop);
    var b := Burst(a, REG_SECONDS, CalendarOf(t), write);
    CalendarBurst(a, CalendarOf(t), write);
    ControlBurst(b, 0, start);
    CalendarIsRead(SetAttempt(regs, t, stop, write, start).0, t);
  }

  /** A set succeeds exactly for a time of the calendar over a bus without a fault; then every register holds its field. */
  lemma SetSucceedsExactly(regs: seq<byte>, t: Time, stop: Outcome, write: Outcome, start: Outcome)
    requires |regs| == REGISTERS
    ensures var (after, ok) := SetAttempt(regs, t, stop, write, start);
      && (ok <==> Settable(t) && stop.Done? && write.Done? && start.Done?)
      && (ok ==> Trusted(after) && Holds(after, t) && after[1] == regs[1] && after[9..] == regs[9..])
      && (!Settable(t) ==> after == regs)
  {
    hide CalendarOf, Reading, Settable, Trusted, Holds;
    var (after, ok) := SetAttempt(regs, t, stop, write, start);
    if ok {
      SetIsReadBack(regs, t, stop, write, start);
      ReadExactly(after, t);
    }
  }

  /** Whatever fails, and wherever: the old time, the whole new one, or none. */
  lemma SetIsNeverTorn(regs: seq<byte>, t: Time, stop: Outcome, write: Outcome, start: Outcome)
    requires |regs| == REGISTERS
    ensures Reading(SetAttempt(regs, t, stop, write, start).0) in {None, Reading(regs), Some(t)}
  {
    hide CalendarOf, Burst, Reading;
    if Settable(t) {
      var a := Burst(regs, REG_CTRL1, [CTRL1_STOP], stop);
      ControlBurst(regs, CTRL1_STOP, stop);
      StoppedIsRefused(a);
      if stop.Done? {
        var b := Burst(a, REG_SECONDS, CalendarOf(t), write);
        CalendarBurst(a, CalendarOf(t), write);
        StoppedIsRefused(b);
        if write.Done? {
          var c := Burst(b, REG_CTRL1, [0], start);
          ControlBurst(b, 0, start);
          StoppedIsRefused(c);
          if c[REG_CTRL1] == 0 {
            CalendarIsRead(c, t);
          }
        }
      }
    }
  }

  lemma ControlBurst(regs: seq<byte>, value: byte, o: Outcome)
    requires |regs| == REGISTERS
    ensures var now := Burst(regs, REG_CTRL1, [value], o);
            now == regs || (now[REG_CTRL1] == value && now[1..] == regs[1..])
    ensures o.Done? ==> Burst(regs, REG_CTRL1, [value], o)[REG_CTRL1] == value
    ensures Burst(regs, REG_CTRL1, [value], o)[REG_SECONDS..9] == regs[REG_SECONDS..9]
  {
  }

  lemma CalendarBurst(regs: seq<byte>, values: seq<byte>, o: Outcome)
    requires |regs| == REGISTERS && |values| == CALENDAR
    ensures var now := Burst(regs, REG_SECONDS, values, o);
            now[REG_CTRL1] == regs[REG_CTRL1] && (o.Done? ==> now[REG_SECONDS..9] == values)
  {
  }

  lemma StoppedIsRefused(regs: seq<byte>)
    requires |regs| == REGISTERS
    ensures regs[REG_CTRL1] == CTRL1_STOP ==> Reading(regs) == None
  {
  }

  datatype Attempt = Attempt(time: Time, stop: Outcome, write: Outcome, start: Outcome)

  function After(regs: seq<byte>, attempts: seq<Attempt>): (r: seq<byte>)
    requires |regs| == REGISTERS
    ensures |r| == REGISTERS
  {
    if attempts == [] then regs
    else
      var a := attempts[|attempts| - 1];
      SetAttempt(After(regs, attempts[..|attempts| - 1]), a.time, a.stop, a.write, a.start).0
  }

  /** Over any run of attempts, a reading is the first one or a whole time that was asked for; never a mix. */
  lemma {:induction false} RunIsNeverTorn(regs: seq<byte>, attempts: seq<Attempt>)
    requires |regs| == REGISTERS
    ensures var r := Reading(After(regs, attempts));
            r == None || r == Reading(regs) || exists i :: 0 <= i < |attempts| && r == Some(attempts[i].time)
  {
    hide Reading, SetAttempt;
    if attempts != [] {
      var front, a := attempts[..|attempts| - 1], attempts[|attempts| - 1];
      RunIsNeverTorn(regs, front);
      SetIsNeverTorn(After(regs, front), a.time, a.stop, a.write, a.start);
      if i :| 0 <= i < |front| && Reading(After(regs, front)) == Some(front[i].time) {
        assert front[i] == attempts[i];
      }
    }
  }

  class RtcPcf8563 {
    const registers: array<byte>

    ghost predicate Valid() { registers.Length == REGISTERS }

    constructor ()
      ensures Valid() && fresh(registers)
    {
      registers := new byte[REGISTERS](_ => 0);
    }

    /** Sends values to consecutive registers; the chip takes a prefix of them when the bus fails. */
    method WriteRegsChecked(at: nat, values: seq<byte>, o: Outcome) returns (ok: bool)
      requires Valid() && at + |values| <= REGISTERS
      modifies registers
      ensures registers[..] == Burst(old(registers[..]), at, values, o) && ok == o.Done?
    {
      ghost var before := registers[..];
      var i := 0;
      while i < |values| && (o.Done? || i < o.taken)
        invariant 0 <= i <= |values| && (o.Faulty? ==> i <= o.taken)
        invariant forall k :: 0 <= k < REGISTERS ==>
          registers[k] == if at <= k < at + i then values[k - at] else before[k]
      {
        registers[at + i] := values[i];
        i := i + 1;
      }
      assert registers[..] == before[..at] + values[..i] + before[at + i..];
      ok := o.Done?;
    }

    method StopClock(o: Outcome) returns (ok: bool)
      requires Valid()
      modifies registers
      ensures registers[..] == Burst(old(registers[..]), REG_CTRL1, [CTRL1_STOP], o) && ok == o.Done?
    {
      ok := WriteRegsChecked(REG_CTRL1, [CTRL1_STOP], o);
    }

    method SetTime(t: Time, stop: Outcome, write: Outcome, start: Outcome) returns (ok: bool)
      requires Valid()
      modifies registers
      ensures (registers[..], ok) == SetAttempt(old(registers[..]), t, stop, write, start)
      ensures ok ==> Reading(registers[..]) == Some(t)
      ensures Reading(registers[..]) in {None, Reading(old(registers[..])), Some(t)}
    {
      hide Burst, Reading, ToBcd;
      SetIsNeverTorn(registers[..], t, stop, write, start);
      if SetAttempt(registers[..], t, stop, write, start).1 {
        SetIsReadBack(registers[..], t, stop, write, start);
      }
      if !Settable(t) {
        return false;
      }
      ok := StopClock(stop);
      if !ok {
        return;
      }
      var values := [ToBcd(t.sec) % 0x80, ToBcd(t.min) % 0x80, ToBcd(t.hour) % 0x40, ToBcd(t.mday) % 0x40,
                     ToBcd(t.wday) % 0x08, ToBcd(t.mon + 1) % 0x20, ToBcd(t.year % 100)];
      ok := WriteRegsChecked(REG_SECONDS, values, write);
      if !ok {
        return;
      }
      ok := WriteRegsChecked(REG_CTRL1, [0], start);
    }

    /** One read latches the whole calendar; `works` tells whether the bus lets it through. */
    method GetTime(works: bool) returns (time: Option<Time>)
      requires Valid()
      ensures time == if works then Reading(registers[..]) else None
    {
      hide FromBcd, IsValidBcd, Running;
      if !works {
        return None;
      }
      var regs := registers[..9];
      if !Running(regs[REG_CTRL1]) || regs[7] >= 0x80 {
        return None;
      }
      var b := regs[REG_SECONDS..];
      assert b == registers[..][REG_SECONDS..9];
      if b[0] >= 0x80 {
        return None;
      }
      if !IsValidBcd(b[0] % 0x80, 59) || !IsValidBcd(b[1] % 0x80, 59) || !IsValidBcd(b[2] % 0x40, 23) ||
         !IsValidBcd(b[3] % 0x40, 31) || !IsValidBcd(b[4] % 0x08, 6) || !IsValidBcd(b[5] % 0x20, 12) ||
         !IsValidBcd(b[6], 99) || b[3] % 0x40 == 0 || b[5] % 0x20 == 0 {
        return None;
      }
      time := Some(Time(FromBcd(b[0] % 0x80), FromBcd(b[1] % 0x80), FromBcd(b[2] % 0x40), FromBcd(b[3] % 0x40),
                        FromBcd(b[4] % 0x08), FromBcd(b[5] % 0x20) - 1, FromBcd(b[6]) + 100));
    }
  }
}
