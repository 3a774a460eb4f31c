/** Timestamp conversion of time_calls.h.  LARGE_INTEGER counters are 64-bit signed
    values that are never negative; LONG is 32 bits wide and wraps. */
module Timestamps {
  import opened Bytes

  const MICROS := 1_000_000
  const TICKS := 10_000_000
  const EPOCH := 11_644_473_600
  const CPUS := 32

  type Counter = x: int | 0 <= x < 0x8000_0000_0000_0000

  /** The counter frequency: 10^6 times a second of ticks fits 64 bits. */
  type Frequency = f: int | 0 < f <= 0x7fff_ffff_ffff_ffff / 1_000_000 witness 1

  /** A struct timeval. */
  datatype Timeval = Timeval(sec: i32, usec: i32) {
    predicate Normal() { 0 <= usec < MICROS }

    function Total(): int { sec * MICROS + usec }

    /** The lexicographic order of the fix-up test. */
    predicate After(t: Timeval) { sec > t.sec || (sec == t.sec && usec > t.usec) }
  }

  datatype Mode = SingleSynchronization | OnCpuWithFixup | OnCpuNoFixup

  // ---- the specification -----------------------------------------------------------------

  /** On normalised pairs the order of the code is the order of time. */
  lemma AfterIsLater(t: Timeval, u: Timeval)
    requires t.Normal() && u.Normal()
    ensures t.After(u) <==> t.sec * 1_000_000 + t.usec > u.sec * 1_000_000 + u.usec
  {}

  /** A number of microseconds since 1970 as a normalised pair; only the seconds wrap. */
  function Reading(total: int): (t: Timeval)
    ensures t.Normal()
  {
    Timeval(ToI32(total / MICROS), total % MICROS)
  }

  /** Whole microseconds since 1970 of a system time in ticks of 100 ns since 1601. */
  function Micros(systemTime: Counter): int { systemTime / 10 - EPOCH * MICROS }

  /** The leap years of the Gregorian calendar. */
  predicate IsLeap(year: int) { year % 4 == 0 && (year % 100 != 0 || year % 400 == 0) }

  /** The days of n years from 1601 on. */
  function Days(n: nat): nat { if n == 0 then 0 else Days(n - 1) + if IsLeap(1600 + n) then 366 else 365 }

  lemma Fourth(n: nat)
    requires n > 0
    ensures n / 4 == (n - 1) / 4 + if (1600 + n) % 4 == 0 then 1 else 0
  {}

  lemma Hundredth(n: nat)
    requires n > 0
    ensures n / 100 == (n - 1) / 100 + if (1600 + n) % 100 == 0 then 1 else 0
  {}

  lemma FourHundredth(n: nat)
    requires n > 0
    ensures n / 400 == (n - 1) / 400 + if (1600 + n) % 400 == 0 then 1 else 0
  {}

  lemma Centuries(y: nat)
    ensures y % 400 == 0 ==> y % 100 == 0
  {
    if y % 400 == 0 { assert y == 100 * (4 * (y / 400)); }
  }

  lemma FourTimes(k: nat)
    ensures 4 * k % 4 == 0
  {}

  lemma Fours(y: nat)
    ensures y % 100 == 0 ==> y % 4 == 0
  {
    if y % 100 == 0 { FourTimes(25 * (y / 100)); }
  }

  lemma {:induction false} DaysAre(n: nat)
    ensures Days(n) == 365 * n + n / 4 - n / 100 + n / 400
  {
    if n > 0 {
      DaysAre(n - 1);
      Fourth(n);
      Hundredth(n);
      FourHundredth(n);
      Centuries(1600 + n);
      Fours(1600 + n);
    }
  }

  /** The constant of the code is the time from 1601 to 1970: so many days of 86400 seconds
      after the start of 1601, counted in units of 100 ns, the microseconds start at zero. */
  lemma EpochIs1970(u: nat)
    requires 86_400 * Days(369) * 10_000_000 + 10 * u < 0x8000_0000_0000_0000
    ensures Micros(86_400 * Days(369) * 10_000_000 + 10 * u) == u
  {
    DaysAre(369);
    hide Days;
    assert Days(369) == 134_774;
  }

  /** Whole microseconds of a counter value. */
  function Elapsed(p: Counter, f: Frequency): int { p * MICROS / f }

  lemma InRange32(v: int)
    requires -0x8000_0000 <= v < 0x8000_0000
    ensures ToI32(v) == v
  {}

  /** Inside the range of LONG nothing wraps. */
  lemma ReadingExact(total: int)
    requires -0x8000_0000 * MICROS <= total < 0x8000_0000 * MICROS
    ensures Reading(total).Total() == total
  {
    assert total == total / MICROS * MICROS + total % MICROS;
    InRange32(total / MICROS);
  }

  /** The microseconds two readings are apart differ from the true elapsed time by
      less than one, whatever the frequency: |d - (p - p0) * 10^6 / f| < 1. */
  lemma WithinOneMicrosecond(p0: Counter, p: Counter, f: Frequency)
    ensures var d, unit: int := Elapsed(p, f) - Elapsed(p0, f), f;
            -unit < d * unit - (p - p0) * MICROS < unit
  {
    var a, b := p * MICROS, p0 * MICROS;
    assert a == f * (a / f) + a % f && b == f * (b / f) + b % f;
  }

  // ---- arithmetic of the pairs --------------------------------------------------------------

  lemma Monotone(m: nat, a: int, b: int)
    requires a <= b
    ensures m * a <= m * b
  {}

  lemma OnlyZero(m: int, k: int)
    requires -m < m * k < m
    ensures k == 0
  {
    if k >= 1 { Monotone(m, 1, k); }
    if k <= -1 { Monotone(m, k, -1); }
  }

  lemma Quotient(v: int, m: int, q: int, r: int)
    requires m > 0 && v == q * m + r && 0 <= r < m
    ensures v / m == q && v % m == r
  {
    var e, w := v / m, v % m;
    assert v == m * e + w;
    assert m * (e - q) == m * e - m * q;
    OnlyZero(m, e - q);
  }

  lemma Shift32(v: int, q: int)
    ensures ToI32(v - q * 0x1_0000_0000) == ToI32(v)
  {
    var m := 0x1_0000_0000;
    var w := v + 0x8000_0000;
    var d := w / m;
    assert w - q * m == (d - q) * m + w % m;
    Quotient(w - q * m, m, d - q, w % m);
  }

  lemma Wrap32(a: int, b: int)
    ensures ToI32(ToI32(a) + b) == ToI32(a + b)
  {
    var q := (a + 0x8000_0000) / 0x1_0000_0000;
    assert ToI32(a) == a - q * 0x1_0000_0000;
    Shift32(a + b, q);
  }

  /** The single carry or borrow of the code: seconds that may have wrapped and
      microseconds that may be off by one second. */
  function Carried(sec: i32, usec: int): (t: Timeval)
    requires -MICROS < usec < 2 * MICROS
  {
    if usec < 0 then Timeval(ToI32(sec - 1), usec + MICROS)
    else if usec >= MICROS then Timeval(ToI32(sec + 1), usec - MICROS)
    else Timeval(sec, usec)
  }

  lemma CarriedIsReading(sec: int, usec: int)
    requires -MICROS < usec < 2 * MICROS
    ensures Carried(ToI32(sec), usec) == Reading(sec * MICROS + usec)
  {
    var total := sec * MICROS + usec;
    hide ToI32;
    if usec < 0 {
      Quotient(total, MICROS, sec - 1, usec + MICROS);
      Wrap32(sec, -1);
    } else if usec >= MICROS {
      Quotient(total, MICROS, sec + 1, usec - MICROS);
      Wrap32(sec, 1);
    } else {
      Quotient(total, MICROS, sec, usec);
    }
  }

  lemma BelowOne(f: int, r: int, u: int)
    requires 0 <= r < f && f * u <= r * MICROS < f * u + f
    ensures 0 <= u < MICROS
  {
    if u >= MICROS { Monotone(f, MICROS, u); }
    if u < 0 { Monotone(f, u, -1); }
  }

  lemma Spread(p: int, f: int, s: int, r: int, u: int, w: int)
    requires p == f * s + r && r * MICROS == f * u + w
    ensures p * MICROS == (s * MICROS + u) * f + w
  {
    assert (s * MICROS + u) * f == f * s * MICROS + f * u;
  }

  /** The microseconds the code takes from a remainder. */
  lemma SplitElapsed(p: Counter, f: Frequency)
    ensures 0 <= p % f * MICROS / f < MICROS
    ensures p / f * MICROS + p % f * MICROS / f == Elapsed(p, f)
  {
    var s, r := p / f, p % f;
    assert p == f * s + r;
    var u := r * MICROS / f;
    assert r * MICROS == f * u + r * MICROS % f;
    BelowOne(f, r, u);
    assert p * MICROS == (s * MICROS + u) * f + r * MICROS % f by { Spread(p, f, s, r, u, r * MICROS % f); }
    Quotient(p * MICROS, f, s * MICROS + u, r * MICROS % f);
  }

  lemma SplitSystemTime(s: Counter)
    ensures s / TICKS * MICROS + s % TICKS / 10 == s / 10
    ensures 0 <= s % TICKS / 10 < MICROS
  {
    var q, r := s / TICKS, s % TICKS;
    assert s == q * MICROS * 10 + r;
    Quotient(s, 10, q * MICROS + r / 10, r % 10);
  }

  /** Readings may be taken relative to the pair or to what the pair stands for. */
  lemma ReadingOfReading(base: int, elapsed: int)
    ensures Reading(Reading(base).Total() + elapsed) == Reading(base + elapsed)
  {
    var t := Reading(base);
    var s := base / MICROS;
    var e := t.usec + elapsed;
    assert base == s * MICROS + t.usec;
    Quotient(t.Total() + elapsed, MICROS, t.sec + e / MICROS, e % MICROS);
    Quotient(base + elapsed, MICROS, s + e / MICROS, e % MICROS);
    hide ToI32;
    Wrap32(s, e / MICROS);
  }

  // ---- the code -----------------------------------------------------------------------------

  /** (LONG)((p % f) * 1000000 / f) */
  function Micro(p: Counter, f: Frequency): (u: i32)
    ensures 0 <= u < MICROS
  {
    SplitElapsed(p, f);
    p % f * MICROS / f
  }

  lemma Regroup(systemTime: Counter, p: Counter, f: Frequency, s: int, u: int)
    requires s == systemTime / TICKS - EPOCH - p / f && u == systemTime % TICKS / 10 - Micro(p, f)
    ensures s * MICROS + u == Micros(systemTime) - Elapsed(p, f)
  {
    SplitSystemTime(systemTime);
    SplitElapsed(p, f);
    var a, b := systemTime / TICKS, p / f;
    assert s * MICROS == a * MICROS - EPOCH * MICROS - b * MICROS;
  }

  /** SynchronizeOnCpu (time_calls.h:125-153). */
  method SynchronizeOnCpu(systemTime: Counter, p: Counter, f: Frequency) returns (start: Timeval)
    ensures start == Reading(Micros(systemTime) - Elapsed(p, f))
  {
    hide ToI32, Reading;
    SplitSystemTime(systemTime);
    SplitElapsed(p, f);
    var sec: int := ToI32(systemTime / TICKS - EPOCH);
    var usec: int := systemTime % TICKS / 10;
    sec := ToI32(sec - p / f);
    usec := usec - Micro(p, f);
    ghost var s, u := systemTime / TICKS - EPOCH - p / f, usec;
    Wrap32(systemTime / TICKS - EPOCH, -(p / f));
    if usec < 0 {
      sec := ToI32(sec - 1);
      usec := usec + MICROS;
    }
    start := Timeval(sec, usec);
    CarriedIsReading(s, u);
    Regroup(systemTime, p, f, s, u);
  }

  /** Adding a counter value to a pair with one carry. */
  lemma AddPair(start: Timeval, p: Counter, f: Frequency)
    requires start.Normal()
    ensures Carried(ToI32(start.sec + p / f), start.usec + Micro(p, f)) == Reading(start.Total() + Elapsed(p, f))
  {
    hide ToI32, Reading;
    var b: int, startSec: int := p / f, start.sec;
    SplitElapsed(p, f);
    CarriedIsReading(startSec + b, start.usec + Micro(p, f));
    assert (startSec + b) * MICROS == startSec * MICROS + b * MICROS;
  }

  /** The common part of GetTimeKQPC (time_calls.h:342, 351-358 and 369-376). */
  method ReadCounter(start: Timeval, p: Counter, f: Frequency) returns (dst: Timeval)
    requires start.Normal()
    ensures dst == Reading(start.Total() + Elapsed(p, f))
  {
    hide ToI32, Reading, Micro, Elapsed;
    var tmp: int := ToI32(p / f);
    var startSec: int := start.sec;
    var sec: int := ToI32(startSec + tmp);
    var usec: int := start.usec + Micro(p, f);
    Wrap32(p / f, startSec);
    AddPair(start, p, f);
    if usec >= MICROS {
      sec := ToI32(sec + 1);
      usec := usec - MICROS;
    }
    dst := Timeval(sec, usec);
  }

  /** The greatest of the times in microseconds, and of 1970. */
  function Greatest(ts: seq<Timeval>): int {
    if ts == [] then 0
    else
      var g, t := Greatest(ts[..|ts| - 1]), ts[|ts| - 1];
      if t.sec * 1_000_000 + t.usec > g then t.sec * 1_000_000 + t.usec else g
  }

  /** No reading is beyond it, and it is the time of one of them or 1970. */
  lemma {:induction false} GreatestIsMaximum(ts: seq<Timeval>)
    ensures forall t :: t in ts ==> t.Total() <= Greatest(ts)
    ensures Greatest(ts) >= 0 && (Greatest(ts) != 0 ==> exists t :: t in ts && t.Total() == Greatest(ts))
  {
    if ts != [] {
      var n := |ts| - 1;
      GreatestIsMaximum(ts[..n]);
      assert ts == ts[..n] + [ts[n]];
      if ts[n].Total() > Greatest(ts[..n]) {
        assert ts[n] in ts;
      } else if Greatest(ts) != 0 {
        var t :| t in ts[..n] && t.Total() == Greatest(ts);
        assert t in ts;
      }
    }
  }

  /** The returned timestamps are normalised, each is the greatest time read so far, and
      they never decrease. */
  ghost predicate FixedUp(raw: seq<Timeval>, returned: seq<Timeval>) {
    && |raw| == |returned|
    && (forall i :: 0 <= i < |returned| ==> returned[i].Normal() && returned[i].Total() == Greatest(raw[..i + 1]))
    && (forall i, j :: 0 <= i < j < |returned| ==> returned[i].Total() <= returned[j].Total())
    && (forall i :: 0 <= i < |returned| ==> returned[i].Total() <= Greatest(raw))
  }

  lemma GreatestStep(raw: seq<Timeval>, t: Timeval)
    ensures Greatest(raw + [t]) == if t.Total() > Greatest(raw) then t.Total() else Greatest(raw)
  {
    assert (raw + [t])[..|raw|] == raw;
  }

  /** One fix-up: the pair r that is returned is the greater in time of the reading and the
      greatest time so far. */
  lemma FixedUpStep(raw: seq<Timeval>, returned: seq<Timeval>, t: Timeval, r: Timeval)
    requires FixedUp(raw, returned) && r.Normal()
    requires r.Total() == if t.Total() > Greatest(raw) then t.Total() else Greatest(raw)
    ensures FixedUp(raw + [t], returned + [r]) && r.Total() == Greatest(raw + [t])
  {
    GreatestStep(raw, t);
    hide Greatest, Timeval.Normal, Timeval.Total;
    var out, more := returned + [r], raw + [t];
    forall i | 0 <= i < |out|
      ensures out[i].Normal() && out[i].Total() == Greatest(more[..i + 1]) && out[i].Total() <= r.Total()
    {
      if i < |raw| {
        assert more[..i + 1] == raw[..i + 1];
      } else {
        assert more[..i + 1] == more;
      }
    }
  }

  /** The static variable of GetTimeKQPC, one for all clocks that read through it. */
  class OldTimestamp {
    var ts: Timeval
    /** The readings of the fix-up mode before and after the fix-up. */
    ghost var raw: seq<Timeval>
    ghost var returned: seq<Timeval>

    ghost predicate Valid()
      reads this
    {
      FixedUp(raw, returned) && ts.Normal() && ts.Total() == Greatest(raw)
    }

    constructor ()
      ensures Valid() && raw == []
    {
      ts, raw, returned := Timeval(0, 0), [], [];
    }
  }

  /** The struct time_conv. */
  class TimeConv {
    const start: array<Timeval>
    var reference: nat

    ghost predicate Valid()
      reads this, start
    {
      start.Length == CPUS && forall i :: 0 <= i < CPUS ==> start[i].Normal()
    }

    constructor ()
      ensures Valid() && fresh(start) && start.Length == 32 && reference == 0
    {
      start := new Timeval[CPUS](_ => Timeval(0, 0));
      reference := 0;
    }

    /** TIME_SYNCHRONIZE (time_calls.h:268-305) for the counter modes; what the clocks
        of each processor show when it is their turn is an input. */
    method TimeSynchronize(mode: Mode, cpus: nat, systemTime: seq<Counter>, counter: seq<Counter>, f: Frequency)
      requires Valid() && 0 < cpus <= CPUS && |systemTime| == |counter| == cpus
      modifies this`reference, start
      ensures Valid() && reference != 0
      ensures old(reference) != 0 ==> start[..] == old(start[..])
      ensures old(reference) == 0 ==>
                forall i :: 0 <= i < (if mode == SingleSynchronization then 1 else cpus) ==>
                  start[i] == Reading(Micros(systemTime[i]) - Elapsed(counter[i], f))
      ensures forall i :: (if mode == SingleSynchronization then 1 else cpus) <= i < CPUS ==> start[i] == old(start[i])
    {
      hide Reading, FixedUp, Elapsed;
      if reference != 0 { return; }
      if mode == OnCpuWithFixup || mode == OnCpuNoFixup {
        for i := 0 to cpus
          invariant forall j :: 0 <= j < CPUS ==> start[j].Normal()
          invariant forall j :: i <= j < CPUS ==> start[j] == old(start[j])
          invariant forall j :: 0 <= j < i ==> start[j] == Reading(Micros(systemTime[j]) - Elapsed(counter[j], f))
        {
          var t := SynchronizeOnCpu(systemTime[i], counter[i], f);
          start[i] := t;
        }
      } else {
        var t := SynchronizeOnCpu(systemTime[0], counter[0], f);
        start[0] := t;
      }
      reference := 1;
    }

    /** GetTimeKQPC (time_calls.h:333-378) on a processor. */
    method GetTimeKQPC(oldTs: OldTimestamp, mode: Mode, cpu: nat, p: Counter, f: Frequency) returns (dst: Timeval)
      requires Valid() && oldTs.Valid() && cpu < CPUS
      modifies oldTs
      ensures oldTs.Valid() && dst.Normal()
      ensures var r := Reading(start[if mode == SingleSynchronization then 0 else cpu].Total() + Elapsed(p, f));
              if mode == OnCpuWithFixup
              then oldTs.raw == old(oldTs.raw) + [r] && oldTs.returned == old(oldTs.returned) + [dst]
                   && dst.Total() == (if r.Total() > old(oldTs.ts).Total() then r.Total() else old(oldTs.ts).Total())
              else dst == r && unchanged(oldTs)
    {
      hide Reading, FixedUp, Elapsed, Greatest;
      if mode == OnCpuWithFixup || mode == OnCpuNoFixup {
        dst := ReadCounter(start[cpu], p, f);
        if mode == OnCpuWithFixup {
          ghost var r := dst;
          AfterIsLater(oldTs.ts, dst);
          if oldTs.ts.After(dst) {
            dst := oldTs.ts;
          } else {
            oldTs.ts := dst;
          }
          FixedUpStep(oldTs.raw, oldTs.returned, r, dst);
          oldTs.raw, oldTs.returned := oldTs.raw + [r], oldTs.returned + [dst];
        }
      } else {
        dst := ReadCounter(start[0], p, f);
      }
    }
  }

  /** The microseconds that the reading should show: S is the system time and p0 the
      counter at synchronisation, p the counter now. */
  function Shown(s: Counter, p0: Counter, p: Counter, f: Frequency): int { Micros(s) + Elapsed(p, f) - Elapsed(p0, f) }

  /** The timestamp fits LONG. */
  predicate Fits(total: int) { -0x8000_0000 * MICROS <= total < 0x8000_0000 * MICROS }

  /** t shows the total exactly, and what it adds to the system time at synchronisation
      is within one microsecond of the true elapsed time (p - p0) * 10^6 / f. */
  predicate Accurate(t: Timeval, s: Counter, p0: Counter, p: Counter, f: Frequency) {
    var unit: int := f;
    t.Normal() && t.Total() == Shown(s, p0, p, f) && -unit < (t.Total() - Micros(s)) * unit - (p - p0) * MICROS < unit
  }

  lemma ReadingIsAccurate(s: Counter, p0: Counter, p: Counter, f: Frequency)
    requires Fits(Shown(s, p0, p, f))
    ensures Accurate(Reading(Shown(s, p0, p, f)), s, p0, p, f)
  {
    ReadingExact(Shown(s, p0, p, f));
    WithinOneMicrosecond(p0, p, f);
    hide Reading, Elapsed, Micros;
  }

  /** A reading of the counter modes in terms of the clocks; inside the range of LONG it
      is exact and accurate. */
  method SynchronizeAndRead(conv: TimeConv, oldTs: OldTimestamp, mode: Mode, cpus: nat,
                            systemTime: seq<Counter>, counter: seq<Counter>, cpu: nat, p: Counter, f: Frequency)
    returns (dst: Timeval)
    requires conv.Valid() && oldTs.Valid() && conv.reference == 0 && mode != OnCpuWithFixup
    requires 0 < cpus <= CPUS && |systemTime| == |counter| == cpus && cpu < cpus
    modifies conv, conv.start, oldTs
    ensures var k := if mode == SingleSynchronization then 0 else cpu;
            && dst == Reading(Shown(systemTime[k], counter[k], p, f))
            && (Fits(Shown(systemTime[k], counter[k], p, f)) ==> Accurate(dst, systemTime[k], counter[k], p, f))
  {
    hide Reading, Micros, Elapsed, TimeConv.Valid, OldTimestamp.Valid, Accurate, Fits;
    conv.TimeSynchronize(mode, cpus, systemTime, counter, f);
    dst := conv.GetTimeKQPC(oldTs, mode, cpu, p, f);
    ghost var k := if mode == SingleSynchronization then 0 else cpu;
    ReadingOfReading(Micros(systemTime[k]) - Elapsed(counter[k], f), Elapsed(p, f));
    if Fits(Shown(systemTime[k], counter[k], p, f)) { ReadingIsAccurate(systemTime[k], counter[k], p, f); }
  }

  // ---- the time stamp counter ------------------------------------------------------------------

  function WrappedMicro(rest: int, f: Frequency): i32 {
    ToI32(rest % 0x1_0000_0000_0000_0000 * MICROS % 0x1_0000_0000_0000_0000 / f)
  }

  /** (LONG)((tmp - tv_sec * reference) * 1000000 / reference) in 64-bit unsigned arithmetic */
  function MicroRDTSC(ticks: Counter, sec: int, f: Frequency): i32 {
    WrappedMicro(ticks - sec * f, f)
  }

  lemma SameRest(ticks: Counter, sec: int, f: Frequency)
    requires ticks - sec * f == ticks % f
    ensures MicroRDTSC(ticks, sec, f) == WrappedMicro(ticks % f, f)
  {
    hide WrappedMicro;
  }

  lemma NoOverflow(r: int, f: Frequency)
    requires 0 <= r < f
    ensures r % 0x1_0000_0000_0000_0000 == r && r * MICROS % 0x1_0000_0000_0000_0000 == r * MICROS
  {}

  lemma SmallMicro(ticks: Counter, f: Frequency)
    ensures WrappedMicro(ticks % f, f) == Micro(ticks, f)
  {
    hide ToI32;
    NoOverflow(ticks % f, f);
    InRange32(Micro(ticks, f));
  }

  lemma Remainder(ticks: Counter, f: Frequency, sec: int)
    requires sec == ticks / f
    ensures ticks - sec * f == ticks % f
  {
    assert ticks == f * sec + ticks % f;
  }

  lemma SmallCounter(ticks: Counter, f: Frequency)
    requires ticks / f < 0x8000_0000
    ensures ToI32(ticks / f) == ticks / f && MicroRDTSC(ticks, ticks / f, f) == Micro(ticks, f)
  {
    hide ToI32, Micro, MicroRDTSC;
    InRange32(ticks / f);
    Remainder(ticks, f, ticks / f);
    SmallMicro(ticks, f);
    SameRest(ticks, ticks / f, f);
  }

  /** The pair the code makes of seconds and microseconds that it has added up. */
  function RdtscPair(sec: i32, usec: i32): Timeval {
    if usec >= MICROS then Timeval(ToI32(sec + 1), usec - MICROS) else Timeval(sec, usec)
  }

  lemma NextSecond(sec: i32)
    ensures ToI32(sec + 1) != sec
  {}

  lemma SameSum(x: i32, m: int, u: int)
    requires 0 <= m < MICROS && 0 <= u < MICROS
    ensures ToI32(x + u) == m + u <==> x == m
  {}

  /** The pair is right exactly when the microseconds taken from the counter are. */
  lemma RdtscPairExactly(sec: i32, u: int, m: int, x: i32)
    requires 0 <= u < MICROS && 0 <= m < MICROS
    ensures RdtscPair(sec, ToI32(x + u)) == Carried(sec, m + u) <==> x == m
  {
    SameSum(x, m, u);
    NextSecond(sec);
    hide ToI32;
  }

  const WORD := 0x1_0000_0000

  /** How often the seconds have wrapped in LONG. */
  function Wraps(ticks: Counter, f: Frequency): nat { (ticks / f + 0x8000_0000) / WORD }

  /** What the wraps add to the upper half of the product. */
  function Upper(ticks: Counter, f: Frequency): (c: nat)
    ensures c < WORD
  {
    Wraps(ticks, f) * f * MICROS % WORD
  }

  /** A guard on counter and reference: either the product fits 64 bits and the upper half
      is a multiple of the reference, up to less than a microsecond, or it overflows and
      what is lost is made up by the fraction of the microsecond. */
  predicate ProductHolds(ticks: Counter, f: Frequency) {
    var r, c: int := ticks % f * MICROS, Upper(ticks, f);
    if r + WORD * c < WORD * WORD then r % f + WORD * (c % f) < f else WORD * (WORD - c) <= r % f
  }

  lemma SecondsWrap(v: int)
    ensures ToI32(v) == v - (v + 0x8000_0000) / WORD * WORD
  {}

  lemma ModOfProduct(x: int, m: int, d: int)
    requires d > 0
    ensures x % d * m % d == x * m % d
  {
    var k, y := x / d, x % d;
    assert x == d * k + y;
    var j, z := y * m / d, y * m % d;
    assert y * m == d * j + z;
    assert x * m == (k * m + j) * d + z by {
      assert x * m == d * k * m + y * m;
      assert (k * m + j) * d == d * k * m + d * j;
    }
    Quotient(x * m, d, k * m + j, z);
  }

  lemma SameResidue(v: int, u: int, d: int)
    requires d > 0
    ensures (v + d * u) % d == v % d
  {
    var k, z := v / d, v % d;
    assert v == d * k + z;
    assert v + d * u == (k + u) * d + z by { assert (k + u) * d == d * k + d * u; }
    Quotient(v + d * u, d, k + u, z);
  }

  /** The product of the code, with the wraps split off. */
  lemma ProductIs(ticks: Counter, f: Frequency)
    ensures (ticks - ToI32(ticks / f) * f) % 0x1_0000_0000_0000_0000 * MICROS % 0x1_0000_0000_0000_0000
         == (ticks % f * MICROS + WORD * Upper(ticks, f)) % 0x1_0000_0000_0000_0000
  {
    var q, r, w := ticks / f, ticks % f, Wraps(ticks, f);
    var x := ticks - ToI32(q) * f;
    SecondsWrap(q);
    assert ticks == f * q + r;
    assert ToI32(q) * f == q * f - w * WORD * f;
    assert x == r + WORD * (w * f) by { assert w * WORD * f == WORD * (w * f); }
    ModOfProduct(x, MICROS, 0x1_0000_0000_0000_0000);
    var a := w * f * MICROS;
    var u := a / WORD;
    assert a == WORD * u + Upper(ticks, f);
    assert x * MICROS == r * MICROS + WORD * a;
    SameResidue(r * MICROS + WORD * Upper(ticks, f), u, 0x1_0000_0000_0000_0000);
  }

  lemma SmallShift(m: int, g: int)
    requires 0 <= m < MICROS && 0 <= g < WORD
    ensures ToI32(m + g) == m <==> g == 0
  {}

  /** Only a multiple of 2^32 disappears in LONG. */
  lemma VanishesExactly(m: int, k: int, g: int)
    requires 0 <= m < MICROS && 0 <= g < WORD
    ensures ToI32(m + WORD * k + g) == m <==> g == 0
  {
    Shift32(m + g, -k);
    SmallShift(m, g);
  }

  lemma QuotientBelow(n: int, s: int, e: int, f: Frequency)
    requires 0 <= s < f && 0 <= e < f && e < WORD && n == s + WORD * e
    ensures 0 <= n / f < WORD && (n / f == 0 <==> n < f)
  {
    var g := n / f;
    assert n == f * g + n % f;
    assert n < f * WORD;
    if g >= WORD { Monotone(f, WORD, g); }
    if g >= 1 { Monotone(f, 1, g); }
  }

  lemma Gather(f: int, m: int, k: int, g: int)
    ensures (m + WORD * k + g) * f == f * m + WORD * (f * k) + f * g
  {
    assert (m + WORD * k + g) * f == m * f + (WORD * k) * f + g * f;
  }

  lemma FitsParts(f: int, r10: int, c: int, m: int, s: int, k: int, e: int, g: int, t: int)
    requires r10 == f * m + s && c == f * k + e && s + WORD * e == f * g + t
    ensures r10 + WORD * c == (m + WORD * k + g) * f + t
  {
    Gather(f, m, k, g);
  }

  lemma FitsQuotient(r10: nat, c: nat, f: Frequency)
    ensures (r10 + WORD * c) / f == r10 / f + WORD * (c / f) + (r10 % f + WORD * (c % f)) / f
  {
    var m, s, k, e := r10 / f, r10 % f, c / f, c % f;
    var n := s + WORD * e;
    var g, t := n / f, n % f;
    assert r10 == f * m + s;
    assert c == f * k + e;
    assert n == f * g + t;
    FitsParts(f, r10, c, m, s, k, e, g, t);
    Quotient(r10 + WORD * c, f, m + WORD * k + g, t);
  }

  lemma AtMost(c: nat, f: Frequency)
    ensures 0 <= c % f <= c
  {
    assert c == f * (c / f) + c % f;
    Monotone(f, 0, c / f);
  }

  /** The product fits: r10 is the remainder times 10^6. */
  lemma FitsExactly(r10: nat, c: nat, f: Frequency)
    requires c < WORD && r10 / f < MICROS
    ensures ToI32((r10 + WORD * c) / f) == r10 / f <==> r10 % f + WORD * (c % f) < f
  {
    hide ToI32;
    FitsQuotient(r10, c, f);
    var n := r10 % f + WORD * (c % f);
    AtMost(c, f);
    QuotientBelow(n, r10 % f, c % f, f);
    VanishesExactly(r10 / f, c / f, n / f);
  }

  lemma FloorBelow(f: nat, g: int, n: int, t: int)
    requires n == f * g + t && 0 <= t < f
    ensures (g >= 0 <==> n >= 0) && (g >= 1 <==> n >= f)
  {
    if g >= 1 { Monotone(f, 1, g); }
    if g <= 0 { Monotone(f, g, 0); }
    if g <= -1 { Monotone(f, g, -1); }
  }

  /** The product overflows by less than 2^64. */
  lemma OverflowsExactly(r10: nat, c: nat, f: Frequency)
    requires c < WORD && r10 / f < MICROS && 0 <= r10 + WORD * c - WORD * WORD
    ensures ToI32((r10 + WORD * c - WORD * WORD) / f) == r10 / f <==> WORD * (WORD - c) <= r10 % f
  {
    var m, s := r10 / f, r10 % f;
    assert r10 == f * m + s;
    var y, n := r10 + WORD * c - WORD * WORD, s - WORD * (WORD - c);
    var g := n / f;
    assert n == f * g + n % f && y == f * m + n;
    Gather(f, m, 0, g);
    Quotient(y, f, m + g, n % f);
    FloorBelow(f, g, n, n % f);
    FloorBelow(f, m + g, y, n % f);
    hide ToI32;
    InRange32(m + g);
  }

  /** The microseconds are right exactly when the guard holds. */
  lemma ProductExactly(ticks: Counter, f: Frequency)
    ensures MicroRDTSC(ticks, ToI32(ticks / f), f) == Micro(ticks, f) <==> ProductHolds(ticks, f)
  {
    var r, c := ticks % f * MICROS, Upper(ticks, f);
    ProductIs(ticks, f);
    SplitElapsed(ticks, f);
    assert 0 <= r < f * MICROS;
    hide ToI32, Upper;
    var x := r + WORD * c;
    if x < WORD * WORD {
      Quotient(x, 0x1_0000_0000_0000_0000, 0, x);
      FitsExactly(r, c, f);
    } else {
      Quotient(x, 0x1_0000_0000_0000_0000, 1, x - WORD * WORD);
      OverflowsExactly(r, c, f);
    }
  }

  /** Up to 2^32 Hz the guard is that the product fits and f divides the upper half. */
  lemma GuardUpTo32Bits(ticks: Counter, f: Frequency)
    requires f <= WORD
    ensures ProductHolds(ticks, f)
       <==> Upper(ticks, f) % f == 0 && ticks % f * MICROS + WORD * Upper(ticks, f) < WORD * WORD
  {
    var r := ticks % f * MICROS;
    assert 0 <= r % f < f;
    hide Upper;
  }

  /** GetTimeRDTSC (time_calls.h:390-428) with the counter value and a reference that is
      set.  It shows the exact total if and only if the guard holds, and it does until
      2^31 seconds of counting. */
  method GetTimeRDTSC(start: Timeval, ticks: Counter, reference: Frequency) returns (dst: Timeval)
    requires start.Normal()
    ensures dst == Reading(start.Total() + Elapsed(ticks, reference)) <==> ProductHolds(ticks, reference)
    ensures ticks / reference < 0x8000_0000 ==> dst == Reading(start.Total() + Elapsed(ticks, reference))
  {
    hide ToI32, Reading, Micro, MicroRDTSC, Elapsed, Carried, ProductHolds;
    var sec: int := ToI32(ticks / reference);
    var usec: int := MicroRDTSC(ticks, sec, reference);
    var startSec: int := start.sec;
    ghost var x: i32 := usec;
    ProductExactly(ticks, reference);
    if ticks / reference < 0x8000_0000 { SmallCounter(ticks, reference); }
    sec := ToI32(sec + startSec);
    usec := ToI32(usec + start.usec);
    Wrap32(ticks / reference, startSec);
    AddPair(start, ticks, reference);
    RdtscPairExactly(sec, start.usec, Micro(ticks, reference), x);
    if usec >= MICROS {
      sec := ToI32(sec + 1);
      usec := usec - MICROS;
    }
    dst := Timeval(sec, usec);
  }

  /** At 1 GHz the microseconds are wrong from 2^31 seconds on. */
  lemma MicrosOverflow()
    ensures var f, ticks := 1_000_000_000, 0x8000_0000 * 1_000_000_000;
            MicroRDTSC(ticks, ToI32(ticks / f), f) == -1_011_583_683 && Micro(ticks, f) == 0
  {
    var f, ticks := 1_000_000_000, 0x8000_0000 * 1_000_000_000;
    assert ticks / f == 0x8000_0000 && ticks % f == 0;
    assert ToI32(0x8000_0000) == -0x8000_0000;
  }

  /** After 2^31 seconds at 1 GHz the guard fails. */
  lemma RdtscOverflows()
    ensures var f, ticks := 1_000_000_000, 0x8000_0000 * 1_000_000_000;
            MicroRDTSC(ticks, ToI32(ticks / f), f) == -1_011_583_683 && Micro(ticks, f) == 0 && !ProductHolds(ticks, f)
  {
    MicrosOverflow();
    ProductExactly(0x8000_0000 * 1_000_000_000, 1_000_000_000);
    hide *;
  }
}
