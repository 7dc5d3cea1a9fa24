// sys_arch.c, the time a wait is reported to have taken, in 32-bit unsigned
// arithmetic.
module SysArch {
  import opened Bytes

  type u32 = x: int | 0 <= x < 0x1_0000_0000

  const SYS_ARCH_TIMEOUT: u32 := 0xffff_ffff

  // Ticks from `start` to `now`, over a wrap of the counter if need be.
  function Ticks(start: u32, now: u32): u32 { (now - start) % U32 }

  // A wait of t ticks is seen as t ticks, wherever the counter was.
  lemma TicksElapsed(start: u32, t: u32)
    ensures Ticks(start, (start + t) % U32) == t
  {
  }

  // The computation at the end of sys_arch_sem_wait and sys_arch_mbox_fetch;
  // `hz` is HZ, `now` the counter when the wait is over, after t ticks.
  method ReportedWait(start: u32, now: u32, hz: nat, timeout: u32, ghost t: u32) returns (w: u32)
    requires 0 < hz < U32 && now == (start + t) % U32
    ensures w == Reported(t, hz, timeout)
    ensures 0 < t && 1000 * t < U32 && hz <= 1000 ==> w == Min(1000 * t / hz, timeout)
  {
    TicksElapsed(start, t);
    w := Ticks(start, now) * 1000 % U32;  // jiffies - start, a u32_t product
    QuotientFits(w, hz);
    QuotientFits(500, hz);
    w := w / hz;
    if w < 1000 / hz {
      w := if hz < 500 then 500 / hz else 1;
    }
    w := if w < timeout then w else timeout;
    if 1000 * t < U32 && hz <= 1000 {
      MinimumExactlyAtZeroTicks(t, hz);
    }
  }

  // `signalled` tells whether the wait ended before its timeout.
  method SemWait(start: u32, now: u32, hz: nat, timeout: u32, signalled: bool, ghost t: u32) returns (w: u32)
    requires 0 < hz < U32 && now == (start + t) % U32
    ensures w == if signalled then Reported(t, hz, timeout) else 0xffff_ffff
    ensures signalled && 0 < t && 1000 * t < U32 && hz <= 1000 ==> w == Min(1000 * t / hz, timeout)
  {
    if !signalled {
      return SYS_ARCH_TIMEOUT;
    }
    w := ReportedWait(start, now, hz, timeout, t);
  }

  // Elapsed milliseconds, rounded down, but at least about half a tick.
  function Milliseconds(ticks: u32, hz: nat): u32
    requires 0 < hz < U32
  {
    var product := ticks * 1000 % U32;
    QuotientFits(product, hz);
    QuotientFits(500, hz);
    var w := product / hz;
    if w >= 1000 / hz then w else if hz < 500 then 500 / hz else 1
  }

  function Reported(ticks: u32, hz: nat, timeout: u32): u32
    requires 0 < hz < U32
  {
    Min(Milliseconds(ticks, hz), timeout)
  }

  // ---- one wait ----

  // A timer driven by these reports always advances, whatever the tick counter
  // does, exactly when the wait is a timed one and HZ is at most 1000.
  lemma AlwaysAdvancesExactlyWhen(hz: nat, timeout: u32)
    requires 0 < hz < U32
    ensures (forall ticks: u32 :: Reported(ticks, hz, timeout) >= 1) <==> timeout > 0 && hz <= 1000
  {
    if timeout > 0 && hz <= 1000 {
      forall ticks: u32
        ensures Reported(ticks, hz, timeout) >= 1
      {
        QuotientAtLeast(1000, hz, 1);
        if hz < 500 {
          QuotientAtLeast(500, hz, 1);
        }
      }
    } else {
      if timeout == 0 {
        UntimedWaitReportsZero(0, hz);
      } else {
        QuotientIs(1000, hz, 0);
        QuotientIs(0, hz, 0);
      }
      assert Reported(0, hz, timeout) == 0;
    }
  }

  // A wait that is not timed is always reported as taking no time.
  lemma UntimedWaitReportsZero(ticks: u32, hz: nat)
    requires 0 < hz < U32
    ensures Reported(ticks, hz, 0) == 0
  {
  }

  // Short of the 32-bit product wrapping, the minimum applies exactly when no
  // tick passed, and otherwise the report is the time that passed rounded down.
  lemma MinimumExactlyAtZeroTicks(ticks: u32, hz: nat)
    requires 0 < hz <= 1000 && 1000 * ticks < U32
    ensures 1000 * ticks / hz < 1000 / hz <==> ticks == 0
    ensures ticks > 0 ==> Milliseconds(ticks, hz) == 1000 * ticks / hz
  {
    QuotientAtLeast(1000, hz, 1);
    if ticks == 0 {
      QuotientIs(0, hz, 0);
    } else {
      QuotientMonotonic(1000, 1000 * ticks, hz);
    }
  }

  // Beyond that the report of a wait is wrong: it is right exactly as long as the
  // product does not wrap.
  lemma ReportRightExactlyUntilWrap(ticks: u32, hz: nat)
    requires 0 < hz <= 1000 && ticks > 0
    ensures Milliseconds(ticks, hz) == 1000 * ticks / hz <==> 1000 * ticks < U32
  {
    var p := 1000 * ticks;
    if p < U32 {
      MinimumExactlyAtZeroTicks(ticks, hz);
    } else {
      var r := p % U32;
      QuotientMonotonic(r + hz, p, hz);
      QuotientStep(r, hz);
      QuotientAtLeast(p, hz, 501);
      QuotientFits(500, hz);
    }
  }

  // The minimum is half a tick rounded down to milliseconds, and a millisecond
  // where half a tick is less.
  lemma MinimumIsHalfATick(hz: nat, w: u32)
    requires 0 < hz <= 1000 && w == Milliseconds(0, hz)
    ensures hz <= 500 ==> 2 * hz * w <= 1000 < 2 * hz * (w + 1)
    ensures hz > 500 ==> w == 1
  {
    MinimumExactlyAtZeroTicks(0, hz);
    QuotientIs(0, hz, 0);
    if hz < 500 {
      Rounding(500, hz);
      assert hz * (w + 1) == hz * w + hz;
    }
  }

  // ---- many waits ----

  datatype Wait = Wait(ticks: u32, timeout: u32)

  predicate Timed(waits: seq<Wait>) {
    forall i :: 0 <= i < |waits| ==> waits[i].timeout > 0 && 1000 * waits[i].ticks < U32
  }

  predicate Uncapped(waits: seq<Wait>, hz: nat)
    requires 0 < hz < U32
  {
    forall i :: 0 <= i < |waits| ==> Milliseconds(waits[i].ticks, hz) <= waits[i].timeout
  }

  function TotalReported(waits: seq<Wait>, hz: nat): nat
    requires 0 < hz < U32
  {
    if waits == [] then 0 else Reported(waits[0].ticks, hz, waits[0].timeout) + TotalReported(waits[1..], hz)
  }

  function TotalTicks(waits: seq<Wait>): nat {
    if waits == [] then 0 else waits[0].ticks + TotalTicks(waits[1..])
  }

  function ZeroTickWaits(waits: seq<Wait>): nat {
    if waits == [] then 0 else (if waits[0].ticks == 0 then 1 else 0) + ZeroTickWaits(waits[1..])
  }

  function Grace(hz: nat): nat { if hz < 500 then 500 else hz }

  // The error of one report.
  lemma OneWait(w: Wait, hz: nat)
    requires 0 < hz <= 1000 && w.timeout > 0 && 1000 * w.ticks < U32
    ensures 1 <= Reported(w.ticks, hz, w.timeout) <= w.timeout
    ensures hz * Reported(w.ticks, hz, w.timeout) <= 1000 * w.ticks + if w.ticks == 0 then Grace(hz) else 0
    ensures Milliseconds(w.ticks, hz) <= w.timeout ==> hz * Reported(w.ticks, hz, w.timeout) > 1000 * w.ticks - hz
  {
    AlwaysAdvancesExactlyWhen(hz, w.timeout);
    MinimumExactlyAtZeroTicks(w.ticks, hz);
    var ms := Milliseconds(w.ticks, hz);
    if w.ticks == 0 {
      QuotientIs(0, hz, 0);
      Rounding(500, hz);
    } else {
      Rounding(1000 * w.ticks, hz);
    }
    Smaller(hz, Reported(w.ticks, hz, w.timeout), ms);
  }

  // Over any number of timed waits the reported time advances by a millisecond
  // each at least, exceeds the real time by no more than the grace given to the
  // waits that saw no tick, and, if no report was cut to its timeout, falls
  // short of it by less than a tick each.
  lemma {:induction false} WaitsAddUp(waits: seq<Wait>, hz: nat)
    requires 0 < hz <= 1000 && Timed(waits)
    ensures TotalReported(waits, hz) >= |waits|
    ensures hz * TotalReported(waits, hz) <= 1000 * TotalTicks(waits) + ZeroTickWaits(waits) * Grace(hz)
    ensures Uncapped(waits, hz) && waits != [] ==> hz * TotalReported(waits, hz) > 1000 * TotalTicks(waits) - |waits| * hz
  {
    if waits != [] {
      var r, rest := Reported(waits[0].ticks, hz, waits[0].timeout), TotalReported(waits[1..], hz);
      OneWait(waits[0], hz);
      WaitsAddUp(waits[1..], hz);
      Distribute(hz, r, rest);
      Distribute(Grace(hz), if waits[0].ticks == 0 then 1 else 0, ZeroTickWaits(waits[1..]));
      Distribute(hz, 1, |waits| - 1);
    }
  }

  lemma Distribute(k: nat, a: nat, b: nat)
    ensures k * (a + b) == k * a + k * b && (a + b) * k == a * k + b * k
  {
  }

  // ---- sys_now ----

  function SysNow(jiffies: u32, hz: nat): u32
    requires 0 < hz < U32
  {
    jiffies * 1000 % U32 / hz
  }

  // The clock is right exactly as long as the product does not wrap.
  lemma SysNowRightExactlyUntilWrap(jiffies: u32, hz: nat)
    requires 0 < hz < U32
    ensures SysNow(jiffies, hz) == jiffies * 1000 / hz <==> jiffies * 1000 < U32
  {
    var p := jiffies * 1000;
    if p >= U32 {
      var r := p % U32;
      assert p >= r + U32 > r + hz;
      QuotientMonotonic(r + hz, p, hz);
      QuotientStep(r, hz);
    }
  }

  // ---- quotients by a variable ----

  lemma Smaller(d: nat, a: nat, b: nat)
    requires a <= b
    ensures d * a <= d * b
  {
  }

  lemma Cancel(d: nat, a: nat, b: nat)
    requires d * a < d * b
    ensures a < b
  {
    if b <= a {
      Smaller(d, b, a);
    }
  }

  lemma QuotientFits(a: nat, d: nat)
    requires d > 0
    ensures 0 <= a / d <= a
  {
    Rounding(a, d);
    assert d * (a / d) == (d - 1) * (a / d) + a / d;
    Smaller(a / d, 0, d - 1);
  }

  lemma Rounding(a: nat, d: nat)
    requires d > 0
    ensures a - d < d * (a / d) <= a
  {
  }

  lemma QuotientAtLeast(a: nat, d: nat, q: nat)
    requires d > 0 && q * d <= a
    ensures a / d >= q
  {
    Rounding(a, d);
    assert d * (a / d + 1) == d * (a / d) + d;
    Cancel(d, q, a / d + 1);
  }

  lemma QuotientBelow(a: nat, d: nat, q: nat)
    requires d > 0 && a < q * d
    ensures a / d < q
  {
    Rounding(a, d);
    Cancel(d, a / d, q);
  }

  lemma QuotientIs(a: nat, d: nat, q: nat)
    requires d > 0 && q * d <= a < q * d + d
    ensures a / d == q
  {
    QuotientAtLeast(a, d, q);
    assert (q + 1) * d == q * d + d;
    QuotientBelow(a, d, q + 1);
  }

  lemma QuotientMonotonic(a: nat, b: nat, d: nat)
    requires d > 0 && a <= b
    ensures a / d <= b / d
  {
    Rounding(a, d);
    QuotientAtLeast(b, d, a / d);
  }

  lemma QuotientStep(a: nat, d: nat)
    requires d > 0
    ensures (a + d) / d == a / d + 1
  {
    Rounding(a, d);
    assert (a / d + 1) * d == a / d * d + d;
    QuotientIs(a + d, d, a / d + 1);
  }
}
