// netif/cs8900a_lpc_e2129.c, the bit-banged bus: GPIO registers, the pins they
// drive, and the byte cycles the chip sees.
module Cs8900aBus {
  import opened Bytes

  // Lines of GPIO port 0.
  const IOR := 12
  const IOW := 13
  const SA_BASE := 4   // four address lines
  const SD_BASE := 16  // eight data lines

  // One bus cycle as the chip sees it, taken at the rising edge of a strobe.
  datatype Cycle =
    | Wr(port: nat, val: byte)
    | Rd(port: nat, val: byte)

  // The chip is any function from the cycles it has seen and the addressed
  // port to the byte it puts on the data lines.
  type Chip = (seq<Cycle>, nat) -> byte

  // The two GPIO registers that decide what the lines do.
  datatype Pins = Pins(dir: set<int>, out: set<int>)

  function AddressLines(): set<int> { Span(SA_BASE, 4) }

  function DataLines(): set<int> { Span(SD_BASE, 8) }

  function BusLines(): set<int> { AddressLines() + DataLines() + {IOR, IOW} }

  function Port(out: set<int>): nat { Field(out, SA_BASE, 4) }

  // The even-odd pair of ports that line 4 chooses from.
  function PortPair(out: set<int>): nat { Field(out, SA_BASE + 1, 3) }

  function Data(out: set<int>): nat { Field(out, SD_BASE, 8) }

  // Bus discipline, state by state: the control and address lines are outputs,
  // the strobes are never low together, IOR is low only while the data port is
  // an input and IOW only while it is an output.
  predicate Lawful(p: Pins) {
    && AddressLines() + {IOR, IOW} <= p.dir
    && (IOR in p.out || IOW in p.out)
    && (IOR !in p.out ==> p.dir !! DataLines())
    && (IOW !in p.out ==> DataLines() <= p.dir)
  }

  predicate Strobing(out: set<int>) { IOR !in out || IOW !in out }

  // Bus discipline, step by step: while a strobe is low, and on both its
  // edges, neither the address and data lines nor the directions change; the
  // lines outside the bus never change.
  predicate Steady(p: Pins, q: Pins) {
    && (Strobing(p.out) || Strobing(q.out) ==>
          && p.dir == q.dir
          && p.out * (AddressLines() + DataLines()) == q.out * (AddressLines() + DataLines()))
    && p.out - BusLines() == q.out - BusLines()
    && p.dir - BusLines() == q.dir - BusLines()
  }

  // Every state of a waveform from place `up` on, and every step between two.
  ghost predicate Disciplined(wave: seq<Pins>, up: nat) {
    && (forall i {:trigger Lawful(wave[i])} :: up <= i < |wave| ==> Lawful(wave[i]))
    && (forall i, j {:trigger Steady(wave[i], wave[j])} :: up <= i < j < |wave| && j == i + 1 ==> Steady(wave[i], wave[j]))
  }

  // Every byte the driver has read is the one the chip gave at that moment.
  ghost predicate Honest(log: seq<Cycle>, chip: Chip) {
    forall i :: 0 <= i < |log| && log[i].Rd? ==> log[i].val == chip(log[..i], log[i].port)
  }

  function WriteCycles(addr: nat, data: word): seq<Cycle> {
    [Wr(addr, Lo(data)), Wr(addr + 1, Hi(data))]
  }

  function ReadCycles(addr: nat, data: word): seq<Cycle> {
    [Rd(addr, Lo(data)), Rd(addr + 1, Hi(data))]
  }

  function ReadHighFirstCycles(addr: nat, data: word): seq<Cycle> {
    [Rd(addr + 1, Hi(data)), Rd(addr, Lo(data))]
  }

  function PairOut(port: nat, first: byte, second: byte): seq<Cycle> {
    [Wr(port, first), Wr(port + 1, second)]
  }

  function PairIn(port: nat, first: byte, second: byte): seq<Cycle> {
    [Rd(port, first), Rd(port + 1, second)]
  }

  lemma TwoCycles(log: seq<Cycle>, c: Cycle, d: Cycle)
    ensures log + [c] + [d] == log + [c, d]
  {
  }

  // The lines outside a field keep their level when the field is stored.
  lemma StoreKeeps(out: set<int>, v: nat, base: nat, width: nat, other: nat, n: nat)
    requires v < Pow2(width)
    requires Span(base, width) !! Span(other, n)
    ensures Field((out - Span(base, width)) + LinesOf(v, base), other, n) == Field(out, other, n)
  {
    LinesWithin(v, base, width);
    FieldFrame((out - Span(base, width)) + LinesOf(v, base), out, other, n);
  }

  // Line 4 alone makes the difference between a port and its odd neighbour.
  lemma LowAddressLine(out: set<int>)
    ensures Port(out) == (if SA_BASE in out then 1 else 0) + 2 * PortPair(out)
    ensures Port(out + {SA_BASE}) == 2 * PortPair(out) + 1
    ensures Port(out - {SA_BASE}) == 2 * PortPair(out)
    ensures PortPair(out + {SA_BASE}) == PortPair(out - {SA_BASE}) == PortPair(out)
  {
    FieldFrame(out + {SA_BASE}, out, SA_BASE + 1, 3);
    FieldFrame(out - {SA_BASE}, out, SA_BASE + 1, 3);
  }

  predicate Allowed(p: Pins, q: Pins) { Lawful(q) && Steady(p, q) }

  // What the chip sees when the output latch goes from `was` to `now`: a
  // rising IOW ends a write cycle, a rising IOR a read cycle.
  function Edge(was: set<int>, now: set<int>, log: seq<Cycle>, chip: Chip): seq<Cycle> {
    if IOW !in was && IOW in now then [Wr(Port(now), Data(now) % 256)]
    else if IOR !in was && IOR in now then [Rd(Port(now), chip(log, Port(now)))]
    else []
  }

  // The cycles the chip sees in a waveform.
  function Seen(wave: seq<Pins>, chip: Chip): seq<Cycle> {
    if |wave| < 2 then []
    else
      var n := |wave| - 1;
      var before := Seen(wave[..n], chip);
      before + Edge(wave[n - 1].out, wave[n].out, before, chip)
  }

  // The log is what the chip saw in a waveform that has come to these pins.  The
  // quantifier keeps the recursion of Seen out of proofs that are not about it.
  ghost predicate Watches(log: seq<Cycle>, wave: seq<Pins>, chip: Chip, now: Pins) {
    forall w {:trigger Seen(w, chip)} :: w == wave ==> w != [] && w[|w| - 1] == now && log == Seen(w, chip)
  }

  lemma WatchesMeans(log: seq<Cycle>, wave: seq<Pins>, chip: Chip, now: Pins)
    requires Watches(log, wave, chip, now)
    ensures wave != [] && wave[|wave| - 1] == now && log == Seen(wave, chip) && Honest(log, chip)
  {
    assert log == Seen(wave, chip);
    SeenIsHonest(wave, chip);
  }

  // One more state of the registers.
  lemma WatchesNext(log: seq<Cycle>, wave: seq<Pins>, chip: Chip, now: Pins, q: Pins)
    requires Watches(log, wave, chip, now)
    ensures Watches(log + Edge(now.out, q.out, log, chip), wave + [q], chip, q)
  {
    WatchesMeans(log, wave, chip, now);
    assert (wave + [q])[..|wave|] == wave;
  }

  lemma DisciplineNext(log: seq<Cycle>, wave: seq<Pins>, up: nat, chip: Chip, now: Pins, q: Pins)
    requires Watches(log, wave, chip, now) && up < |wave|
    ensures Disciplined(wave, up) && Allowed(now, q) ==> Disciplined(wave + [q], up)
  {
    WatchesMeans(log, wave, chip, now);
    DisciplineStep(wave, up, q);
  }

  lemma DisciplineStep(wave: seq<Pins>, up: nat, q: Pins)
    requires up < |wave|
    ensures Disciplined(wave, up) && Allowed(wave[|wave| - 1], q) ==> Disciplined(wave + [q], up)
  {
  }

  lemma DisciplinedNow(log: seq<Cycle>, wave: seq<Pins>, up: nat, chip: Chip, now: Pins)
    requires Watches(log, wave, chip, now) && up < |wave| && Disciplined(wave, up)
    ensures Lawful(now)
  {
    WatchesMeans(log, wave, chip, now);
    assert Lawful(wave[|wave| - 1]);
  }

  lemma HonestEdge(was: set<int>, now: set<int>, log: seq<Cycle>, chip: Chip)
    requires Honest(log, chip)
    ensures Honest(log + Edge(was, now, log, chip), chip)
  {
    var after := log + Edge(was, now, log, chip);
    forall i | 0 <= i < |after| && after[i].Rd?
      ensures after[i].val == chip(after[..i], after[i].port)
    {
      assert after[..i] == log[..i];
      assert i == |log| ==> log[..i] == log;
    }
  }

  lemma {:induction false} SeenIsHonest(wave: seq<Pins>, chip: Chip)
    ensures Honest(Seen(wave, chip), chip)
  {
    if |wave| >= 2 {
      var n := |wave| - 1;
      SeenIsHonest(wave[..n], chip);
      HonestEdge(wave[n - 1].out, wave[n].out, Seen(wave[..n], chip), chip);
    }
  }

  // What a moment of the waveform has on the bus for a cycle, by the numbers of
  // the lines: IOW (13) or IOR (12) low, the port on lines 4 to 7, and lines 16
  // to 23 driving the byte of a write or listening for that of a read.
  predicate Drives(p: Pins, c: Cycle) {
    && Field(p.out, 4, 4) == c.port
    && match c
       case Wr(_, v) => 13 !in p.out && (forall i :: 16 <= i < 24 ==> i in p.dir) && Field(p.out, 16, 8) % 256 == v
       case Rd(_, _) => 12 !in p.out && (forall i :: 16 <= i < 24 ==> i !in p.dir)
  }

  // Under the discipline each cycle that ends was on the bus while its strobe
  // was low, in the direction of the strobe.
  lemma EdgeDrives(p: Pins, q: Pins, log: seq<Cycle>, chip: Chip)
    requires Lawful(p) && Lawful(q) && Steady(p, q)
    ensures |Edge(p.out, q.out, log, chip)| <= 1
    ensures forall c :: c in Edge(p.out, q.out, log, chip) ==> Drives(p, c)
  {
    if Strobing(p.out) {
      SameLines(p.out, q.out, SA_BASE, 4);
      SameLines(p.out, q.out, SD_BASE, 8);
    }
  }

  lemma SameLines(s: set<int>, t: set<int>, base: nat, width: nat)
    requires Span(base, width) <= AddressLines() + DataLines()
    requires s * (AddressLines() + DataLines()) == t * (AddressLines() + DataLines())
    ensures Field(s, base, width) == Field(t, base, width)
  {
    forall i | base <= i < base + width
      ensures i in s <==> i in t
    {
      assert i in AddressLines() + DataLines();
      assert i in s <==> i in s * (AddressLines() + DataLines());
      assert i in t <==> i in t * (AddressLines() + DataLines());
    }
    FieldFrame(s, t, base, width);
  }

  // Some moment of the waveform from `up` on has the cycle on the bus.
  ghost predicate Driven(wave: seq<Pins>, up: nat, c: Cycle) {
    exists j :: up <= j < |wave| && Drives(wave[j], c)
  }

  lemma {:induction false} CyclesAreDriven(wave: seq<Pins>, up: nat, chip: Chip, i: nat)
    requires up < |wave| && Disciplined(wave, up)
    ensures |Seen(wave[..up + 1], chip)| <= |Seen(wave, chip)|
    ensures |Seen(wave[..up + 1], chip)| <= i < |Seen(wave, chip)| ==> Driven(wave, up, Seen(wave, chip)[i])
  {
    if up + 1 == |wave| {
      assert wave[..up + 1] == wave;
    } else {
      var n := |wave| - 1;
      CyclesAreDriven(wave[..n], up, chip, i);
      assert wave[..n][..up + 1] == wave[..up + 1];
      LastCycleIsDriven(wave, up, chip);
      if |Seen(wave[..up + 1], chip)| <= i < |Seen(wave[..n], chip)| {
        DrivenStill(wave, up, Seen(wave[..n], chip)[i]);
      }
    }
  }

  lemma DrivenStill(wave: seq<Pins>, up: nat, c: Cycle)
    requires wave != [] && Driven(wave[..|wave| - 1], up, c)
    ensures Driven(wave, up, c)
  {
    var j :| up <= j < |wave| - 1 && Drives(wave[..|wave| - 1][j], c);
    assert Drives(wave[j], c);
  }

  lemma LastCycleIsDriven(wave: seq<Pins>, up: nat, chip: Chip)
    requires up + 1 < |wave| && Disciplined(wave, up)
    ensures var before, now := Seen(wave[..|wave| - 1], chip), Seen(wave, chip);
            before <= now && forall i :: |before| <= i < |now| ==> Driven(wave, up, now[i])
  {
    var n := |wave| - 1;
    var before := Seen(wave[..n], chip);
    assert Lawful(wave[n - 1]) && Lawful(wave[n]) && Steady(wave[n - 1], wave[n]);
    EdgeDrives(wave[n - 1], wave[n], before, chip);
    forall i | |before| <= i < |Seen(wave, chip)|
      ensures Driven(wave, up, Seen(wave, chip)[i])
    {
      assert Drives(wave[n - 1], Seen(wave, chip)[i]);
    }
  }

  // Lowering and raising a strobe is lawful when the data port points the
  // strobe's way, and leaves the latch as it was.
  lemma StrobeAllowed(p: Pins, strobe: int)
    requires Lawful(p) && !Strobing(p.out)
    requires (strobe == IOR && p.dir !! DataLines()) || (strobe == IOW && DataLines() <= p.dir)
    ensures Allowed(p, Pins(p.dir, p.out - {strobe})) && Allowed(Pins(p.dir, p.out - {strobe}), p)
    ensures p.out - {strobe} + {strobe} == p.out
    ensures Port(p.out - {strobe}) == Port(p.out)
  {
    FieldFrame(p.out - {strobe}, p.out, SA_BASE, 4);
  }

  // With both strobes high the address and data lines may change freely.
  lemma LinesAllowed(p: Pins, out: set<int>)
    requires Lawful(p) && IOR in p.out && IOW in p.out
    requires p.out - (AddressLines() + DataLines()) == out - (AddressLines() + DataLines())
    ensures Allowed(p, Pins(p.dir, out)) && IOR in out && IOW in out
  {
    assert IOR in out - (AddressLines() + DataLines()) && IOW in out - (AddressLines() + DataLines());
    forall i
      ensures i in p.out - BusLines() <==> i in out - BusLines()
    {
      assert i in p.out - (AddressLines() + DataLines()) <==> i in out - (AddressLines() + DataLines());
    }
  }

  // A value stored into the address or the data lines, in two lawful steps.
  lemma StoreAllowed(p: Pins, v: nat, base: nat, width: nat)
    requires Lawful(p) && IOR in p.out && IOW in p.out
    requires v < Pow2(width) && Span(base, width) <= AddressLines() + DataLines()
    ensures var low := p.out - Span(base, width);
            var now := low + LinesOf(v, base);
            && Allowed(p, Pins(p.dir, low)) && Allowed(Pins(p.dir, low), Pins(p.dir, now))
            && IOR in low && IOW in low && IOR in now && IOW in now
  {
    var low := p.out - Span(base, width);
    LinesWithin(v, base, width);
    LinesAllowed(p, low);
    LinesAllowed(Pins(p.dir, low), low + LinesOf(v, base));
  }

  class Bus {
    var dir: set<int>          // GPIO0_IODIR
    var out: set<int>          // output latch behind GPIO0_IOSET and GPIO0_IOCLR
    var log: seq<Cycle>        // the chip's side of the bus
    ghost var wave: seq<Pins>  // every state the registers were ever in
    ghost var up: nat          // where in it the lines became outputs
    const chip: Chip

    constructor (dir: set<int>, out: set<int>, chip: Chip)
      ensures Recorded() && log == [] && wave == [Pins(dir, out)] && this.chip == chip
    {
      assert Seen([Pins(dir, out)], chip) == [];
      this.dir, this.out, this.log, this.chip := dir, out, [], chip;
      this.wave, this.up := [Pins(dir, out)], 0;
    }

    // The waveform is up to date and the log is what the chip saw in it.
    ghost predicate Recorded()
      reads this
    {
      Watches(log, wave, chip, Pins(dir, out))
    }

    // The state between two statements of the driver ...
    ghost predicate Running()
      reads this
    {
      Recorded() && up < |wave| && Disciplined(wave, up)
    }

    // ... and between two calls: both strobes are high.
    ghost predicate Idle()
      reads this
    {
      Running() && IOR in out && IOW in out
    }

    // Idle with the frame port on the address lines and the data port turned
    // the chip's way, or the driver's.
    ghost predicate AtFrameOut()
      reads this
    {
      Idle() && DataLines() <= dir && PortPair(out) == 0
    }

    ghost predicate AtFrameIn()
      reads this
    {
      Idle() && dir !! DataLines() && PortPair(out) == 0
    }

    // A write to IOSET: only the 1 bits of the mask have an effect.
    method IoSet(mask: set<int>)
      requires Recorded()
      modifies this
      ensures dir == old(dir) && out == old(out) + mask
      ensures log == old(log) + Edge(old(out), out, old(log), chip)
      ensures Recorded() && wave == old(wave) + [Pins(dir, out)] && up == old(up)
      ensures old(Running()) && Allowed(Pins(old(dir), old(out)), Pins(dir, out)) ==> Running()
    {
      WatchesNext(log, wave, chip, Pins(dir, out), Pins(dir, out + mask));
      if up < |wave| {
        DisciplineNext(log, wave, up, chip, Pins(dir, out), Pins(dir, out + mask));
      }
      log := log + Edge(out, out + mask, log, chip);
      out := out + mask;
      wave := wave + [Pins(dir, out)];
    }

    // A write to IOCLR: the 1 bits of the mask go low.
    method IoClr(mask: set<int>)
      requires Recorded()
      modifies this
      ensures dir == old(dir) && out == old(out) - mask && log == old(log)
      ensures Recorded() && wave == old(wave) + [Pins(dir, out)] && up == old(up)
      ensures old(Running()) && Allowed(Pins(old(dir), old(out)), Pins(dir, out)) ==> Running()
    {
      WatchesNext(log, wave, chip, Pins(dir, out), Pins(dir, out - mask));
      if up < |wave| {
        DisciplineNext(log, wave, up, chip, Pins(dir, out), Pins(dir, out - mask));
      }
      out := out - mask;
      wave := wave + [Pins(dir, out)];
    }

    // Lines made outputs.
    method IoDirOr(mask: set<int>)
      requires Recorded()
      modifies this
      ensures dir == old(dir) + mask && out == old(out) && log == old(log)
      ensures Recorded() && wave == old(wave) + [Pins(dir, out)] && up == old(up)
      ensures old(Running()) && Allowed(Pins(old(dir), old(out)), Pins(dir, out)) ==> Running()
    {
      WatchesNext(log, wave, chip, Pins(dir, out), Pins(dir + mask, out));
      if up < |wave| {
        DisciplineNext(log, wave, up, chip, Pins(dir, out), Pins(dir + mask, out));
      }
      dir := dir + mask;
      wave := wave + [Pins(dir, out)];
    }

    // Lines made inputs.
    method IoDirAndNot(mask: set<int>)
      requires Recorded()
      modifies this
      ensures dir == old(dir) - mask && out == old(out) && log == old(log)
      ensures Recorded() && wave == old(wave) + [Pins(dir, out)] && up == old(up)
      ensures old(Running()) && Allowed(Pins(old(dir), old(out)), Pins(dir, out)) ==> Running()
    {
      WatchesNext(log, wave, chip, Pins(dir, out), Pins(dir - mask, out));
      if up < |wave| {
        DisciplineNext(log, wave, up, chip, Pins(dir, out), Pins(dir - mask, out));
      }
      dir := dir - mask;
      wave := wave + [Pins(dir, out)];
    }

    // A read of IOPIN: the data lines carry the chip's byte while IOR is low and the
    // port listens; undriven data lines read as 0.
    function IoPin(): set<int>
      reads this
    {
      var sd := if IOR !in out && dir !! DataLines() then chip(log, Port(out))
                else if DataLines() <= dir then Data(out)
                else 0;
      (out - DataLines()) + LinesOf(sd, SD_BASE)
    }

    // A port on the address lines, by way of port 0.
    method PutAddress(addr: nat)
      requires Idle() && addr < 16
      modifies this
      ensures wave == old(wave) + [Pins(dir, old(out) - AddressLines()), Pins(dir, out)] && up == old(up)
      ensures Idle() && dir == old(dir) && log == old(log)
      ensures Port(out) == addr && PortPair(out) == addr / 2 && Data(out) == old(Data(out))
    {
      DisciplinedNow(log, wave, up, chip, Pins(dir, out));
      StoreField(out, addr, SA_BASE, 4);
      StoreKeeps(out, addr, SA_BASE, 4, SD_BASE, 8);
      StoreAllowed(Pins(dir, out), addr, SA_BASE, 4);
      IoClr(Span(SA_BASE, 4));
      IoSet(LinesOf(addr, SA_BASE));
      LowAddressLine(out);
    }

    // A byte on the data lines, by way of 0.
    method PutData(d: byte)
      requires Idle()
      modifies this
      ensures wave == old(wave) + [Pins(dir, old(out) - DataLines()), Pins(dir, out)] && up == old(up)
      ensures Idle() && dir == old(dir) && log == old(log)
      ensures Data(out) == d && Port(out) == old(Port(out)) && PortPair(out) == old(PortPair(out))
    {
      DisciplinedNow(log, wave, up, chip, Pins(dir, out));
      StoreField(out, d, SD_BASE, 8);
      StoreKeeps(out, d, SD_BASE, 8, SA_BASE, 4);
      StoreKeeps(out, d, SD_BASE, 8, SA_BASE + 1, 3);
      StoreAllowed(Pins(dir, out), d, SD_BASE, 8);
      IoClr(Span(SD_BASE, 8));
      IoSet(LinesOf(d, SD_BASE));
    }

    // From either half of a port pair to the odd one ...
    method RaiseAddress()
      requires Idle()
      modifies this
      ensures wave == old(wave) + [Pins(dir, out)] && up == old(up)
      ensures Idle() && dir == old(dir) && log == old(log)
      ensures Port(out) == 2 * old(PortPair(out)) + 1 && PortPair(out) == old(PortPair(out)) && Data(out) == old(Data(out))
    {
      DisciplinedNow(log, wave, up, chip, Pins(dir, out));
      LowAddressLine(out);
      FieldFrame(out + {SA_BASE}, out, SD_BASE, 8);
      LinesAllowed(Pins(dir, out), out + {SA_BASE});
      IoSet({SA_BASE});
    }

    // ... and to the even one.
    method LowerAddress()
      requires Idle()
      modifies this
      ensures wave == old(wave) + [Pins(dir, out)] && up == old(up)
      ensures Idle() && dir == old(dir) && log == old(log)
      ensures Port(out) == 2 * old(PortPair(out)) && PortPair(out) == old(PortPair(out)) && Data(out) == old(Data(out))
    {
      DisciplinedNow(log, wave, up, chip, Pins(dir, out));
      LowAddressLine(out);
      FieldFrame(out - {SA_BASE}, out, SD_BASE, 8);
      LinesAllowed(Pins(dir, out), out - {SA_BASE});
      IoClr({SA_BASE});
    }

    // The data port drives the bus ...
    method DataPortToOutput()
      requires Idle()
      modifies this
      ensures wave == old(wave) + [Pins(dir, out)] && up == old(up)
      ensures Idle() && dir == old(dir) + DataLines() && out == old(out) && log == old(log)
    {
      DisciplinedNow(log, wave, up, chip, Pins(dir, out));
      IoDirOr(Span(SD_BASE, 8));
    }

    // ... or listens.
    method DataPortToInput()
      requires Idle()
      modifies this
      ensures wave == old(wave) + [Pins(dir, out)] && up == old(up)
      ensures Idle() && dir == old(dir) - DataLines() && out == old(out) && log == old(log)
    {
      DisciplinedNow(log, wave, up, chip, Pins(dir, out));
      IoDirAndNot(Span(SD_BASE, 8));
    }

    // One write cycle: the chip takes the byte at the rising edge.
    method StrobeWrite()
      requires Idle() && DataLines() <= dir && Data(out) < 256
      modifies this
      ensures wave == old(wave) + [Pins(dir, out - {13}), Pins(dir, out)] && up == old(up)
      ensures Idle() && dir == old(dir) && out == old(out)
      ensures log == old(log) + [Wr(Port(out), Data(out))]
    {
      DisciplinedNow(log, wave, up, chip, Pins(dir, out));
      StrobeAllowed(Pins(dir, out), IOW);
      IoClr({IOW});
      IoSet({IOW});
    }

    // One read cycle: the pins are sampled while the strobe is low.
    method StrobeRead() returns (d: byte)
      requires Idle() && dir !! DataLines()
      modifies this
      ensures wave == old(wave) + [Pins(dir, out - {12}), Pins(dir, out)] && up == old(up)
      ensures Idle() && dir == old(dir) && out == old(out)
      ensures log == old(log) + [Rd(Port(out), d)]
    {
      DisciplinedNow(log, wave, up, chip, Pins(dir, out));
      StrobeAllowed(Pins(dir, out), IOR);
      IoClr({IOR});
      StoreField(out, chip(log, Port(out)), SD_BASE, 8);
      d := Field(IoPin(), SD_BASE, 8);
      IoSet({IOR});
    }

    method SendByte(d: byte)
      requires Idle() && DataLines() <= dir
      modifies this
      ensures old(wave) < wave && up == old(up)
      ensures Idle() && dir == old(dir) && Port(out) == old(Port(out)) && PortPair(out) == old(PortPair(out))
      ensures log == old(log) + [Wr(Port(out), d)]
    {
      PutData(d);
      StrobeWrite();
    }

    // Two bytes to the port pair on the address lines, even half first.
    method SendPair(first: byte, second: byte)
      requires Idle() && DataLines() <= dir && Port(out) == 2 * PortPair(out)
      modifies this
      ensures old(wave) < wave && up == old(up)
      ensures Idle() && dir == old(dir) && PortPair(out) == old(PortPair(out))
      ensures log == old(log) + PairOut(2 * PortPair(out), first, second)
    {
      SendByte(first);
      RaiseAddress();
      SendByte(second);
      TwoCycles(old(log), Wr(2 * PortPair(out), first), Wr(2 * PortPair(out) + 1, second));
    }

    method ReceivePair() returns (first: byte, second: byte)
      requires Idle() && dir !! DataLines() && Port(out) == 2 * PortPair(out)
      modifies this
      ensures old(wave) < wave && up == old(up)
      ensures Idle() && dir == old(dir) && PortPair(out) == old(PortPair(out))
      ensures log == old(log) + PairIn(2 * PortPair(out), first, second)
    {
      first := StrobeRead();
      RaiseAddress();
      second := StrobeRead();
      TwoCycles(old(log), Rd(2 * PortPair(out), first), Rd(2 * PortPair(out) + 1, second));
    }

    method Write(addr: nat, data: word)
      requires Idle() && addr < 16 && addr % 2 == 0
      modifies this
      ensures old(wave) < wave && up == old(up)
      ensures Idle() && dir == old(dir) + DataLines()
      ensures log == old(log) + WriteCycles(addr, data)
    {
      DataPortToOutput();
      PutAddress(addr);
      SendPair(data % 256, data / 256);
    }

    method Read(addr: nat) returns (value: word)
      requires Idle() && addr < 16 && addr % 2 == 0
      modifies this
      ensures old(wave) < wave && up == old(up)
      ensures Idle() && dir == old(dir) - DataLines()
      ensures log == old(log) + ReadCycles(addr, value)
    {
      DataPortToInput();
      PutAddress(addr);
      var low, high := ReceivePair();
      value := Word(low, high);  // `|=` of a disjoint field
    }

    method ReadAddrHighFirst(addr: nat) returns (value: word)
      requires Idle() && addr < 16 && addr % 2 == 0
      modifies this
      ensures old(wave) < wave && up == old(up)
      ensures Idle() && dir == old(dir) - DataLines()
      ensures log == old(log) + ReadHighFirstCycles(addr, value)
    {
      DataPortToInput();
      PutAddress(addr + 1);
      var high, low := ReceiveOddFirst();
      value := Word(low, high);
    }

    method ReceiveOddFirst() returns (first: byte, second: byte)
      requires Idle() && dir !! DataLines() && Port(out) == 2 * PortPair(out) + 1
      modifies this
      ensures old(wave) < wave && up == old(up)
      ensures Idle() && dir == old(dir) && PortPair(out) == old(PortPair(out))
      ensures log == old(log) + [Rd(2 * PortPair(out) + 1, first), Rd(2 * PortPair(out), second)]
    {
      first := StrobeRead();
      LowerAddress();
      second := StrobeRead();
      TwoCycles(old(log), Rd(2 * PortPair(out) + 1, first), Rd(2 * PortPair(out), second));
    }

    // Two bytes of a frame to the transmit port.
    method WriteTxBuf(bytes: array<byte>, u: nat)
      requires AtFrameOut() && u + 1 < bytes.Length
      modifies this
      ensures old(wave) < wave && up == old(up)
      ensures AtFrameOut()
      ensures log == old(log) + PairOut(0, bytes[u], bytes[u + 1])
    {
      LowerAddress();
      SendPair(bytes[u], bytes[u + 1]);
    }

    // Two bytes of a frame from the receive port.
    method ReadRxBuf(bytes: array<byte>, u: nat)
      requires AtFrameIn() && u + 1 < bytes.Length
      modifies this, bytes
      ensures old(wave) < wave && up == old(up)
      ensures AtFrameIn()
      ensures bytes[..u + 2] == old(bytes[..u]) + [bytes[u], bytes[u + 1]]
      ensures bytes[u + 2..] == old(bytes[u + 2..])
      ensures log == old(log) + PairIn(0, bytes[u], bytes[u + 1])
    {
      LowerAddress();
      bytes[u], bytes[u + 1] := ReceivePair();
    }
  }
}
