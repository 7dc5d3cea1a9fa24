// netif/cs8900a_lpc_e2129.c, the driver calls on top of the bus.
module Cs8900aDriver {
  import opened Bytes
  import opened Cs8900aBus
  import opened Cs8900aChip
  import opened PbufChain
  import opened Cs8900aTraffic
  import opened Cs8900aRefinement

  // The driver's two-step register accesses.
  method WriteRegister(bus: Bus, at: word, v: word)
    requires bus.Idle()
    modifies bus
    ensures old(bus.wave) < bus.wave && bus.up == old(bus.up)
    ensures bus.Idle()
    ensures bus.log == old(bus.log) + Poke(at, v)
  {
    bus.Write(ADD_PORT, at);
    bus.Write(DATA_PORT, v);
  }

  method ReadRegister(bus: Bus, at: word) returns (v: word)
    requires bus.Idle()
    modifies bus
    ensures old(bus.wave) < bus.wave && bus.up == old(bus.up)
    ensures bus.Idle()
    ensures bus.log == old(bus.log) + Peek(at, v)
  {
    bus.Write(ADD_PORT, at);
    v := bus.Read(DATA_PORT);
  }

  method SkipFrame(bus: Bus) returns (ghost cfg: word)
    requires bus.Idle()
    modifies bus
    ensures old(bus.wave) < bus.wave && bus.up == old(bus.up)
    ensures bus.Idle()
    ensures bus.log == old(bus.log) + SkipCycles(cfg)
  {
    var value := ReadRegister(bus, PP_RxCFG);
    cfg := value;
    bus.Write(DATA_PORT, Or(value, SKIP_1));
  }

  method LowLevelInit(bus: Bus, ghost patience: nat) returns (hwaddr: seq<byte>, ghost waits: seq<word>)
    requires bus.Recorded()
    requires ResetsWithin(bus.chip,
               bus.log + Edge(bus.out, bus.out + {IOR, IOW}, bus.log, bus.chip) + ResetCycles(), patience)
    modifies bus
    ensures old(bus.wave) + [Pins(old(bus.dir), old(bus.out) + {IOR, IOW})] <= bus.wave && bus.up == |old(bus.wave)| + 1
    ensures bus.Idle()
    ensures waits != [] && 7 in LinesOf(waits[|waits| - 1], 0)
    ensures forall i :: 0 <= i < |waits| - 1 ==> 7 !in LinesOf(waits[i], 0)
    ensures forall s :: SetUp(After(s, bus.log))
    ensures |hwaddr| == 6 && bus.log ==
              old(bus.log) + Edge(old(bus.out), old(bus.out) + {IOR, IOW}, old(bus.log), bus.chip) + InitCycles(waits, hwaddr)
    ensures hwaddr == HWADDR
  {
    hwaddr := HWADDR;
    waits := BringUp(bus, hwaddr, patience);
    InitShows(old(bus.log) + Edge(old(bus.out), old(bus.out) + {IOR, IOW}, old(bus.log), bus.chip), waits);
  }

  // The same for any station address.
  method BringUp(bus: Bus, hwaddr: seq<byte>, ghost patience: nat) returns (ghost waits: seq<word>)
    requires bus.Recorded() && |hwaddr| == 6
    requires ResetsWithin(bus.chip,
               bus.log + Edge(bus.out, bus.out + {IOR, IOW}, bus.log, bus.chip) + ResetCycles(), patience)
    modifies bus
    ensures old(bus.wave) + [Pins(old(bus.dir), old(bus.out) + {IOR, IOW})] <= bus.wave && bus.up == |old(bus.wave)| + 1
    ensures bus.Idle()
    ensures waits != [] && 7 in LinesOf(waits[|waits| - 1], 0)
    ensures forall i :: 0 <= i < |waits| - 1 ==> 7 !in LinesOf(waits[i], 0)
    ensures bus.log ==
              old(bus.log) + Edge(old(bus.out), old(bus.out) + {IOR, IOW}, old(bus.log), bus.chip) + InitCycles(waits, hwaddr)
  {
    PowerUp(bus);
    ghost var start := bus.log;
    waits := Reset(bus, patience);
    Program(bus, hwaddr);
    Regroup(start, ResetCycles(), Reads(waits), Pokes(StationAddress(hwaddr)), Pokes(InitSeq()));
  }

  method Reset(bus: Bus, ghost patience: nat) returns (ghost waits: seq<word>)
    requires bus.Idle() && ResetsWithin(bus.chip, bus.log + ResetCycles(), patience)
    modifies bus
    ensures old(bus.wave) < bus.wave && bus.up == old(bus.up)
    ensures bus.Idle() && bus.log == old(bus.log) + ResetCycles() + Reads(waits)
    ensures waits != [] && 7 in LinesOf(waits[|waits| - 1], 0)
    ensures forall i :: 0 <= i < |waits| - 1 ==> 7 !in LinesOf(waits[i], 0)
  {
    StartReset(bus);
    waits := AwaitReset(bus, patience);
    StatusBits();
  }

  method Program(bus: Bus, hwaddr: seq<byte>)
    requires bus.Idle() && |hwaddr| == 6
    modifies bus
    ensures old(bus.wave) <= bus.wave && bus.up == old(bus.up)
    ensures bus.Idle() && bus.log == old(bus.log) + Pokes(StationAddress(hwaddr)) + Pokes(InitSeq())
  {
    WriteStationAddress(bus, hwaddr);
    WriteInitSeq(bus);
  }

  // The strobes are high in the latch before the lines become outputs, and from
  // there on the discipline of the bus is kept.
  method PowerUp(bus: Bus)
    requires bus.Recorded()
    modifies bus
    ensures bus.Idle() && bus.up == |old(bus.wave)| + 1
    ensures var high := old(bus.out) + {IOR, IOW};
            && bus.dir == old(bus.dir) + BusLines() && bus.out == high - DataLines()
            && bus.wave == old(bus.wave) + [Pins(old(bus.dir), high), Pins(bus.dir, high), Pins(bus.dir, bus.out)]
    ensures bus.log == old(bus.log) + Edge(old(bus.out), old(bus.out) + {IOR, IOW}, old(bus.log), bus.chip)
  {
    UpAllowed(bus.dir, bus.out + {IOR, IOW});
    bus.IoSet({IOR, IOW});
    bus.IoDirOr(DataLines() + {IOR, IOW} + AddressLines());
    WatchesMeans(bus.log, bus.wave, bus.chip, Pins(bus.dir, bus.out));
    bus.up := |bus.wave| - 1;
    bus.IoClr(DataLines());
  }

  lemma UpAllowed(dir: set<int>, high: set<int>)
    requires {IOR, IOW} <= high
    ensures DataLines() + {IOR, IOW} + AddressLines() == BusLines()
    ensures Lawful(Pins(dir + BusLines(), high))
    ensures Allowed(Pins(dir + BusLines(), high), Pins(dir + BusLines(), high - DataLines()))
    ensures IOR in high - DataLines() && IOW in high - DataLines()
  {
    LinesAllowed(Pins(dir + BusLines(), high), high - DataLines());
  }

  method StartReset(bus: Bus)
    requires bus.Idle()
    modifies bus
    ensures old(bus.wave) < bus.wave && bus.up == old(bus.up)
    ensures bus.Idle() && bus.log == old(bus.log) + ResetCycles()
  {
    WriteRegister(bus, PP_SelfCTL, POWER_ON_RESET);
    bus.Write(ADD_PORT, PP_SelfST);
  }

  method WriteStationAddress(bus: Bus, hwaddr: seq<byte>)
    requires bus.Idle() && |hwaddr| == 6
    modifies bus
    ensures old(bus.wave) <= bus.wave && bus.up == old(bus.up)
    ensures bus.Idle() && bus.log == old(bus.log) + Pokes(StationAddress(hwaddr))
  {
    ghost var settings := StationAddress(hwaddr);
    var i := 0;
    assert settings[..0] == [];
    while i < 6
      invariant old(bus.wave) <= bus.wave && bus.up == old(bus.up)
      invariant bus.Idle() && 0 <= i <= 6 && i % 2 == 0
      invariant bus.log == old(bus.log) + Pokes(settings[..i / 2])
    {
      StationSetting(hwaddr, i / 2);
      PokesNext(old(bus.log), settings, i / 2);
      WriteRegister(bus, PP_IA + i, Word(hwaddr[i], hwaddr[i + 1]));
      i := i + 2;
    }
    assert settings[..3] == settings;
  }

  lemma PokesNext(log: seq<Cycle>, settings: seq<Setting>, k: nat)
    requires k < |settings|
    ensures log + Pokes(settings[..k]) + Poke(settings[k].at, settings[k].value) == log + Pokes(settings[..k + 1])
  {
    assert settings[..k + 1][..k] == settings[..k];
    Associate(log, Pokes(settings[..k]), Poke(settings[k].at, settings[k].value));
  }

  method WriteInitSeq(bus: Bus)
    requires bus.Idle()
    modifies bus
    ensures old(bus.wave) <= bus.wave && bus.up == old(bus.up)
    ensures bus.Idle() && bus.log == old(bus.log) + Pokes(InitSeq())
  {
    var settings := InitSeq();
    var i := 0;
    assert settings[..0] == [];
    while i < |settings|
      invariant old(bus.wave) <= bus.wave && bus.up == old(bus.up)
      invariant bus.Idle() && 0 <= i <= |settings|
      invariant bus.log == old(bus.log) + Pokes(settings[..i])
    {
      PokesNext(old(bus.log), settings, i);
      WriteRegister(bus, settings[i].at, settings[i].value);
      i := i + 1;
    }
    assert settings[..i] == settings;
  }

  // The loop that waits for INIT_DONE.
  method AwaitReset(bus: Bus, ghost patience: nat) returns (ghost waits: seq<word>)
    requires bus.Idle() && ResetsWithin(bus.chip, bus.log, patience)
    modifies bus
    ensures old(bus.wave) < bus.wave && bus.up == old(bus.up)
    ensures bus.Idle()
    ensures bus.log == old(bus.log) + Reads(waits)
    ensures waits != [] && InitDone(waits[|waits| - 1])
    ensures forall i :: 0 <= i < |waits| - 1 ==> !InitDone(waits[i])
  {
    ghost var left := patience;
    waits := [];
    while true
      invariant old(bus.wave) <= bus.wave && bus.up == old(bus.up)
      invariant bus.Idle() && bus.log == old(bus.log) + Reads(waits)
      invariant ResetsWithin(bus.chip, bus.log, left)
      invariant forall i :: 0 <= i < |waits| ==> !InitDone(waits[i])
      decreases left
    {
      NextRead(old(bus.log), waits);
      var value := PollReset(bus, left);
      waits := waits + [value];
      if InitDone(value) {
        return;
      }
      left := left - 1;
    }
  }

  // One read of the loop brings the end of the reset closer.
  method PollReset(bus: Bus, ghost patience: nat) returns (value: word)
    requires bus.Idle() && ResetsWithin(bus.chip, bus.log, patience)
    modifies bus
    ensures old(bus.wave) < bus.wave && bus.up == old(bus.up)
    ensures bus.Idle() && bus.log == old(bus.log) + ReadCycles(DATA_PORT, value)
    ensures !InitDone(value) ==> patience > 0 && ResetsWithin(bus.chip, bus.log, patience - 1)
  {
    value := bus.Read(DATA_PORT);
    WatchesMeans(bus.log, bus.wave, bus.chip, Pins(bus.dir, bus.out));
    HonestAnswer(bus.chip, old(bus.log), value);
  }

  lemma NextRead(log: seq<Cycle>, waits: seq<word>)
    ensures forall value :: log + Reads(waits) + ReadCycles(DATA_PORT, value) == log + Reads(waits + [value])
  {
    forall value
      ensures log + Reads(waits) + ReadCycles(DATA_PORT, value) == log + Reads(waits + [value])
    {
      assert (waits + [value])[..|waits|] == waits;
      Associate(log, Reads(waits), ReadCycles(DATA_PORT, value));
    }
  }

  method LowLevelOutput(bus: Bus, p: Pbuf, ghost nodes: seq<Pbuf>)
    returns (err: Err, ghost busy: seq<word>, ghost cfgs: seq<word>, ghost last: word)
    requires bus.Idle()
    requires Linked(p, nodes) && Slack(nodes)
    requires p.totLen == Sum(Lens(nodes)) < 0x1_0000
    modifies bus
    ensures old(bus.wave) < bus.wave && bus.up == old(bus.up)
    ensures bus.Idle()
    ensures |busy| == |cfgs| <= 8 && forall i :: 0 <= i < |busy| ==> 8 !in LinesOf(busy[i], 0)
    ensures err == ERR_OK <==> 8 in LinesOf(last, 0)
    ensures err == ERR_IF ==> |busy| == 8
    ensures bus.log == old(bus.log) +
                       TransmitCycles(p.totLen, busy, cfgs, last, if err == ERR_OK then Flatten(Padded(nodes)) else [])
    ensures err == ERR_OK ==> forall s :: After(s, bus.log).tx == Flatten(Padded(nodes))
    ensures err == ERR_OK && Aligned(Lens(nodes)) ==> forall s :: TxFrame(After(s, bus.log)) == Flatten(Segments(nodes))
    ensures err == ERR_IF ==> forall s :: After(s, bus.log).tx == []
  {
    var ready;
    ready, busy, cfgs, last := Bid(bus, p.totLen);
    if ready {
      err := ERR_OK;
      ghost var segs := Padded(nodes);
      PumpOut(bus, p, nodes, segs);
      assert Padded(nodes) == segs;
      TransmitLog(old(bus.log), p.totLen, busy, cfgs, last, Flatten(segs));
      ChainValues(nodes);
      TransmitShows(old(bus.log), p.totLen, busy, cfgs, last, segs, Segments(nodes), Lens(nodes));
    } else {
      err := ERR_IF;
      TransmitLog(old(bus.log), p.totLen, busy, cfgs, last, []);
      RefusalShows(old(bus.log), p.totLen, busy, cfgs, last);
    }
  }

  method Bid(bus: Bus, length: word) returns (ready: bool, ghost busy: seq<word>, ghost cfgs: seq<word>, ghost last: word)
    requires bus.Idle()
    modifies bus
    ensures old(bus.wave) < bus.wave && bus.up == old(bus.up)
    ensures bus.Idle()
    ensures |busy| == |cfgs| <= 8 && forall i :: 0 <= i < |busy| ==> 8 !in LinesOf(busy[i], 0)
    ensures ready <==> 8 in LinesOf(last, 0)
    ensures !ready ==> |busy| == 8
    ensures bus.log == old(bus.log) + CommandCycles(length) + BidCycles(busy, cfgs, last)
  {
    Command(bus, length);
    ready, busy, cfgs, last := AwaitSpace(bus);
    StatusBits();
  }

  lemma TransmitLog(log: seq<Cycle>, length: word, busy: seq<word>, cfgs: seq<word>, last: word, wire: seq<byte>)
    requires |busy| == |cfgs|
    ensures log + CommandCycles(length) + BidCycles(busy, cfgs, last) + FrameOut(wire) ==
            log + TransmitCycles(length, busy, cfgs, last, wire)
    ensures wire == [] ==> log + CommandCycles(length) + BidCycles(busy, cfgs, last) ==
                           log + TransmitCycles(length, busy, cfgs, last, wire)
  {
    Regroup(log, CommandCycles(length), BidCycles(busy, cfgs, last), FrameOut(wire), []);
    assert wire == [] ==> FrameOut(wire) == [];
  }

  method Command(bus: Bus, length: word)
    requires bus.Idle()
    modifies bus
    ensures old(bus.wave) < bus.wave && bus.up == old(bus.up)
    ensures bus.Idle() && bus.log == old(bus.log) + CommandCycles(length)
  {
    bus.Write(TX_CMD_PORT, TX_START_ALL_BYTES);
    bus.Write(TX_LEN_PORT, length);
  }

  // The retry loop.
  method AwaitSpace(bus: Bus) returns (ready: bool, ghost busy: seq<word>, ghost cfgs: seq<word>, ghost last: word)
    requires bus.Idle()
    modifies bus
    ensures old(bus.wave) < bus.wave && bus.up == old(bus.up)
    ensures bus.Idle()
    ensures |busy| == |cfgs| <= 8 && forall i :: 0 <= i < |busy| ==> !ReadyForTx(busy[i])
    ensures ready <==> ReadyForTx(last)
    ensures !ready ==> |busy| == 8
    ensures bus.log == old(bus.log) + BidCycles(busy, cfgs, last)
  {
    var u := 8;
    busy, cfgs := [], [];
    while true
      invariant old(bus.wave) <= bus.wave && bus.up == old(bus.up)
      invariant bus.Idle()
      invariant 0 <= u <= 8 && |busy| == |cfgs| == 8 - u
      invariant forall i :: 0 <= i < |busy| ==> !ReadyForTx(busy[i])
      invariant bus.log == old(bus.log) + Attempts(busy, cfgs)
      decreases u
    {
      var status := ReadRegister(bus, PP_BusST);
      last := status;
      Associate(old(bus.log), Attempts(busy, cfgs), Peek(PP_BusST, last));
      if BitAnd(status, READY_FOR_TX_NOW) != 0 {
        return true, busy, cfgs, last;
      }
      if u == 0 {
        return false, busy, cfgs, last;
      }
      u := u - 1;
      ghost var cfg := SkipFrame(bus);
      AttemptsNext(busy, cfgs, last, cfg);
      Associate(old(bus.log), BidCycles(busy, cfgs, last), SkipCycles(cfg));
      busy, cfgs := busy + [last], cfgs + [cfg];
    }
  }

  lemma AttemptsNext(busy: seq<word>, cfgs: seq<word>, status: word, cfg: word)
    requires |busy| == |cfgs|
    ensures Attempts(busy + [status], cfgs + [cfg]) == BidCycles(busy, cfgs, status) + SkipCycles(cfg)
  {
    assert (busy + [status])[..|busy|] == busy && (cfgs + [cfg])[..|cfgs|] == cfgs;
  }

  // The loop over the chain ...
  method PumpOut(bus: Bus, p: Pbuf, ghost nodes: seq<Pbuf>, ghost segs: seq<seq<byte>>)
    requires bus.Idle() && Linked(p, nodes) && Slack(nodes) && Holds(nodes, segs)
    modifies bus
    ensures old(bus.wave) <= bus.wave && bus.up == old(bus.up)
    ensures bus.Idle() && bus.log == old(bus.log) + FrameOut(Flatten(segs))
  {
    var q: Pbuf? := p;
    ghost var k := 0;
    while q != null
      invariant old(bus.wave) <= bus.wave && bus.up == old(bus.up)
      invariant bus.Idle()
      invariant 0 <= k <= |nodes| && Linked(q, nodes[k..])
      invariant bus.log == old(bus.log) + FrameOut(Flatten(segs[..k]))
      decreases |nodes| - k
    {
      LinkedNext(q, nodes, k);
      FlattenNext(segs, k);
      PumpSegment(bus, q.payload, q.len, old(bus.log), Flatten(segs[..k]), segs[k]);
      q := q.next;
      k := k + 1;
    }
    assert segs[..k] == segs;
  }

  // ... and over one segment.
  method PumpSegment(bus: Bus, payload: array<byte>, len: nat, ghost before: seq<Cycle>, ghost sent: seq<byte>, ghost seg: seq<byte>)
    requires bus.Idle() && bus.log == before + FrameOut(sent)
    requires Even(len) <= payload.Length && seg == payload[..Even(len)]
    modifies bus
    ensures old(bus.wave) <= bus.wave && bus.up == old(bus.up)
    ensures bus.Idle()
    ensures bus.log == before + FrameOut(sent + seg)
  {
    AimOut(bus);
    var u := 0;
    ghost var done := sent;
    assert sent + seg[..0] == sent;
    while u < len
      invariant old(bus.wave) <= bus.wave && bus.up == old(bus.up)
      invariant bus.AtFrameOut()
      invariant 0 <= u <= Even(len) && u % 2 == 0
      invariant done == sent + seg[..u] && bus.log == before + FrameOut(done)
    {
      NextPair(u, len);
      done := PumpPair(bus, payload, u, before, sent, seg, done);
      u := u + 2;
    }
    assert seg[..u] == seg;
  }

  // The frame port on the address lines, the data port turned the right way.
  method AimOut(bus: Bus)
    requires bus.Idle()
    modifies bus
    ensures old(bus.wave) < bus.wave && bus.up == old(bus.up)
    ensures bus.AtFrameOut() && bus.log == old(bus.log)
  {
    bus.DataPortToOutput();
    bus.PutAddress(FRAME_PORT);
  }

  method AimIn(bus: Bus)
    requires bus.Idle()
    modifies bus
    ensures old(bus.wave) < bus.wave && bus.up == old(bus.up)
    ensures bus.AtFrameIn() && bus.log == old(bus.log)
  {
    bus.DataPortToInput();
    bus.PutAddress(FRAME_PORT);
  }

  // Going by two bytes gets to the even length.
  lemma NextPair(u: nat, len: nat)
    requires u < len && u % 2 == 0
    ensures u + 1 < Even(len) && u + 2 <= Even(len) && (u + 2) % 2 == 0
    ensures len < 0xffff ==> (u + 2) % 0x1_0000 == u + 2
  {
  }

  method PumpPair(bus: Bus, payload: array<byte>, u: nat, ghost before: seq<Cycle>, ghost sent: seq<byte>, ghost seg: seq<byte>,
                  ghost done: seq<byte>)
    returns (ghost now: seq<byte>)
    requires bus.AtFrameOut() && u + 1 < |seg| <= payload.Length && seg == payload[..|seg|]
    requires done == sent + seg[..u] && bus.log == before + FrameOut(done)
    modifies bus
    ensures old(bus.wave) < bus.wave && bus.up == old(bus.up)
    ensures bus.AtFrameOut() && now == sent + seg[..u + 2] && bus.log == before + FrameOut(now)
  {
    bus.WriteTxBuf(payload, u);
    PumpedOut(before, sent, seg, u);
    now := sent + seg[..u + 2];
  }

  method LowLevelInput(bus: Bus, pool: Pool, plan: Plan) returns (p: Pbuf?, ghost nodes: seq<Pbuf>, ghost r: Reception)
    requires bus.Idle() && Sound(plan) && Indexable(plan)
    modifies bus, pool
    ensures old(bus.wave) < bus.wave && bus.up == old(bus.up)
    ensures bus.Idle() && bus.log == old(bus.log) + ReceiveCycles(r)
    ensures r.Quiet? <==> 8 !in LinesOf(r.event, 0) && 10 !in LinesOf(r.event, 0) && 11 !in LinesOf(r.event, 0)
    ensures r.Dropped? ==> forall s :: SkippedOnly(bus.chip, s, old(bus.log), bus.log)
    ensures r.Dropped? ==> plan(r.length).None?
    ensures !r.Received? ==> p == null && pool.live == old(pool.live)
    ensures r.Received? ==>
              && p != null && p !in old(pool.live) && pool.live == old(pool.live) + {p}
              && p.totLen == r.length && plan(r.length) == Some(Lens(nodes))
              && Linked(p, nodes) && Slack(nodes) && fresh(Payloads(nodes)) && pool.size <= p.payload.Length
              && |r.stream| == SumEven(Lens(nodes)) && Segments(nodes) == Cut(r.stream, Lens(nodes))
    ensures !r.Quiet? ==> forall s :: Presents(bus.chip, old(bus.log) + Peek(PP_RxEvent, r.event), s) ==>
              r.status == s.rx.status && r.length == |s.rx.bytes|
    ensures r.Received? ==> forall s :: Presents(bus.chip, old(bus.log) + Peek(PP_RxEvent, r.event), s) ==>
              Aligned(Lens(nodes)) ==> Flatten(Segments(nodes)) == s.rx.bytes
  {
    var event := ReadRegister(bus, PP_RxEvent);
    StatusLines(event);
    if BitAnd(event, 0xd00) == 0 {
      return null, [], Quiet(event);
    }
    var status, len := ReadHeader(bus);
    Associate(old(bus.log), Peek(PP_RxEvent, event),
              ReadHighFirstCycles(FRAME_PORT, status) + ReadHighFirstCycles(FRAME_PORT, len));
    p, nodes, r := Accept(bus, pool, plan, old(bus.log), event, status, len);
  }

  // A buffer for the frame, and the frame into it or past it.
  method Accept(bus: Bus, pool: Pool, plan: Plan, ghost before: seq<Cycle>, ghost event: word, ghost status: word, len: word)
    returns (p: Pbuf?, ghost nodes: seq<Pbuf>, ghost r: Reception)
    requires bus.Idle() && Sound(plan) && Indexable(plan)
    requires bus.log == before + ReceiveHeader(event, status, len)
    modifies bus, pool
    ensures old(bus.wave) <= bus.wave && bus.up == old(bus.up)
    ensures bus.Idle() && bus.log == before + ReceiveCycles(r)
    ensures !r.Quiet? && r.event == event && r.length == len
    ensures r.Dropped? ==> plan(len).None? && p == null && pool.live == old(pool.live)
    ensures r.Dropped? ==> forall s :: SkippedOnly(bus.chip, s, before, bus.log)
    ensures r.Received? ==>
              && p != null && p !in old(pool.live) && pool.live == old(pool.live) + {p}
              && p.totLen == len && plan(len) == Some(Lens(nodes))
              && Linked(p, nodes) && Slack(nodes) && fresh(Payloads(nodes)) && pool.size <= p.payload.Length
              && |r.stream| == SumEven(Lens(nodes)) && Segments(nodes) == Cut(r.stream, Lens(nodes))
    ensures forall s :: Presents(bus.chip, before + Peek(PP_RxEvent, event), s) ==>
              r.status == s.rx.status && r.length == |s.rx.bytes|
    ensures r.Received? ==> forall s :: Presents(bus.chip, before + Peek(PP_RxEvent, event), s) ==>
              Aligned(Lens(nodes)) ==> Flatten(Segments(nodes)) == s.rx.bytes
  {
    p, nodes := pool.Alloc(len, plan);
    if p != null {
      ghost var stream := Fetch(bus, p, nodes);
      r := Received(event, status, len, stream);
      Associate(before, ReceiveHeader(event, status, len), FrameIn(stream));
      WatchesMeans(bus.log, bus.wave, bus.chip, Pins(bus.dir, bus.out));
      ReceiveShows(bus.chip, before, r, Lens(nodes));
    } else {
      ghost var cfg := SkipFrame(bus);
      r := Dropped(event, status, len, cfg);
      Associate(before, ReceiveHeader(event, status, len), SkipCycles(cfg));
      WatchesMeans(bus.log, bus.wave, bus.chip, Pins(bus.dir, bus.out));
      DropShows(bus.chip, before, r);
      DropSkips(bus.chip, before, r);
    }
  }

  // The frame into a chain just allocated.
  method Fetch(bus: Bus, p: Pbuf, ghost nodes: seq<Pbuf>) returns (ghost stream: seq<byte>)
    requires bus.Idle() && Linked(p, nodes) && Slack(nodes) && Separate(nodes)
    requires forall n :: n in nodes ==> n.len < 0xffff
    modifies bus, Payloads(nodes)
    ensures old(bus.wave) <= bus.wave && bus.up == old(bus.up)
    ensures bus.Idle() && bus.log == old(bus.log) + FrameIn(stream)
    ensures |stream| == SumEven(Lens(nodes)) && Segments(nodes) == Cut(stream, Lens(nodes))
  {
    ghost var segs := PumpIn(bus, p, nodes);
    Filled(nodes, segs);
    stream := Flatten(segs);
  }

  method ReadHeader(bus: Bus) returns (status: word, length: word)
    requires bus.Idle()
    modifies bus
    ensures old(bus.wave) < bus.wave && bus.up == old(bus.up)
    ensures bus.Idle()
    ensures bus.log == old(bus.log) + (ReadHighFirstCycles(FRAME_PORT, status) + ReadHighFirstCycles(FRAME_PORT, length))
  {
    status := bus.ReadAddrHighFirst(FRAME_PORT);
    length := bus.ReadAddrHighFirst(FRAME_PORT);
  }

  method PumpIn(bus: Bus, p: Pbuf, ghost nodes: seq<Pbuf>) returns (ghost segs: seq<seq<byte>>)
    requires bus.Idle() && Linked(p, nodes) && Slack(nodes) && Separate(nodes)
    requires forall n :: n in nodes ==> n.len < 0xffff
    modifies bus, Payloads(nodes)
    ensures old(bus.wave) <= bus.wave && bus.up == old(bus.up)
    ensures bus.Idle() && bus.log == old(bus.log) + FrameIn(Flatten(segs))
    ensures Holds(nodes, segs)
  {
    AimIn(bus);
    var q: Pbuf? := p;
    ghost var k := 0;
    segs := [];
    while q != null
      invariant old(bus.wave) <= bus.wave && bus.up == old(bus.up)
      invariant bus.AtFrameIn()
      invariant 0 <= k <= |nodes| && Linked(q, nodes[k..]) && HoldsTo(nodes, segs, k)
      invariant bus.log == old(bus.log) + FrameIn(Flatten(segs))
      decreases |nodes| - k
    {
      LinkedNext(q, nodes, k);
      segs := FillNode(bus, q, nodes, k, old(bus.log), segs);
      q := q.next;
      k := k + 1;
    }
  }

  // The first k nodes hold what was read.
  ghost predicate HoldsTo(nodes: seq<Pbuf>, segs: seq<seq<byte>>, k: nat)
    requires Slack(nodes)
    reads Payloads(nodes)
  {
    |segs| == k <= |nodes| && forall i :: 0 <= i < k ==> segs[i] == nodes[i].payload[..Even(nodes[i].len)]
  }

  method FillNode(bus: Bus, q: Pbuf, ghost nodes: seq<Pbuf>, ghost k: nat, ghost before: seq<Cycle>, ghost segs: seq<seq<byte>>)
    returns (ghost now: seq<seq<byte>>)
    requires bus.AtFrameIn() && Slack(nodes) && Separate(nodes)
    requires k < |nodes| && nodes[k] == q && q.len < 0xffff && HoldsTo(nodes, segs, k)
    requires bus.log == before + FrameIn(Flatten(segs))
    modifies bus, q.payload
    ensures old(bus.wave) <= bus.wave && bus.up == old(bus.up)
    ensures bus.AtFrameIn() && HoldsTo(nodes, now, k + 1)
    ensures bus.log == before + FrameIn(Flatten(now))
  {
    FillSegment(bus, q.payload, q.len, before, Flatten(segs));
    FlattenConcat(segs, [q.payload[..Even(q.len)]]);
    now := segs + [q.payload[..Even(q.len)]];
  }

  lemma Filled(nodes: seq<Pbuf>, segs: seq<seq<byte>>)
    requires Slack(nodes) && Holds(nodes, segs)
    ensures |Flatten(segs)| == SumEven(Lens(nodes)) && Segments(nodes) == Cut(Flatten(segs), Lens(nodes))
  {
    ChainValues(nodes);
    CutUndoesPump(segs, Segments(nodes), Lens(nodes));
  }

  method FillSegment(bus: Bus, payload: array<byte>, len: nat, ghost before: seq<Cycle>, ghost got: seq<byte>)
    requires bus.AtFrameIn()
    requires bus.log == before + FrameIn(got)
    requires Even(len) <= payload.Length && len < 0xffff
    modifies bus, payload
    ensures old(bus.wave) <= bus.wave && bus.up == old(bus.up)
    ensures bus.AtFrameIn()
    ensures bus.log == before + FrameIn(got + payload[..Even(len)])
  {
    var u := 0;
    ghost var done := got;
    assert got + payload[..0] == got;
    while u < len
      invariant old(bus.wave) <= bus.wave && bus.up == old(bus.up)
      invariant bus.AtFrameIn()
      invariant 0 <= u <= Even(len) && u % 2 == 0
      invariant done == got + payload[..u] && bus.log == before + FrameIn(done)
    {
      NextPair(u, len);
      done := FillPair(bus, payload, u, before, got, done);
      u := (u + 2) % 0x1_0000;  // a uint16_t
    }
  }

  method FillPair(bus: Bus, payload: array<byte>, u: nat, ghost before: seq<Cycle>, ghost got: seq<byte>, ghost done: seq<byte>)
    returns (ghost now: seq<byte>)
    requires bus.AtFrameIn()
    requires u + 1 < payload.Length && done == got + payload[..u] && bus.log == before + FrameIn(done)
    modifies bus, payload
    ensures old(bus.wave) < bus.wave && bus.up == old(bus.up)
    ensures bus.AtFrameIn()
    ensures now == got + payload[..u + 2] && bus.log == before + FrameIn(now)
  {
    ghost var seg := payload[..u];
    bus.ReadRxBuf(payload, u);
    PumpedIn(before, got, seg, payload[u], payload[u + 1]);
    now := got + (seg + [payload[u], payload[u + 1]]);
  }

  // One turn of the polling loop.  Every buffer taken from the pool is with the
  // stack or back in the pool when the call returns.
  method IfInput(bus: Bus, pool: Pool, plan: Plan, accepts: bool) returns (more: bool, ghost p: Pbuf?, ghost r: Reception)
    requires bus.Idle() && Sound(plan) && Indexable(plan) && HEADER_LEN <= pool.size
    modifies bus, pool
    ensures old(bus.wave) < bus.wave && bus.up == old(bus.up)
    ensures bus.Idle() && bus.log == old(bus.log) + ReceiveCycles(r)
    ensures more <==> r.Received?
    ensures !more ==> pool.live == old(pool.live)
    ensures more ==> p != null && HEADER_LEN <= p.payload.Length && p !in old(pool.live)
    ensures more ==> pool.live == old(pool.live) +
                     if Wanted(EtherType(p.payload[..])) && accepts then {p} else {}
  {
    var q, nodes, reception := LowLevelInput(bus, pool, plan);
    p, r := q, reception;
    if q == null {
      return false, p, r;
    }
    var delivered := Dispatch(pool, q, accepts);
    more := true;
  }

  // ---- runs of calls ----

  // What lwIP's thread and the polling thread ask of the driver.
  datatype Request =
    | Transmit(p: Pbuf, nodes: seq<Pbuf>)
    | Poll(plan: Plan, accepts: bool)

  ghost predicate Meets(request: Request) {
    match request
    case Transmit(p, nodes) => Linked(p, nodes) && Slack(nodes) && p.totLen == Sum(Lens(nodes)) < 0x1_0000
    case Poll(plan, _) => Sound(plan) && Indexable(plan)
  }

  method Serve(bus: Bus, pool: Pool, request: Request) returns (ghost kept: set<Pbuf>)
    requires bus.Idle() && HEADER_LEN <= pool.size && Meets(request)
    modifies bus, pool
    ensures old(bus.wave) < bus.wave && bus.up == old(bus.up) && bus.Idle()
    ensures pool.live == old(pool.live) + kept && kept !! old(pool.live) && |kept| <= 1
  {
    kept := {};
    match request
    case Transmit(p, nodes) =>
      var err, busy, cfgs, last := LowLevelOutput(bus, p, nodes);
    case Poll(plan, accepts) =>
      kept := PollOnce(bus, pool, plan, accepts);
  }

  method PollOnce(bus: Bus, pool: Pool, plan: Plan, accepts: bool) returns (ghost kept: set<Pbuf>)
    requires bus.Idle() && Sound(plan) && Indexable(plan) && HEADER_LEN <= pool.size
    modifies bus, pool
    ensures old(bus.wave) < bus.wave && bus.up == old(bus.up) && bus.Idle()
    ensures pool.live == old(pool.live) + kept && kept !! old(pool.live) && |kept| <= 1
  {
    var more, p, r := IfInput(bus, pool, plan, accepts);
    kept := if more && Wanted(EtherType(p.payload[..])) && accepts then {p} else {};
  }

  // From power-on over any sequence of calls, whatever the chip does: one
  // growing waveform.  Before the lines become outputs both strobes are high in
  // the latch; from there on it is disciplined, state by state and step by
  // step; both strobes are high where one call ends and the next begins
  // (`ends`); the chip saw nothing but the cycles in it; and the stack keeps one
  // buffer at most of each call, everything else being back in the pool.
  method Session(bus: Bus, pool: Pool, requests: seq<Request>, ghost patience: nat)
    returns (ghost ends: seq<nat>, ghost kept: set<Pbuf>)
    requires bus.Recorded() && HEADER_LEN <= pool.size
    requires ResetsWithin(bus.chip,
               bus.log + Edge(bus.out, bus.out + {IOR, IOW}, bus.log, bus.chip) + ResetCycles(), patience)
    requires forall i :: 0 <= i < |requests| ==> Meets(requests[i])
    modifies bus, pool
    ensures old(bus.wave) + [Pins(old(bus.dir), old(bus.out) + {IOR, IOW})] <= bus.wave && bus.up == |old(bus.wave)| + 1
    ensures Disciplined(bus.wave, bus.up) && bus.log == Seen(bus.wave, bus.chip)
    ensures exists start :: bus.up <= start && |ends| == |requests| + 1 && AtRest(bus.wave, start, ends)
    ensures Kept(old(pool.live), kept, pool.live, |requests|)
  {
    var hwaddr, waits := LowLevelInit(bus, patience);
    ghost var start := |bus.wave| - 1;
    ends, kept := ServeAll(bus, pool, requests, start);
    WatchesMeans(bus.log, bus.wave, bus.chip, Pins(bus.dir, bus.out));
  }

  method ServeAll(bus: Bus, pool: Pool, requests: seq<Request>, ghost start: nat)
    returns (ghost ends: seq<nat>, ghost kept: set<Pbuf>)
    requires bus.Idle() && start == |bus.wave| - 1 && HEADER_LEN <= pool.size
    requires forall i :: 0 <= i < |requests| ==> Meets(requests[i])
    modifies bus, pool
    ensures old(bus.wave) <= bus.wave && bus.up == old(bus.up) && bus.Idle()
    ensures |ends| == |requests| + 1 && AtRest(bus.wave, start, ends)
    ensures Kept(old(pool.live), kept, pool.live, |requests|)
  {
    IdleRests(bus);
    RestBegins(bus.wave);
    ends, kept := [start], {};
    var i := 0;
    while i < |requests|
      invariant 0 <= i <= |requests|
      invariant old(bus.wave) <= bus.wave && bus.up == old(bus.up) && bus.Idle()
      invariant |ends| == i + 1 && AtRest(bus.wave, start, ends)
      invariant Kept(old(pool.live), kept, pool.live, i)
    {
      ends, kept := ServeNext(bus, pool, requests[i], old(bus.wave), start, ends, old(pool.live), kept, i);
      i := i + 1;
    }
  }

  // What n calls left with the stack, on top of what was out before.
  ghost predicate Kept(start: set<Pbuf>, kept: set<Pbuf>, live: set<Pbuf>, n: nat) {
    live == start + kept && kept !! start && |kept| <= n
  }

  method ServeNext(bus: Bus, pool: Pool, request: Request, ghost wave: seq<Pins>, ghost start: nat, ghost ends: seq<nat>,
                   ghost live: set<Pbuf>, ghost kept: set<Pbuf>, ghost n: nat)
    returns (ghost ends': seq<nat>, ghost kept': set<Pbuf>)
    requires bus.Idle() && HEADER_LEN <= pool.size && Meets(request)
    requires wave <= bus.wave && AtRest(bus.wave, start, ends) && Kept(live, kept, pool.live, n)
    modifies bus, pool
    ensures wave <= bus.wave && bus.up == old(bus.up) && bus.Idle()
    ensures AtRest(bus.wave, start, ends') && |ends'| == |ends| + 1 && Kept(live, kept', pool.live, n + 1)
  {
    kept' := ServeKept(bus, pool, request, live, kept, n);
    IdleRests(bus);
    ends' := RestGoesOn(wave, old(bus.wave), start, ends, bus.wave);
  }

  method ServeKept(bus: Bus, pool: Pool, request: Request, ghost live: set<Pbuf>, ghost kept: set<Pbuf>, ghost n: nat)
    returns (ghost kept': set<Pbuf>)
    requires bus.Idle() && HEADER_LEN <= pool.size && Meets(request) && Kept(live, kept, pool.live, n)
    modifies bus, pool
    ensures old(bus.wave) < bus.wave && bus.up == old(bus.up) && bus.Idle()
    ensures Kept(live, kept', pool.live, n + 1)
  {
    ghost var more := Serve(bus, pool, request);
    KeptGrows(live, kept, old(pool.live), more);
    kept' := kept + more;
  }

  // Places of a waveform from `start` on, in order and up to its end, with both
  // strobes high.
  ghost predicate AtRest(wave: seq<Pins>, start: nat, ends: seq<nat>) {
    && ends != [] && ends[0] == start && ends[|ends| - 1] == |wave| - 1
    && (forall i :: 0 <= i < |ends| ==> ends[i] < |wave| && IOR in wave[ends[i]].out && IOW in wave[ends[i]].out)
    && (forall i, j :: 0 <= i < j < |ends| ==> ends[i] < ends[j])
  }

  predicate RestsLast(wave: seq<Pins>) {
    wave != [] && IOR in wave[|wave| - 1].out && IOW in wave[|wave| - 1].out
  }

  lemma IdleRests(bus: Bus)
    requires bus.Idle()
    ensures RestsLast(bus.wave)
  {
    WatchesMeans(bus.log, bus.wave, bus.chip, Pins(bus.dir, bus.out));
  }

  lemma RestBegins(wave: seq<Pins>)
    requires wave != [] && RestsLast(wave)
    ensures AtRest(wave, |wave| - 1, [|wave| - 1])
  {
  }

  lemma RestGoesOn(first: seq<Pins>, before: seq<Pins>, start: nat, ends: seq<nat>, wave: seq<Pins>) returns (now: seq<nat>)
    requires AtRest(before, start, ends) && first <= before < wave && RestsLast(wave)
    ensures AtRest(wave, start, now) && |now| == |ends| + 1 && first <= wave
  {
    now := ends + [|wave| - 1];
  }

  lemma KeptGrows<T>(start: set<T>, kept: set<T>, live: set<T>, more: set<T>)
    requires live == start + kept && start !! kept && live !! more
    ensures live + more == start + (kept + more) && start !! kept + more && |kept + more| <= |kept| + |more|
  {
    assert (kept + more) - kept == more;
  }
}
