// What the driver calls mean to the chip, for every chip.
module Cs8900aRefinement {
  import opened Bytes
  import opened Cs8900aBus
  import opened Cs8900aChip
  import opened PbufChain
  import opened Cs8900aTraffic

  // ---- initialisation ----

  lemma {:induction false} PokesConcat(a: seq<Setting>, b: seq<Setting>)
    ensures Pokes(a + b) == Pokes(a) + Pokes(b)
  {
    if b == [] {
      assert a + b == a;
    } else {
      var n := |b| - 1;
      PokesConcat(a, b[..n]);
      assert (a + b)[..|a| + n] == a + b[..n];
      Associate(Pokes(a), Pokes(b[..n]), Poke(b[n].at, b[n].value));
    }
  }

  lemma InitDisjoint(hwaddr: seq<byte>)
    requires |hwaddr| == 6
    ensures Disjoint(StationAddress(hwaddr) + InitSeq())
  {
    var all := StationAddress(hwaddr) + InitSeq();
    assert forall i :: 0 <= i < 3 ==> all[i].at == PP_IA + 2 * i;
    assert all[3].at == PP_LineCTL && all[8].at == PP_RxCTL;
    assert forall i :: 4 <= i < 8 ==> all[i].at == PP_LAF + 2 * (i - 4);
  }

  // However long the chip takes to reset and whatever it held before, init
  // leaves every setting in place.
  lemma InitProgramsChip(s: State, waits: seq<word>, hwaddr: seq<byte>, settings: seq<Setting>)
    requires |hwaddr| == 6 && settings == StationAddress(hwaddr) + InitSeq()
    ensures forall k :: 0 <= k < |settings| ==>
              Register(After(s, InitCycles(waits, hwaddr)), settings[k].at) == settings[k].value
  {
    var before := ResetCycles() + Reads(waits);
    PokesConcat(StationAddress(hwaddr), InitSeq());
    assert InitCycles(waits, hwaddr) == before + Pokes(settings);
    AfterConcat(s, before, Pokes(settings));
    InitDisjoint(hwaddr);
    forall k | 0 <= k < |settings|
      ensures Register(After(s, InitCycles(waits, hwaddr)), settings[k].at) == settings[k].value
    {
      PokesStay(After(s, before), settings, k);
    }
  }

  // Among them the station address, byte by byte.
  lemma InitSetsStationAddress(s: State, waits: seq<word>, hwaddr: seq<byte>, i: nat)
    requires |hwaddr| == 6 && i < 3
    ensures ByteAt(After(s, InitCycles(waits, hwaddr)), PP_IA + 2 * i) == hwaddr[2 * i]
    ensures ByteAt(After(s, InitCycles(waits, hwaddr)), PP_IA + 2 * i + 1) == hwaddr[2 * i + 1]
  {
    var settings := StationAddress(hwaddr) + InitSeq();
    InitProgramsChip(s, waits, hwaddr, settings);
    StationSetting(hwaddr, i);
    RegisterBytes(After(s, InitCycles(waits, hwaddr)), settings[i]);
  }

  lemma StationSetting(hwaddr: seq<byte>, i: nat)
    requires |hwaddr| == 6 && i < 3
    ensures StationAddress(hwaddr)[i] == Setting(PP_IA + 2 * i, Word(hwaddr[2 * i], hwaddr[2 * i + 1]))
  {
  }

  lemma RegisterBytes(s: State, setting: Setting)
    requires Register(s, setting.at) == setting.value
    ensures ByteAt(s, setting.at) == Lo(setting.value) && ByteAt(s, setting.at + 1) == Hi(setting.value)
  {
  }

  ghost predicate Programmed(s: State, settings: seq<Setting>) {
    forall k :: 0 <= k < |settings| ==> Register(s, settings[k].at) == settings[k].value
  }

  lemma InitShows(before: seq<Cycle>, waits: seq<word>)
    ensures forall s :: SetUp(After(s, before + InitCycles(waits, HWADDR)))
  {
    forall s
      ensures SetUp(After(s, before + InitCycles(waits, HWADDR)))
    {
      AfterConcat(s, before, InitCycles(waits, HWADDR));
      InitSetsUp(After(s, before), waits);
    }
  }

  // The settings at the chip's own addresses: the bytes of the station address
  // in order, line control, the four words of the hash filter, receiver control.
  lemma StationIs(hwaddr: seq<byte>)
    requires hwaddr == [0x00, 0xBD, 0x03, 0x04, 0x05, 0x07]
    ensures StationAddress(hwaddr) ==
            [Setting(0x0158, Word(0x00, 0xBD)), Setting(0x015A, Word(0x03, 0x04)), Setting(0x015C, Word(0x05, 0x07))]
  {
  }

  lemma InitSeqIs()
    ensures InitSeq() ==
            [Setting(0x0112, 0x00C0), Setting(0x0150, 0xFFFF), Setting(0x0152, 0xFFFF), Setting(0x0154, 0xFFFF),
             Setting(0x0156, 0xFFFF), Setting(0x0104, 0x0F00)]
  {
  }

  // Init leaves these in the page.
  ghost predicate SetUp(s: State) {
    && Programmed(s, [Setting(0x0158, Word(0x00, 0xBD)), Setting(0x015A, Word(0x03, 0x04)), Setting(0x015C, Word(0x05, 0x07))])
    && Programmed(s, [Setting(0x0112, 0x00C0), Setting(0x0150, 0xFFFF), Setting(0x0152, 0xFFFF), Setting(0x0154, 0xFFFF),
                      Setting(0x0156, 0xFFFF), Setting(0x0104, 0x0F00)])
  }

  lemma InitSetsUp(s: State, waits: seq<word>)
    ensures SetUp(After(s, InitCycles(waits, HWADDR)))
  {
    InitProgramsChip(s, waits, HWADDR, StationAddress(HWADDR) + InitSeq());
    ProgrammedParts(After(s, InitCycles(waits, HWADDR)), StationAddress(HWADDR), InitSeq());
    StationIs(HWADDR);
    InitSeqIs();
  }

  lemma ProgrammedParts(s: State, a: seq<Setting>, b: seq<Setting>)
    requires Programmed(s, a + b)
    ensures Programmed(s, a) && Programmed(s, b)
  {
    forall k | 0 <= k < |a|
      ensures Register(s, a[k].at) == a[k].value
    {
      assert (a + b)[k] == a[k];
    }
    forall k | 0 <= k < |b|
      ensures Register(s, b[k].at) == b[k].value
    {
      assert (a + b)[|a| + k] == b[k];
    }
  }

  // The reset comes first: its bit is written to SelfCTL (0x0114), then SelfST
  // (0x0136) is read until it is over, and only then settings are written.
  lemma ResetComesFirst(waits: seq<word>, hwaddr: seq<byte>)
    requires |hwaddr| == 6
    ensures InitCycles(waits, hwaddr) ==
            [Wr(0xA, 0x14), Wr(0xB, 0x01), Wr(0xC, 0x40), Wr(0xD, 0x00), Wr(0xA, 0x36), Wr(0xB, 0x01)]
            + Reads(waits) + Pokes(StationAddress(hwaddr) + InitSeq())
  {
    assert ResetCycles() == [Wr(0xA, 0x14), Wr(0xB, 0x01), Wr(0xC, 0x40), Wr(0xD, 0x00), Wr(0xA, 0x36), Wr(0xB, 0x01)];
    PokesConcat(StationAddress(hwaddr), InitSeq());
    Associate(ResetCycles() + Reads(waits), Pokes(StationAddress(hwaddr)), Pokes(InitSeq()));
  }

  // Register by register: the reset bit is all that is written to SelfCTL, and
  // nothing but SelfST is read.
  lemma InitTraffic(s: State, waits: seq<word>, hwaddr: seq<byte>, at: word)
    requires |hwaddr| == 6
    ensures ReadAt(s, InitCycles(waits, hwaddr), at) == if at == 0x0136 then WordBytes(waits) else []
    ensures at == 0x0114 ==> WrittenAt(s, InitCycles(waits, hwaddr), at) == [0x40, 0x00]
  {
    SettingsAt(hwaddr);
    SetUpTraffic(s, waits, StationAddress(hwaddr) + InitSeq(), at);
    PokesConcat(StationAddress(hwaddr), InitSeq());
    Associate(ResetCycles() + Reads(waits), Pokes(StationAddress(hwaddr)), Pokes(InitSeq()));
  }

  lemma SetUpTraffic(s: State, waits: seq<word>, settings: seq<Setting>, at: word)
    requires forall i :: 0 <= i < |settings| ==> settings[i].at != 0x0114
    ensures var all := ResetCycles() + Reads(waits) + Pokes(settings);
            && ReadAt(s, all, at) == (if at == 0x0136 then WordBytes(waits) else [])
            && (at == 0x0114 ==> WrittenAt(s, all, at) == [0x40, 0x00])
  {
    var reset, polls := ResetCycles(), Reads(waits);
    ResetTraffic(s, at);
    ReadsTraffic(After(s, reset), waits, at);
    TrafficTwo(s, reset, polls, at);
    PokesTraffic(After(s, reset + polls), settings, at);
    TrafficTwo(s, reset + polls, Pokes(settings), at);
  }

  lemma SettingsAt(hwaddr: seq<byte>)
    requires |hwaddr| == 6
    ensures var settings := StationAddress(hwaddr) + InitSeq();
            forall i :: 0 <= i < |settings| ==> settings[i].at != 0x0114
  {
  }

  lemma ResetTraffic(s: State, at: word)
    ensures ReadAt(s, ResetCycles(), at) == []
    ensures WrittenAt(s, ResetCycles(), at) == if at == 0x0114 then [0x40, 0x00] else []
    ensures After(s, ResetCycles()).pointer == 0x0136
  {
    TrafficPoke(s, PP_SelfCTL, POWER_ON_RESET, at);
    PointTraffic(s, Poke(PP_SelfCTL, POWER_ON_RESET), PP_SelfST, at);
  }

  // Pointing at a register after some traffic.
  lemma PointTraffic(s: State, before: seq<Cycle>, reg: word, at: word)
    ensures ReadAt(s, before + WriteCycles(ADD_PORT, reg), at) == ReadAt(s, before, at)
    ensures WrittenAt(s, before + WriteCycles(ADD_PORT, reg), at) == WrittenAt(s, before, at)
    ensures After(s, before + WriteCycles(ADD_PORT, reg)).pointer == reg
  {
    TrafficPointer(After(s, before), reg, at);
    TrafficTwo(s, before, WriteCycles(ADD_PORT, reg), at);
    AfterConcat(s, before, WriteCycles(ADD_PORT, reg));
    AfterPointer(After(s, before), reg);
  }

  lemma {:induction false} ReadsTraffic(s: State, values: seq<word>, at: word)
    ensures ReadAt(s, Reads(values), at) == if s.pointer == at then WordBytes(values) else []
    ensures WrittenAt(s, Reads(values), at) == [] && After(s, Reads(values)) == s
  {
    if values != [] {
      var n := |values| - 1;
      ReadsTraffic(s, values[..n], at);
      TrafficData(s, values[n], at);
      TrafficConcat(s, Reads(values[..n]), ReadCycles(DATA_PORT, values[n]), at);
      AfterConcat(s, Reads(values[..n]), ReadCycles(DATA_PORT, values[n]));
      AfterRead(s, DATA_PORT, values[n]);
    }
  }

  lemma {:induction false} PokesTraffic(s: State, settings: seq<Setting>, at: word)
    ensures ReadAt(s, Pokes(settings), at) == []
    ensures (forall i :: 0 <= i < |settings| ==> settings[i].at != at) ==> WrittenAt(s, Pokes(settings), at) == []
  {
    if settings != [] {
      var n := |settings| - 1;
      PokesTraffic(s, settings[..n], at);
      TrafficPoke(After(s, Pokes(settings[..n])), settings[n].at, settings[n].value, at);
      TrafficTwo(s, Pokes(settings[..n]), Poke(settings[n].at, settings[n].value), at);
    }
  }

  // ---- skipping a frame ----

  // On a chip that answers for its RxCFG register, what a skip reads is that
  // register ...
  lemma SkipReadsRegister(chip: Chip, s0: State, log: seq<Cycle>, cfg: word)
    requires Keeps(chip, s0, {PP_RxCFG as int})
    requires Honest(log + Peek(PP_RxCFG, cfg), chip)
    ensures cfg == Register(After(s0, log), PP_RxCFG)
  {
    var pointed := log + WriteCycles(ADD_PORT, PP_RxCFG);
    Associate(log, WriteCycles(ADD_PORT, PP_RxCFG), ReadCycles(DATA_PORT, cfg));
    AfterConcat(s0, log, WriteCycles(ADD_PORT, PP_RxCFG));
    AfterPointer(After(s0, log), PP_RxCFG);
    PointedRead(chip, s0, After(s0, log), pointed, cfg);
    RegisterIs(After(s0, log), cfg);
  }

  lemma PointedRead(chip: Chip, s0: State, was: State, pointed: seq<Cycle>, cfg: word)
    requires Keeps(chip, s0, {PP_RxCFG as int}) && After(s0, pointed) == was.(pointer := PP_RxCFG)
    requires Honest(pointed + ReadCycles(DATA_PORT, cfg), chip)
    ensures ByteAt(was, PP_RxCFG) == Lo(cfg) && ByteAt(was, PP_RxCFG + 1) == Hi(cfg)
  {
    HonestPair(pointed, DATA_PORT, Lo(cfg), Hi(cfg), chip);
    AfterDataRead(s0, pointed, Lo(cfg));
    KeepsAt(chip, s0, pointed);
    KeepsAt(chip, s0, pointed + [Rd(DATA_PORT, Lo(cfg))]);
  }

  lemma AfterDataRead(s0: State, log: seq<Cycle>, v: byte)
    ensures After(s0, log + [Rd(DATA_PORT, v)]) == After(s0, log)
  {
    assert (log + [Rd(DATA_PORT, v)])[..|log|] == log;
  }

  lemma RegisterIs(s: State, cfg: word)
    requires ByteAt(s, PP_RxCFG) == Lo(cfg) && ByteAt(s, PP_RxCFG + 1) == Hi(cfg)
    ensures Register(s, PP_RxCFG) == cfg
  {
  }

  lemma KeepsAt(chip: Chip, s0: State, log: seq<Cycle>)
    requires Keeps(chip, s0, {PP_RxCFG as int}) && After(s0, log).pointer == PP_RxCFG
    ensures chip(log, DATA_PORT) == ByteAt(After(s0, log), PP_RxCFG)
    ensures chip(log, DATA_PORT + 1) == ByteAt(After(s0, log), PP_RxCFG + 1)
  {
  }

  // ... and the skip sets SKIP_1 there and changes nothing else in the page.
  lemma SkipSetsOnlySkip1(chip: Chip, s0: State, log: seq<Cycle>, cfg: word)
    requires Keeps(chip, s0, {PP_RxCFG as int})
    requires Honest(log + SkipCycles(cfg), chip)
    ensures var was, now := After(s0, log), After(s0, log + SkipCycles(cfg));
            && LinesOf(Register(now, PP_RxCFG), 0) == LinesOf(Register(was, PP_RxCFG), 0) + {6}
            && (forall at :: at != PP_RxCFG && at != PP_RxCFG + 1 ==> ByteAt(now, at) == ByteAt(was, at))
            && now.tx == was.tx
  {
    var peek, store := Peek(PP_RxCFG, cfg), WriteCycles(DATA_PORT, Or(cfg, SKIP_1));
    Associate(log, peek, store);
    HonestPrefix(log + peek, store, chip);
    SkipReadsRegister(chip, s0, log, cfg);
    AfterConcat(s0, log, SkipCycles(cfg));
    SkipStores(After(s0, log), cfg);
    BitOrLines(cfg, SKIP_1, 0);
    MaskLines();
  }

  lemma SkipStores(s: State, cfg: word)
    ensures var now := After(s, SkipCycles(cfg));
            && Register(now, PP_RxCFG) == Or(cfg, SKIP_1) && now.tx == s.tx
            && forall at :: at != PP_RxCFG && at != PP_RxCFG + 1 ==> ByteAt(now, at) == ByteAt(s, at)
  {
    AfterConcat(s, Peek(PP_RxCFG, cfg), WriteCycles(DATA_PORT, Or(cfg, SKIP_1)));
    AfterPeek(s, PP_RxCFG, cfg);
    AfterData(s.(pointer := PP_RxCFG), Or(cfg, SKIP_1));
  }

  // What a skip leaves of a register page: SKIP_1 set in RxCFG, on a chip that
  // answers for that register nothing else in it, and the rest of the page as
  // it was.
  ghost predicate SkippedOnly(chip: Chip, s0: State, before: seq<Cycle>, now: seq<Cycle>) {
    var was, done := After(s0, before), After(s0, now);
    && 6 in LinesOf(Register(done, 0x0102), 0)
    && (Keeps(chip, s0, {0x0102}) ==> LinesOf(Register(done, 0x0102), 0) == LinesOf(Register(was, 0x0102), 0) + {6})
    && forall at :: at != 0x0102 && at != 0x0103 ==> ByteAt(done, at) == ByteAt(was, at)
  }

  lemma SkipShows(chip: Chip, s0: State, log: seq<Cycle>, cfg: word)
    requires Honest(log + SkipCycles(cfg), chip)
    ensures SkippedOnly(chip, s0, log, log + SkipCycles(cfg))
  {
    AfterConcat(s0, log, SkipCycles(cfg));
    SkipStores(After(s0, log), cfg);
    BitOrLines(cfg, SKIP_1, 0);
    MaskLines();
    if Keeps(chip, s0, {0x0102}) {
      SkipSetsOnlySkip1(chip, s0, log, cfg);
    }
  }

  // ---- sending ----
  // ---- sending ----

  // What polling and skipping leave of the frame being sent.
  predicate SameFrame(s: State, now: State) {
    now.tx == s.tx && now.length == s.length && now.command == s.command
  }

  lemma {:induction false} AfterAttempts(s: State, busy: seq<word>, cfgs: seq<word>)
    requires |busy| == |cfgs|
    ensures SameFrame(s, After(s, Attempts(busy, cfgs)))
  {
    if busy != [] {
      var n := |busy| - 1;
      var s1, head := After(s, Attempts(busy[..n], cfgs[..n])), Attempts(busy[..n], cfgs[..n]);
      AfterAttempts(s, busy[..n], cfgs[..n]);
      AfterConcat(s, head, Peek(PP_BusST, busy[n]));
      AfterPeek(s1, PP_BusST, busy[n]);
      AfterConcat(s, head + Peek(PP_BusST, busy[n]), SkipCycles(cfgs[n]));
      AfterSkip(After(s, head + Peek(PP_BusST, busy[n])), cfgs[n]);
    }
  }

  lemma AfterSkip(s: State, cfg: word)
    ensures SameFrame(s, After(s, SkipCycles(cfg))) && After(s, SkipCycles(cfg)).pointer == PP_RxCFG
  {
    AfterConcat(s, Peek(PP_RxCFG, cfg), WriteCycles(DATA_PORT, Or(cfg, SKIP_1)));
    AfterPeek(s, PP_RxCFG, cfg);
    AfterData(s.(pointer := PP_RxCFG), Or(cfg, SKIP_1));
  }

  lemma AfterCommandCycles(s: State, length: word)
    ensures After(s, CommandCycles(length)) == s.(command := 0x00C0, length := length, tx := [])
  {
    AfterConcat(s, WriteCycles(TX_CMD_PORT, TX_START_ALL_BYTES), WriteCycles(TX_LEN_PORT, length));
    AfterCommand(s, TX_START_ALL_BYTES);
    AfterLength(s.(command := TX_START_ALL_BYTES, tx := []), length);
  }

  lemma AfterBid(s: State, busy: seq<word>, cfgs: seq<word>, last: word)
    requires |busy| == |cfgs|
    ensures var now := After(s, BidCycles(busy, cfgs, last)); SameFrame(s, now) && now.pointer == PP_BusST
  {
    AfterConcat(s, Attempts(busy, cfgs), Peek(PP_BusST, last));
    AfterAttempts(s, busy, cfgs);
    AfterPeek(After(s, Attempts(busy, cfgs)), PP_BusST, last);
  }

  // However often the chip was busy, its command is to send when all bytes are
  // there, its length register has the length asked for, and its frame buffer
  // holds what was pumped after the bid; nothing was pumped when the bid failed.
  lemma AfterTransmit(s: State, length: word, busy: seq<word>, cfgs: seq<word>, last: word, wire: seq<byte>)
    requires |busy| == |cfgs| && |wire| % 2 == 0
    ensures var now := After(s, TransmitCycles(length, busy, cfgs, last, wire));
            now.tx == wire && now.length == length && now.command == 0x00C0
  {
    AfterCommandCycles(s, length);
    var s1 := After(s, CommandCycles(length));
    AfterBid(s1, busy, cfgs, last);
    var s2 := After(s1, BidCycles(busy, cfgs, last));
    AfterConcat(s, CommandCycles(length), BidCycles(busy, cfgs, last));
    AfterConcat(s, CommandCycles(length) + BidCycles(busy, cfgs, last), FrameOut(wire));
    AfterFrameOut(s2, wire);
    assert s2.tx + wire == wire;
  }

  // The bid opens with the command and the length, low bytes first.
  lemma CommandComesFirst(length: word, busy: seq<word>, cfgs: seq<word>, last: word, wire: seq<byte>)
    requires |busy| == |cfgs|
    ensures [Wr(4, 0xC0), Wr(5, 0), Wr(6, length % 256), Wr(7, length / 256)] <= TransmitCycles(length, busy, cfgs, last, wire)
  {
    assert CommandCycles(length) == [Wr(4, 0xC0), Wr(5, 0), Wr(6, length % 256), Wr(7, length / 256)];
    Associate(CommandCycles(length), BidCycles(busy, cfgs, last), FrameOut(wire));
  }

  // From the pins to the packet: on a chain of this shape the chip sends the
  // chain's bytes, whatever they are, exactly when the shape is aligned.
  ghost predicate SendsItself(s: State, lens: seq<nat>, busy: seq<word>, cfgs: seq<word>, last: word)
    requires |busy| == |cfgs| && Sum(lens) < 0x1_0000
  {
    forall padded, segs :: Sized(segs, lens) && Pads(padded, segs) ==>
      TxFrame(After(s, TransmitCycles(Sum(lens), busy, cfgs, last, Flatten(padded)))) == Flatten(segs)
  }

  lemma FrameSent(s: State, lens: seq<nat>, busy: seq<word>, cfgs: seq<word>, last: word,
                  padded: seq<seq<byte>>, segs: seq<seq<byte>>)
    requires |busy| == |cfgs| && Sum(lens) < 0x1_0000
    requires Sized(segs, lens) && Pads(padded, segs)
    ensures TxFrame(After(s, TransmitCycles(Sum(lens), busy, cfgs, last, Flatten(padded)))) == Flatten(segs) <==>
            Flatten(segs) <= Flatten(padded)
  {
    PaddedLength(padded, lens);
    SumWithinSumEven(lens);
    FlattenLength(segs, lens);
    AfterTransmit(s, Sum(lens), busy, cfgs, last, Flatten(padded));
  }

  lemma TransmitRefines(s: State, lens: seq<nat>, busy: seq<word>, cfgs: seq<word>, last: word)
    requires |busy| == |cfgs| && Sum(lens) < 0x1_0000
    ensures SendsItself(s, lens, busy, cfgs, last) <==> Aligned(lens)
  {
    PumpSendsExactlyWhenAligned(lens);
    forall padded, segs | Sized(segs, lens) && Pads(padded, segs)
      ensures TxFrame(After(s, TransmitCycles(Sum(lens), busy, cfgs, last, Flatten(padded)))) == Flatten(segs) <==>
              Flatten(segs) <= Flatten(padded)
    {
      FrameSent(s, lens, busy, cfgs, last, padded, segs);
    }
  }

  // The same for one chain and the whole log, whatever state the chip was in.
  lemma TransmitShows(before: seq<Cycle>, length: word, busy: seq<word>, cfgs: seq<word>, last: word,
                      padded: seq<seq<byte>>, segs: seq<seq<byte>>, lens: seq<nat>)
    requires |busy| == |cfgs| && length == Sum(lens)
    requires Sized(segs, lens) && Pads(padded, segs)
    ensures var log := before + TransmitCycles(length, busy, cfgs, last, Flatten(padded));
            forall s :: After(s, log).tx == Flatten(padded) && (Aligned(lens) ==> TxFrame(After(s, log)) == Flatten(segs))
  {
    PaddedLength(padded, lens);
    SumWithinSumEven(lens);
    var cycles := TransmitCycles(length, busy, cfgs, last, Flatten(padded));
    forall s
      ensures After(s, before + cycles).tx == Flatten(padded)
      ensures Aligned(lens) ==> TxFrame(After(s, before + cycles)) == Flatten(segs)
    {
      AfterConcat(s, before, cycles);
      AfterTransmit(After(s, before), length, busy, cfgs, last, Flatten(padded));
      if Aligned(lens) {
        AlignedSends(padded, segs, lens);
        FrameSent(After(s, before), lens, busy, cfgs, last, padded, segs);
      }
    }
  }

  lemma RefusalShows(before: seq<Cycle>, length: word, busy: seq<word>, cfgs: seq<word>, last: word)
    requires |busy| == |cfgs|
    ensures forall s :: After(s, before + TransmitCycles(length, busy, cfgs, last, [])).tx == []
  {
    forall s
      ensures After(s, before + TransmitCycles(length, busy, cfgs, last, [])).tx == []
    {
      AfterConcat(s, before, TransmitCycles(length, busy, cfgs, last, []));
      AfterTransmit(After(s, before), length, busy, cfgs, last, []);
    }
  }

  // ---- the retry loop ----

  function WordBytes(values: seq<word>): seq<byte> {
    if values == [] then []
    else WordBytes(values[..|values| - 1]) + [Lo(values[|values| - 1]), Hi(values[|values| - 1])]
  }

  function Skipping(cfgs: seq<word>): seq<word> {
    seq(|cfgs|, i requires 0 <= i < |cfgs| => Or(cfgs[i], SKIP_1))
  }

  lemma TrafficSkip(s: State, cfg: word, at: word)
    ensures ReadAt(s, SkipCycles(cfg), at) == if at == 0x0102 then [Lo(cfg), Hi(cfg)] else []
    ensures WrittenAt(s, SkipCycles(cfg), at) ==
            if at == 0x0102 then [Lo(Or(cfg, SKIP_1)), Hi(Or(cfg, SKIP_1))] else []
  {
    var value := Or(cfg, SKIP_1);
    TrafficConcat(s, Peek(PP_RxCFG, cfg), WriteCycles(DATA_PORT, value), at);
    TrafficPeek(s, PP_RxCFG, cfg, at);
    AfterPeek(s, PP_RxCFG, cfg);
    TrafficData(s.(pointer := PP_RxCFG), value, at);
  }

  lemma AttemptNext(s: State, head: seq<Cycle>, status: word, cfg: word, at: word)
    ensures ReadAt(s, head + Peek(PP_BusST, status) + SkipCycles(cfg), at) ==
            ReadAt(s, head, at) +
            if at == 0x0138 then [Lo(status), Hi(status)] else if at == 0x0102 then [Lo(cfg), Hi(cfg)] else []
    ensures WrittenAt(s, head + Peek(PP_BusST, status) + SkipCycles(cfg), at) ==
            WrittenAt(s, head, at) + if at == 0x0102 then [Lo(Or(cfg, SKIP_1)), Hi(Or(cfg, SKIP_1))] else []
  {
    TrafficPeek(After(s, head), PP_BusST, status, at);
    TrafficSkip(After(s, head + Peek(PP_BusST, status)), cfg, at);
    TrafficThree(s, head, Peek(PP_BusST, status), SkipCycles(cfg), at);
  }

  lemma TrafficTwo(s: State, a: seq<Cycle>, b: seq<Cycle>, at: word)
    ensures ReadAt(s, a, at) == [] ==> ReadAt(s, a + b, at) == ReadAt(After(s, a), b, at)
    ensures ReadAt(After(s, a), b, at) == [] ==> ReadAt(s, a + b, at) == ReadAt(s, a, at)
    ensures WrittenAt(s, a, at) == [] ==> WrittenAt(s, a + b, at) == WrittenAt(After(s, a), b, at)
    ensures WrittenAt(After(s, a), b, at) == [] ==> WrittenAt(s, a + b, at) == WrittenAt(s, a, at)
  {
    TrafficConcat(s, a, b, at);
    Collapse([], ReadAt(s, a, at), ReadAt(After(s, a), b, at));
    Collapse([], WrittenAt(s, a, at), WrittenAt(After(s, a), b, at));
  }

  lemma TrafficThree(s: State, a: seq<Cycle>, b: seq<Cycle>, c: seq<Cycle>, at: word)
    ensures var rb, rc := ReadAt(After(s, a), b, at), ReadAt(After(s, a + b), c, at);
            && (rb == [] ==> ReadAt(s, a + b + c, at) == ReadAt(s, a, at) + rc)
            && (rc == [] ==> ReadAt(s, a + b + c, at) == ReadAt(s, a, at) + rb)
    ensures var wb, wc := WrittenAt(After(s, a), b, at), WrittenAt(After(s, a + b), c, at);
            && (wb == [] ==> WrittenAt(s, a + b + c, at) == WrittenAt(s, a, at) + wc)
            && (wc == [] ==> WrittenAt(s, a + b + c, at) == WrittenAt(s, a, at) + wb)
  {
    TrafficConcat(s, a, b, at);
    TrafficConcat(s, a + b, c, at);
    Collapse(ReadAt(s, a, at), ReadAt(After(s, a), b, at), ReadAt(After(s, a + b), c, at));
    Collapse(WrittenAt(s, a, at), WrittenAt(After(s, a), b, at), WrittenAt(After(s, a + b), c, at));
  }

  lemma Collapse<T>(x: seq<T>, y: seq<T>, z: seq<T>)
    ensures y == [] ==> x + y + z == x + z
    ensures z == [] ==> x + y + z == x + y
  {
    assert x + [] == x && [] + z == z && [] + y == y;
  }

  // Register by register: every status word was read with the pointer at BusST
  // (0x0138), every skip read and written with it at RxCFG (0x0102), in spite of
  // each moving the pointer away from the other, and no other register is
  // touched.
  lemma {:induction false} AttemptTraffic(s: State, busy: seq<word>, cfgs: seq<word>, at: word)
    requires |busy| == |cfgs|
    ensures ReadAt(s, Attempts(busy, cfgs), at) ==
            if at == 0x0138 then WordBytes(busy) else if at == 0x0102 then WordBytes(cfgs) else []
    ensures WrittenAt(s, Attempts(busy, cfgs), at) == if at == 0x0102 then WordBytes(Skipping(cfgs)) else []
  {
    if busy != [] {
      var n := |busy| - 1;
      AttemptTraffic(s, busy[..n], cfgs[..n], at);
      SkippingNext(cfgs);
      AttemptNext(s, Attempts(busy[..n], cfgs[..n]), busy[n], cfgs[n], at);
    }
  }

  lemma SkippingNext(cfgs: seq<word>)
    requires cfgs != []
    ensures var n := |cfgs| - 1;
            WordBytes(Skipping(cfgs)) == WordBytes(Skipping(cfgs[..n])) + [Lo(Or(cfgs[n], SKIP_1)), Hi(Or(cfgs[n], SKIP_1))]
  {
    assert Skipping(cfgs)[..|cfgs| - 1] == Skipping(cfgs[..|cfgs| - 1]);
  }

  lemma BidTraffic(s: State, busy: seq<word>, cfgs: seq<word>, last: word, at: word)
    requires |busy| == |cfgs|
    ensures ReadAt(s, BidCycles(busy, cfgs, last), at) ==
            if at == 0x0138 then WordBytes(busy + [last]) else if at == 0x0102 then WordBytes(cfgs) else []
    ensures WrittenAt(s, BidCycles(busy, cfgs, last), at) == if at == 0x0102 then WordBytes(Skipping(cfgs)) else []
  {
    AttemptTraffic(s, busy, cfgs, at);
    PollNext(s, Attempts(busy, cfgs), last, at);
    WordBytesNext(busy, last);
  }

  lemma PollNext(s: State, head: seq<Cycle>, last: word, at: word)
    ensures ReadAt(s, head + Peek(PP_BusST, last), at) ==
            if at == 0x0138 then ReadAt(s, head, at) + [Lo(last), Hi(last)] else ReadAt(s, head, at)
    ensures WrittenAt(s, head + Peek(PP_BusST, last), at) == WrittenAt(s, head, at)
  {
    TrafficPeek(After(s, head), PP_BusST, last, at);
    TrafficConcat(s, head, Peek(PP_BusST, last), at);
    TrafficTwo(s, head, Peek(PP_BusST, last), at);
  }

  lemma WordBytesNext(values: seq<word>, v: word)
    ensures WordBytes(values + [v]) == WordBytes(values) + [Lo(v), Hi(v)]
  {
    assert (values + [v])[..|values|] == values;
  }

  // The whole of a transmission touches no other register either.
  lemma TransmitTraffic(s: State, length: word, busy: seq<word>, cfgs: seq<word>, last: word, wire: seq<byte>, at: word)
    requires |busy| == |cfgs| && |wire| % 2 == 0
    ensures ReadAt(s, TransmitCycles(length, busy, cfgs, last, wire), at) ==
            if at == 0x0138 then WordBytes(busy + [last]) else if at == 0x0102 then WordBytes(cfgs) else []
    ensures WrittenAt(s, TransmitCycles(length, busy, cfgs, last, wire), at) ==
            if at == 0x0102 then WordBytes(Skipping(cfgs)) else []
    ensures |WordBytes(busy + [last])| == 2 * (|busy| + 1) && |WordBytes(Skipping(cfgs))| == 2 * |busy|
  {
    var command, bid := CommandCycles(length), BidCycles(busy, cfgs, last);
    TrafficElsewhere(s, command, at);
    BidTraffic(After(s, command), busy, cfgs, last, at);
    FrameOutElsewhere(wire);
    TrafficElsewhere(After(s, command + bid), FrameOut(wire), at);
    TrafficThree(s, command, bid, FrameOut(wire), at);
    WordBytesLength(busy + [last]);
    WordBytesLength(Skipping(cfgs));
  }

  lemma FrameOutElsewhere(wire: seq<byte>)
    requires |wire| % 2 == 0
    ensures forall c :: c in FrameOut(wire) ==> c.port != DATA_PORT && c.port != DATA_PORT + 1
  {
    forall i: nat | i < |FrameOut(wire)|
      ensures FrameOut(wire)[i].port < 2
    {
      FrameOutAt(wire, i);
    }
  }

  lemma {:induction false} WordBytesLength(values: seq<word>)
    ensures |WordBytes(values)| == 2 * |values|
  {
    if values != [] {
      WordBytesLength(values[..|values| - 1]);
    }
  }

  // ---- receiving ----

  // A call that reads the header gets status and length of the frame the chip
  // presents, and a call that reads on gets its bytes.
  lemma ReceiveReads(chip: Chip, log: seq<Cycle>, s: State, status: word, length: word, stream: seq<byte>)
    requires Presents(chip, log, s) && Honest(log + RxCycles(status, length, stream), chip) && |stream| % 2 == 0
    ensures status == s.rx.status && length == |s.rx.bytes|
    ensures length <= |stream| ==> s.rx.bytes == stream[..length]
  {
    var taken, got := RxCycles(status, length, stream), Header(status, length) + stream;
    RxCyclesAt(status, length, stream, 0);
    forall i: nat | i < |taken|
      ensures taken[i] == Rd(RxPort(i), got[i])
    {
      RxCyclesAt(status, length, stream, i);
    }
    forall i: nat | i < |got| && i < |Stream(s.rx)|
      ensures got[i] == Stream(s.rx)[i]
    {
      HonestStream(chip, log, s, taken, i);
    }
    SameWords(status, length, s.rx);
    if length <= |stream| {
      forall i: nat | i < length
        ensures stream[i] == s.rx.bytes[i]
      {
        assert got[4 + i] == Stream(s.rx)[4 + i];
      }
    }
  }

  lemma SameWords(status: word, length: word, f: Frame)
    requires |f.bytes| < 0x1_0000
    requires forall i :: 0 <= i < 4 ==> Header(status, length)[i] == Stream(f)[i]
    ensures status == f.status && length == |f.bytes|
  {
    assert Stream(f)[0] == Hi(f.status) && Stream(f)[1] == Lo(f.status);
    assert Stream(f)[2] == Hi(|f.bytes|) && Stream(f)[3] == Lo(|f.bytes|);
    assert Header(status, length)[0] == Hi(status) && Header(status, length)[1] == Lo(status);
    assert Header(status, length)[2] == Hi(length) && Header(status, length)[3] == Lo(length);
    WordsEqual(status, f.status);
    WordsEqual(length, |f.bytes|);
  }

  lemma WordsEqual(v: word, w: word)
    ensures Lo(v) == Lo(w) && Hi(v) == Hi(w) ==> v == w
  {
  }

  // The frame the chip held is what the chain holds, its length the one asked
  // of the allocator, exactly when the segments are a prefix of the stream.
  lemma FrameReceived(chip: Chip, log: seq<Cycle>, r: Reception, lens: seq<nat>, s: State)
    requires r.Received? && Honest(log + ReceiveCycles(r), chip)
    requires |r.stream| == SumEven(lens) && Sum(lens) == r.length
    requires Presents(chip, log + Peek(PP_RxEvent, r.event), s)
    ensures r.status == s.rx.status && r.length == |s.rx.bytes|
    ensures Flatten(Cut(r.stream, lens)) == s.rx.bytes <==> Flatten(Cut(r.stream, lens)) <= r.stream
  {
    SumWithinSumEven(lens);
    FlattenLength(Cut(r.stream, lens), lens);
    ReceivedCycles(log, r);
    ReceiveReads(chip, log + Peek(PP_RxEvent, r.event), s, r.status, r.length, r.stream);
  }

  lemma ReceivedCycles(log: seq<Cycle>, r: Reception)
    requires r.Received?
    ensures log + ReceiveCycles(r) == (log + Peek(PP_RxEvent, r.event)) + RxCycles(r.status, r.length, r.stream)
  {
  }

  lemma ReceiveShows(chip: Chip, log: seq<Cycle>, r: Reception, lens: seq<nat>)
    requires r.Received? && Honest(log + ReceiveCycles(r), chip)
    requires |r.stream| == SumEven(lens) && Sum(lens) == r.length
    ensures forall s :: Presents(chip, log + Peek(PP_RxEvent, r.event), s) ==>
              && r.status == s.rx.status && r.length == |s.rx.bytes|
              && (Aligned(lens) ==> Flatten(Cut(r.stream, lens)) == s.rx.bytes)
  {
    forall s | Presents(chip, log + Peek(PP_RxEvent, r.event), s)
      ensures r.status == s.rx.status && r.length == |s.rx.bytes|
      ensures Aligned(lens) ==> Flatten(Cut(r.stream, lens)) == s.rx.bytes
    {
      FrameReceived(chip, log, r, lens, s);
      if Aligned(lens) {
        AlignedReceives(r.stream, lens);
      }
    }
  }

  // When memory is short the allocator was asked for the frame's own length.
  lemma DropShows(chip: Chip, log: seq<Cycle>, r: Reception)
    requires r.Dropped? && Honest(log + ReceiveCycles(r), chip)
    ensures forall s :: Presents(chip, log + Peek(PP_RxEvent, r.event), s) ==>
              r.status == s.rx.status && r.length == |s.rx.bytes|
  {
    var seen := log + Peek(PP_RxEvent, r.event);
    assert log + ReceiveCycles(r) == seen + RxCycles(r.status, r.length, []) + SkipCycles(r.cfg);
    HonestPrefix(seen + RxCycles(r.status, r.length, []), SkipCycles(r.cfg), chip);
    forall s | Presents(chip, seen, s)
      ensures r.status == s.rx.status && r.length == |s.rx.bytes|
    {
      ReceiveReads(chip, seen, s, r.status, r.length, []);
    }
  }

  // ... and the frame is skipped, the rest of the page being left alone.
  lemma DropSkips(chip: Chip, log: seq<Cycle>, r: Reception)
    requires r.Dropped? && Honest(log + ReceiveCycles(r), chip)
    ensures forall s0 :: SkippedOnly(chip, s0, log, log + ReceiveCycles(r))
  {
    var header := ReceiveHeader(r.event, r.status, r.length);
    Associate(log, header, SkipCycles(r.cfg));
    forall s0
      ensures SkippedOnly(chip, s0, log, log + ReceiveCycles(r))
    {
      SkipShows(chip, s0, log + header, r.cfg);
      AfterConcat(s0, log, header);
      AfterHeader(After(s0, log), r.event, r.status, r.length);
    }
  }

  lemma AfterHeader(s: State, event: word, status: word, length: word)
    ensures After(s, ReceiveHeader(event, status, length)).page == s.page
  {
    var words := ReadHighFirstCycles(FRAME_PORT, status) + ReadHighFirstCycles(FRAME_PORT, length);
    AfterConcat(s, Peek(PP_RxEvent, event), words);
    AfterPeek(s, PP_RxEvent, event);
    ReadsLeavePage(s.(pointer := PP_RxEvent), words);
  }

  lemma {:induction false} ReadsLeavePage(s: State, log: seq<Cycle>)
    requires ReadsOnly(log)
    ensures After(s, log).page == s.page
  {
    if log != [] {
      assert forall c :: c in log[..|log| - 1] ==> c in log;
      ReadsLeavePage(s, log[..|log| - 1]);
      assert log[|log| - 1] in log;
    }
  }

  // Register by register: the event comes from RxEvent (0x0124), and only a
  // dropped frame is skipped.
  lemma ReceiveTraffic(s: State, r: Reception, at: word)
    requires r.Received? ==> |r.stream| % 2 == 0
    ensures ReadAt(s, ReceiveCycles(r), at) ==
            if at == 0x0124 then [Lo(r.event), Hi(r.event)]
            else if at == 0x0102 && r.Dropped? then [Lo(r.cfg), Hi(r.cfg)]
            else []
    ensures WrittenAt(s, ReceiveCycles(r), at) ==
            if at == 0x0102 && r.Dropped? then [Lo(Or(r.cfg, SKIP_1)), Hi(Or(r.cfg, SKIP_1))] else []
  {
    match r
    case Quiet(event) => TrafficPeek(s, PP_RxEvent, event, at);
    case Dropped(event, status, length, cfg) => DroppedTraffic(s, event, status, length, cfg, at);
    case Received(event, status, length, stream) => ReceivedTraffic(s, event, status, length, stream, at);
  }

  lemma DroppedTraffic(s: State, event: word, status: word, length: word, cfg: word, at: word)
    ensures var all := ReceiveHeader(event, status, length) + SkipCycles(cfg);
            && ReadAt(s, all, at) == (if at == 0x0124 then [Lo(event), Hi(event)] else if at == 0x0102 then [Lo(cfg), Hi(cfg)] else [])
            && WrittenAt(s, all, at) == if at == 0x0102 then [Lo(Or(cfg, SKIP_1)), Hi(Or(cfg, SKIP_1))] else []
  {
    var header := ReceiveHeader(event, status, length);
    HeaderTraffic(s, event, status, length, at);
    TrafficSkip(After(s, header), cfg, at);
    TrafficTwo(s, header, SkipCycles(cfg), at);
  }

  lemma ReceivedTraffic(s: State, event: word, status: word, length: word, stream: seq<byte>, at: word)
    requires |stream| % 2 == 0
    ensures var all := ReceiveHeader(event, status, length) + FrameIn(stream);
            && ReadAt(s, all, at) == (if at == 0x0124 then [Lo(event), Hi(event)] else [])
            && WrittenAt(s, all, at) == []
  {
    var header := ReceiveHeader(event, status, length);
    HeaderTraffic(s, event, status, length, at);
    FrameInElsewhere(stream);
    TrafficElsewhere(After(s, header), FrameIn(stream), at);
    TrafficTwo(s, header, FrameIn(stream), at);
  }

  lemma HeaderTraffic(s: State, event: word, status: word, length: word, at: word)
    ensures ReadAt(s, ReceiveHeader(event, status, length), at) == if at == 0x0124 then [Lo(event), Hi(event)] else []
    ensures WrittenAt(s, ReceiveHeader(event, status, length), at) == []
  {
    var words := ReadHighFirstCycles(FRAME_PORT, status) + ReadHighFirstCycles(FRAME_PORT, length);
    TrafficPeek(s, PP_RxEvent, event, at);
    TrafficElsewhere(After(s, Peek(PP_RxEvent, event)), words, at);
    TrafficTwo(s, Peek(PP_RxEvent, event), words, at);
  }

  lemma FrameInElsewhere(stream: seq<byte>)
    requires |stream| % 2 == 0
    ensures forall c :: c in FrameIn(stream) ==> c.port != DATA_PORT && c.port != DATA_PORT + 1
  {
    forall i: nat | i < |FrameIn(stream)|
      ensures FrameIn(stream)[i].port < 2
    {
      FrameInAt(stream, i);
    }
  }

  // From the packet to the pins and back: a chain of this shape gets every
  // frame of its length as it was received, from whatever chip, exactly when
  // the shape is aligned.
  ghost predicate Receives(lens: seq<nat>, chip: Chip, log: seq<Cycle>, r: Reception, s: State) {
    && r.Received? && FrameWaits(r.event) && Honest(log + ReceiveCycles(r), chip)
    && |r.stream| == SumEven(lens) && r.length == Sum(lens)
    && Presents(chip, log + Peek(PP_RxEvent, r.event), s)
  }

  ghost predicate ReceivesItself(lens: seq<nat>) {
    forall chip: Chip, log: seq<Cycle>, r: Reception, s: State ::
      Receives(lens, chip, log, r, s) ==> Flatten(Cut(r.stream, lens)) == s.rx.bytes
  }

  lemma ReceiveRefines(lens: seq<nat>)
    requires Sum(lens) < 0x1_0000
    ensures ReceivesItself(lens) <==> Aligned(lens)
  {
    if Aligned(lens) {
      forall chip: Chip, log: seq<Cycle>, r: Reception, s: State | Receives(lens, chip, log, r, s)
        ensures Flatten(Cut(r.stream, lens)) == s.rx.bytes
      {
        ReceiveShows(chip, log, r, lens);
      }
    } else {
      var chip, r, s := Misreceived(lens);
      assert Receives(lens, chip, [], r, s);
    }
  }

  lemma Misreceived(lens: seq<nat>) returns (chip: Chip, r: Reception, s: State)
    requires Sum(lens) < 0x1_0000 && !Aligned(lens)
    ensures Receives(lens, chip, [], r, s) && Flatten(Cut(r.stream, lens)) != s.rx.bytes
  {
    var stream := MisalignedStream(lens);
    SumWithinSumEven(lens);
    r := Received(WAITING, 0, Sum(lens), stream);
    chip := ChipWith(Header(0, Sum(lens)) + stream);
    s := State(0, map[], 0, 0, [], Frame(0, stream[..Sum(lens)]), 0);
    ChipWithIsHonest(r);
    ChipWithPresents(stream, s);
    WaitingWaits();
    assert [] + Peek(PP_RxEvent, WAITING) == Peek(PP_RxEvent, WAITING);
  }

  // A chip whose RxEvent says that a frame waits, and whose frame port gives
  // these bytes.
  const WAITING: word := 0x0100

  lemma WaitingWaits()
    ensures FrameWaits(WAITING)
  {
    assert BitAnd(1, 13) != 0;
    assert BitAnd(4, 52) != 0;
    assert BitAnd(16, 208) != 0;
    assert BitAnd(64, 832) != 0;
    assert BitAnd(256, 3328) != 0;
  }

  function ChipWith(bytes: seq<byte>): Chip {
    (log: seq<Cycle>, port: nat) =>
      if port == DATA_PORT then 0
      else if port == DATA_PORT + 1 then 1
      else if FrameReads(log) < |bytes| then bytes[FrameReads(log)]
      else 0
  }

  function FrameReads(log: seq<Cycle>): nat {
    if log == [] then 0
    else
      var c := log[|log| - 1];
      FrameReads(log[..|log| - 1]) + if c.Rd? && (c.port == FRAME_PORT || c.port == FRAME_PORT + 1) then 1 else 0
  }

  lemma {:induction false} CursorCounts(s: State, log: seq<Cycle>)
    ensures After(s, log).cursor == s.cursor + FrameReads(log)
  {
    if log != [] {
      CursorCounts(s, log[..|log| - 1]);
    }
  }

  lemma ReadsAfterPeek(s: State, more: seq<Cycle>)
    ensures FrameReads(Peek(PP_RxEvent, WAITING) + more) == FrameReads(more)
  {
    AfterConcat(s, Peek(PP_RxEvent, WAITING), more);
    AfterPeek(s, PP_RxEvent, WAITING);
    CursorCounts(s, Peek(PP_RxEvent, WAITING) + more);
    CursorCounts(s.(pointer := PP_RxEvent), more);
  }

  lemma ChipWithPresents(stream: seq<byte>, s: State)
    requires |s.rx.bytes| < 0x1_0000 && s.rx.status == 0 && s.cursor == 0 && s.rx.bytes <= stream
    ensures Presents(ChipWith(Header(0, |s.rx.bytes|) + stream), Peek(PP_RxEvent, WAITING), s)
  {
    var bytes := Header(0, |s.rx.bytes|) + stream;
    forall more | ReadsOnly(more) && After(s, more).cursor < |Stream(s.rx)|
      ensures ChipWith(bytes)(Peek(PP_RxEvent, WAITING) + more, RxPort(After(s, more).cursor)) == Stream(s.rx)[After(s, more).cursor]
    {
      CursorCounts(s, more);
      ReadsAfterPeek(s, more);
    }
  }

  lemma ChipWithIsHonest(r: Reception)
    requires r.Received? && r.event == WAITING && |r.stream| % 2 == 0
    ensures Honest([] + ReceiveCycles(r), ChipWith(Header(r.status, r.length) + r.stream))
  {
    var peek, taken := Peek(PP_RxEvent, WAITING), RxCycles(r.status, r.length, r.stream);
    var chip := ChipWith(Header(r.status, r.length) + r.stream);
    ReceivedCycles([], r);
    var all := peek + taken;
    assert [] + peek == peek;
    assert all[2] == Rd(DATA_PORT, 0) && all[3] == Rd(DATA_PORT + 1, 1) && all[0].Wr? && all[1].Wr?;
    forall i | 4 <= i < |all|
      ensures all[i].val == chip(all[..i], all[i].port)
    {
      TakenIsGiven(r, taken, i - 4);
      assert all[..i] == peek + taken[..i - 4] && all[i] == taken[i - 4];
    }
  }

  lemma TakenIsGiven(r: Reception, taken: seq<Cycle>, i: nat)
    requires r.Received? && |r.stream| % 2 == 0 && taken == RxCycles(r.status, r.length, r.stream) && i < |taken|
    ensures var chip := ChipWith(Header(r.status, r.length) + r.stream);
            taken[i].val == chip(Peek(PP_RxEvent, WAITING) + taken[..i], taken[i].port)
  {
    RxCyclesAt(r.status, r.length, r.stream, i);
    TakenBefore(r, taken, i);
  }

  lemma TakenBefore(r: Reception, taken: seq<Cycle>, i: nat)
    requires r.Received? && |r.stream| % 2 == 0 && taken == RxCycles(r.status, r.length, r.stream) && i <= |taken|
    ensures FrameReads(Peek(PP_RxEvent, WAITING) + taken[..i]) == i
  {
    var s := State(0, map[], 0, 0, [], Frame(0, []), 0);
    forall k: nat | k < i
      ensures taken[k].Rd? && taken[k].port == RxPort(k)
    {
      RxCyclesAt(r.status, r.length, r.stream, k);
    }
    CursorAfter(s, taken[..i]);
    CursorCounts(s, taken[..i]);
    ReadsAfterPeek(s, taken[..i]);
  }

  // The 16-bit index of the receive loop gets past the end of a segment
  // exactly when the segment is shorter than 65535 bytes.
  lemma ReceiveIndexEnds(len: word)
    ensures (exists turns: nat :: (2 * turns) % 0x1_0000 >= len) <==> len < 0xffff
  {
    if len < 0xffff {
      var turns := (len + 1) / 2;
      assert (2 * turns) % 0x1_0000 >= len;
    }
  }
}
