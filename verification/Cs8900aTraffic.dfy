// The bus traffic of each driver call of netif/cs8900a_lpc_e2129.c, as values.
module Cs8900aTraffic {
  import opened Bytes
  import opened Cs8900aBus
  import opened Cs8900aChip
  import opened PbufChain

  datatype Err = ERR_OK | ERR_IF

  const HWADDR: seq<byte> := [0x00, 0xbd, 0x03, 0x04, 0x05, 0x07]

  // InitSeq: line control on, hash filter open, receiver control.
  function InitSeq(): seq<Setting> {
    [Setting(PP_LineCTL, 0x00C0),
     Setting(PP_LAF, 0xffff), Setting(PP_LAF + 2, 0xffff), Setting(PP_LAF + 4, 0xffff), Setting(PP_LAF + 6, 0xffff),
     Setting(PP_RxCTL, 0x0F00)]
  }

  function StationAddress(hwaddr: seq<byte>): seq<Setting>
    requires |hwaddr| == 6
  {
    [Setting(PP_IA, Word(hwaddr[0], hwaddr[1])),
     Setting(PP_IA + 2, Word(hwaddr[2], hwaddr[3])),
     Setting(PP_IA + 4, Word(hwaddr[4], hwaddr[5]))]
  }

  // ---- the bus traffic of each call ----

  function Or(a: word, b: word): word {
    Pow2Word();
    BitOrFits(a, b, 16);
    BitOr(a, b)
  }

  function SkipCycles(cfg: word): seq<Cycle> {
    Peek(PP_RxCFG, cfg) + WriteCycles(DATA_PORT, Or(cfg, SKIP_1))
  }

  function Reads(values: seq<word>): seq<Cycle> {
    if values == [] then [] else Reads(values[..|values| - 1]) + ReadCycles(DATA_PORT, values[|values| - 1])
  }

  function ResetCycles(): seq<Cycle> {
    Poke(PP_SelfCTL, POWER_ON_RESET) + WriteCycles(ADD_PORT, PP_SelfST)
  }

  function InitCycles(waits: seq<word>, hwaddr: seq<byte>): seq<Cycle>
    requires |hwaddr| == 6
  {
    ResetCycles() + Reads(waits) + Pokes(StationAddress(hwaddr)) + Pokes(InitSeq())
  }

  // Bus status found busy, a received frame skipped, over again.
  function Attempts(busy: seq<word>, cfgs: seq<word>): seq<Cycle>
    requires |busy| == |cfgs|
  {
    if busy == [] then []
    else
      var n := |busy| - 1;
      Attempts(busy[..n], cfgs[..n]) + Peek(PP_BusST, busy[n]) + SkipCycles(cfgs[n])
  }

  function CommandCycles(length: word): seq<Cycle> {
    WriteCycles(TX_CMD_PORT, TX_START_ALL_BYTES) + WriteCycles(TX_LEN_PORT, length)
  }

  function BidCycles(busy: seq<word>, cfgs: seq<word>, last: word): seq<Cycle>
    requires |busy| == |cfgs|
  {
    Attempts(busy, cfgs) + Peek(PP_BusST, last)
  }

  function TransmitCycles(length: word, busy: seq<word>, cfgs: seq<word>, last: word, wire: seq<byte>): seq<Cycle>
    requires |busy| == |cfgs|
  {
    CommandCycles(length) + BidCycles(busy, cfgs, last) + FrameOut(wire)
  }

  function ReceiveHeader(event: word, status: word, length: word): seq<Cycle> {
    Peek(PP_RxEvent, event) + (ReadHighFirstCycles(FRAME_PORT, status) + ReadHighFirstCycles(FRAME_PORT, length))
  }

  // What a call to lowLevelInput does on the bus.
  datatype Reception =
    | Quiet(event: word)
    | Dropped(event: word, status: word, length: word, cfg: word)
    | Received(event: word, status: word, length: word, stream: seq<byte>)

  function ReceiveCycles(r: Reception): seq<Cycle> {
    match r
    case Quiet(event) => Peek(PP_RxEvent, event)
    case Dropped(event, status, length, cfg) => ReceiveHeader(event, status, length) + SkipCycles(cfg)
    case Received(event, status, length, stream) => ReceiveHeader(event, status, length) + FrameIn(stream)
  }

  // The 16-bit index of the receive loop cannot pass a longer segment.
  ghost predicate Indexable(plan: Plan) {
    forall n :: plan(n).Some? ==> forall i :: 0 <= i < |plan(n).value| ==> plan(n).value[i] < 0xffff
  }

  predicate ReadyForTx(status: word) { BitAnd(status, READY_FOR_TX_NOW) != 0 }

  predicate InitDone(status: word) { BitAnd(status, INIT_DONE) != 0 }

  predicate FrameWaits(event: word) { BitAnd(event, 0xd00) != 0 }

  // What the driver asks of a status word, by its bits.
  lemma StatusLines(status: word)
    ensures ReadyForTx(status) <==> 8 in LinesOf(status, 0)
    ensures InitDone(status) <==> 7 in LinesOf(status, 0)
    ensures FrameWaits(status) <==> 8 in LinesOf(status, 0) || 10 in LinesOf(status, 0) || 11 in LinesOf(status, 0)
  {
    MaskFinds(status, READY_FOR_TX_NOW);
    MaskFinds(status, INIT_DONE);
    MaskFinds(status, 0xd00);
    MaskLines();
  }

  lemma StatusBits()
    ensures forall status: word :: ReadyForTx(status) <==> 8 in LinesOf(status, 0)
    ensures forall status: word :: InitDone(status) <==> 7 in LinesOf(status, 0)
  {
    forall status: word
      ensures ReadyForTx(status) <==> 8 in LinesOf(status, 0)
      ensures InitDone(status) <==> 7 in LinesOf(status, 0)
    {
      StatusLines(status);
    }
  }

  lemma MaskLines()
    ensures LinesOf(READY_FOR_TX_NOW, 0) == {8} && LinesOf(INIT_DONE, 0) == {7} && LinesOf(SKIP_1, 0) == {6}
    ensures LinesOf(0xd00, 0) == {8, 10, 11}
  {
    assert Pow2(6) == 64 && Pow2(7) == 128 && Pow2(8) == 256;
    LinesShift(1, 6, 0);
    LinesShift(1, 7, 0);
    LinesShift(1, 8, 0);
    LinesShift(13, 8, 0);
    LowLines();
  }

  lemma LowLines()
    ensures forall base: nat :: LinesOf(1, base) == {base}
    ensures LinesOf(13, 8) == {8, 10, 11}
  {
    assert forall base: nat :: LinesOf(0, base) == {};
    assert LinesOf(1, 11) == {11} && LinesOf(3, 10) == {10, 11} && LinesOf(6, 9) == {10, 11};
  }

  // ---- the chip's reset ----

  function Answer(chip: Chip, log: seq<Cycle>): word {
    var lo := chip(log, DATA_PORT);
    Word(lo, chip(log + [Rd(DATA_PORT, lo)], DATA_PORT + 1))
  }

  function Reread(chip: Chip, log: seq<Cycle>): seq<Cycle> {
    log + ReadCycles(DATA_PORT, Answer(chip, log))
  }

  // Reading DATA_PORT over and over from here, INIT_DONE shows up within n
  // further reads.
  ghost predicate ResetsWithin(chip: Chip, log: seq<Cycle>, n: nat)
    decreases n
  {
    InitDone(Answer(chip, log)) || (n > 0 && ResetsWithin(chip, Reread(chip, log), n - 1))
  }

  lemma HonestAnswer(chip: Chip, log: seq<Cycle>, v: word)
    requires Honest(log + ReadCycles(DATA_PORT, v), chip)
    ensures v == Answer(chip, log)
  {
    var all := log + ReadCycles(DATA_PORT, v);
    assert all[|log|] == Rd(DATA_PORT, Lo(v)) && all[..|log|] == log;
    assert all[|log| + 1] == Rd(DATA_PORT + 1, Hi(v)) && all[..|log| + 1] == log + [Rd(DATA_PORT, Lo(v))];
  }

  // One turn of the pumps: two more bytes of a segment, after what was pumped
  // before the segment.
  lemma PumpedOut(log: seq<Cycle>, done: seq<byte>, seg: seq<byte>, u: nat)
    requires u + 1 < |seg|
    ensures log + FrameOut(done + seg[..u]) + PairOut(FRAME_PORT, seg[u], seg[u + 1]) ==
            log + FrameOut(done + seg[..u + 2])
  {
    var all := done + seg[..u + 2];
    assert all[..|all| - 2] == done + seg[..u];
  }

  lemma PumpedIn(log: seq<Cycle>, done: seq<byte>, seg: seq<byte>, a: byte, b: byte)
    ensures log + FrameIn(done + seg) + PairIn(FRAME_PORT, a, b) == log + FrameIn(done + (seg + [a, b]))
  {
    var all := done + (seg + [a, b]);
    assert all[..|all| - 2] == done + seg;
  }

  lemma Regroup<T>(a: seq<T>, b: seq<T>, c: seq<T>, d: seq<T>, e: seq<T>)
    ensures a + b + c + d + e == a + (b + c + d + e)
  {
  }
}
