// What the bus cycles mean to the chip: a PacketPage pointer and a register
// file behind ADD_PORT and DATA_PORT, a transmit command and length, and a
// frame port with a frame on its way out and one on its way in.  In 8-bit mode
// every register is a pair of byte ports.
module Cs8900aChip {
  import opened Bytes
  import opened Cs8900aBus

  // I/O ports and PacketPage registers of include/netif/cs8900a_regs.h.
  const FRAME_PORT := 0x0
  const TX_CMD_PORT := 0x4
  const TX_LEN_PORT := 0x6
  const ADD_PORT := 0xA
  const DATA_PORT := 0xC

  const PP_RxCFG: word := 0x0102
  const PP_RxCTL: word := 0x0104
  const PP_LineCTL: word := 0x0112
  const PP_SelfCTL: word := 0x0114
  const PP_RxEvent: word := 0x0124
  const PP_SelfST: word := 0x0136
  const PP_BusST: word := 0x0138
  const PP_LAF: word := 0x0150
  const PP_IA: word := 0x0158

  const SKIP_1: word := 0x0040
  const POWER_ON_RESET: word := 0x0040
  const INIT_DONE: word := 0x0080
  const READY_FOR_TX_NOW: word := 0x0100
  const TX_START_ALL_BYTES: word := 0x00C0

  // A frame the chip has received.
  datatype Frame = Frame(status: word, bytes: seq<byte>)

  // `rx` is the received frame behind the frame port and `cursor` how many
  // bytes of it, header included, have been read.
  datatype State = State(
    pointer: word,
    page: map<int, byte>,
    command: word,
    length: word,
    tx: seq<byte>,
    rx: Frame,
    cursor: nat)

  function SetLo(w: word, v: byte): word { Word(v, Hi(w)) }

  function SetHi(w: word, v: byte): word { Word(Lo(w), v) }

  // A transmit command opens a new frame; each byte written to either half of
  // the frame port joins it.  Each byte read there moves the cursor on.
  function Step(s: State, c: Cycle): State {
    match c
    case Rd(port, _) => if port == FRAME_PORT || port == FRAME_PORT + 1 then s.(cursor := s.cursor + 1) else s
    case Wr(port, v) =>
      if port == ADD_PORT then s.(pointer := SetLo(s.pointer, v))
      else if port == ADD_PORT + 1 then s.(pointer := SetHi(s.pointer, v))
      else if port == DATA_PORT then s.(page := s.page[s.pointer := v])
      else if port == DATA_PORT + 1 then s.(page := s.page[s.pointer + 1 := v])
      else if port == TX_CMD_PORT then s.(command := SetLo(s.command, v), tx := [])
      else if port == TX_CMD_PORT + 1 then s.(command := SetHi(s.command, v), tx := [])
      else if port == TX_LEN_PORT then s.(length := SetLo(s.length, v))
      else if port == TX_LEN_PORT + 1 then s.(length := SetHi(s.length, v))
      else if port == FRAME_PORT || port == FRAME_PORT + 1 then s.(tx := s.tx + [v])
      else s
  }

  function After(s: State, log: seq<Cycle>): State {
    if log == [] then s else Step(After(s, log[..|log| - 1]), log[|log| - 1])
  }

  function ByteAt(s: State, at: int): byte { if at in s.page then s.page[at] else 0 }

  function Register(s: State, at: int): word { Word(ByteAt(s, at), ByteAt(s, at + 1)) }

  // The frame the chip puts on the wire.
  function TxFrame(s: State): seq<byte> { s.tx[..Min(s.length, |s.tx|)] }

  lemma {:induction false} AfterConcat(s: State, a: seq<Cycle>, b: seq<Cycle>)
    ensures After(s, a + b) == After(After(s, a), b)
  {
    if b == [] {
      assert a + b == a;
    } else {
      AfterConcat(s, a, b[..|b| - 1]);
      assert (a + b)[..|a + b| - 1] == a + b[..|b| - 1];
    }
  }

  lemma AfterTwo(s: State, c: Cycle, d: Cycle)
    ensures After(s, [c, d]) == Step(Step(s, c), d)
  {
    assert [c, d][..1] == [c] && [c][..0] == [];
    assert After(s, [c]) == Step(s, c);
  }

  // ---- words ----

  lemma AfterPointer(s: State, at: word)
    ensures After(s, WriteCycles(ADD_PORT, at)) == s.(pointer := at)
  {
    AfterTwo(s, Wr(ADD_PORT, Lo(at)), Wr(ADD_PORT + 1, Hi(at)));
  }

  lemma AfterData(s: State, v: word)
    ensures After(s, WriteCycles(DATA_PORT, v)) == s.(page := s.page[s.pointer := Lo(v)][s.pointer + 1 := Hi(v)])
  {
    AfterTwo(s, Wr(DATA_PORT, Lo(v)), Wr(DATA_PORT + 1, Hi(v)));
  }

  lemma AfterCommand(s: State, v: word)
    ensures After(s, WriteCycles(TX_CMD_PORT, v)) == s.(command := v, tx := [])
  {
    AfterTwo(s, Wr(TX_CMD_PORT, Lo(v)), Wr(TX_CMD_PORT + 1, Hi(v)));
  }

  lemma AfterLength(s: State, v: word)
    ensures After(s, WriteCycles(TX_LEN_PORT, v)) == s.(length := v)
  {
    AfterTwo(s, Wr(TX_LEN_PORT, Lo(v)), Wr(TX_LEN_PORT + 1, Hi(v)));
  }

  lemma AfterRead(s: State, port: nat, v: word)
    requires port > FRAME_PORT + 1
    ensures After(s, ReadCycles(port, v)) == s
  {
    AfterTwo(s, Rd(port, Lo(v)), Rd(port + 1, Hi(v)));
  }

  // ---- registers ----

  function Poke(at: word, v: word): seq<Cycle> {
    WriteCycles(ADD_PORT, at) + WriteCycles(DATA_PORT, v)
  }

  function Peek(at: word, v: word): seq<Cycle> {
    WriteCycles(ADD_PORT, at) + ReadCycles(DATA_PORT, v)
  }

  lemma AfterPoke(s: State, at: word, v: word)
    ensures After(s, Poke(at, v)) == s.(pointer := at, page := s.page[at := Lo(v)][at + 1 := Hi(v)])
  {
    AfterConcat(s, WriteCycles(ADD_PORT, at), WriteCycles(DATA_PORT, v));
    AfterPointer(s, at);
    AfterData(s.(pointer := at), v);
  }

  lemma AfterPeek(s: State, at: word, v: word)
    ensures After(s, Peek(at, v)) == s.(pointer := at)
  {
    AfterConcat(s, WriteCycles(ADD_PORT, at), ReadCycles(DATA_PORT, v));
    AfterPointer(s, at);
    AfterRead(s.(pointer := at), DATA_PORT, v);
  }

  // One register write changes that register and no other.
  lemma PokeRegister(s: State, at: word, v: word, other: word)
    requires other == at || other + 1 < at || at + 1 < other
    ensures Register(After(s, Poke(at, v)), other) == if other == at then v else Register(s, other)
  {
    AfterPoke(s, at, v);
  }

  datatype Setting = Setting(at: word, value: word)

  function Pokes(settings: seq<Setting>): seq<Cycle> {
    if settings == [] then []
    else Pokes(settings[..|settings| - 1]) + Poke(settings[|settings| - 1].at, settings[|settings| - 1].value)
  }

  // No two settings touch the same byte of the page.
  predicate Disjoint(settings: seq<Setting>) {
    forall i, j :: 0 <= i < j < |settings| ==>
      settings[i].at + 1 < settings[j].at || settings[j].at + 1 < settings[i].at
  }

  // The pointer and data ports act as a register map: a run of settings leaves
  // every byte outside them alone ...
  lemma {:induction false} PokesLeave(s: State, settings: seq<Setting>, at: int)
    requires forall i :: 0 <= i < |settings| ==> at != settings[i].at && at != settings[i].at + 1
    ensures ByteAt(After(s, Pokes(settings)), at) == ByteAt(s, at)
    ensures After(s, Pokes(settings)).tx == s.tx
  {
    if settings != [] {
      var rest, last := settings[..|settings| - 1], settings[|settings| - 1];
      PokesLeave(s, rest, at);
      AfterConcat(s, Pokes(rest), Poke(last.at, last.value));
      AfterPoke(After(s, Pokes(rest)), last.at, last.value);
    }
  }

  // ... and every one of them in place.
  lemma {:induction false} PokesStay(s: State, settings: seq<Setting>, i: nat)
    requires Disjoint(settings) && i < |settings|
    ensures Register(After(s, Pokes(settings)), settings[i].at) == settings[i].value
  {
    var rest, last := settings[..|settings| - 1], settings[|settings| - 1];
    AfterConcat(s, Pokes(rest), Poke(last.at, last.value));
    PokeRegister(After(s, Pokes(rest)), last.at, last.value, settings[i].at);
    if i < |rest| {
      PokesStay(s, rest, i);
    }
  }

  // ---- the frame port ----

  // A frame goes through the port in pairs, address lines alternating between
  // its halves.
  function FrameOut(bytes: seq<byte>): seq<Cycle> {
    var n := |bytes|;
    if n < 2 then [] else FrameOut(bytes[..n - 2]) + PairOut(FRAME_PORT, bytes[n - 2], bytes[n - 1])
  }

  function FrameIn(bytes: seq<byte>): seq<Cycle> {
    var n := |bytes|;
    if n < 2 then [] else FrameIn(bytes[..n - 2]) + PairIn(FRAME_PORT, bytes[n - 2], bytes[n - 1])
  }

  lemma {:induction false} AfterFrameOut(s: State, bytes: seq<byte>)
    requires |bytes| % 2 == 0
    ensures After(s, FrameOut(bytes)) == s.(tx := s.tx + bytes)
  {
    var n := |bytes|;
    if n >= 2 {
      var rest, a, b := bytes[..n - 2], bytes[n - 2], bytes[n - 1];
      AfterFrameOut(s, rest);
      AfterConcat(s, FrameOut(rest), PairOut(FRAME_PORT, a, b));
      AfterTwo(After(s, FrameOut(rest)), Wr(FRAME_PORT, a), Wr(FRAME_PORT + 1, b));
      assert s.tx + rest + [a] + [b] == s.tx + bytes;
    } else {
      assert s.tx + bytes == s.tx;
    }
  }

  // Byte i goes to the even half of the port for even i, to the odd half for
  // odd i.
  lemma {:induction false} FrameOutAt(bytes: seq<byte>, i: nat)
    requires |bytes| % 2 == 0
    ensures |FrameOut(bytes)| == |bytes|
    ensures i < |bytes| ==> FrameOut(bytes)[i] == Wr(i % 2, bytes[i])
  {
    var n := |bytes|;
    if n >= 2 {
      FrameOutAt(bytes[..n - 2], i);
    }
  }

  // What the frame port gives for a received frame, byte by byte: status and
  // length, the high byte of each first, then the frame itself.
  function Stream(f: Frame): seq<byte>
    requires |f.bytes| < 0x1_0000
  {
    Header(f.status, |f.bytes|) + f.bytes
  }

  function Header(status: word, length: word): (header: seq<byte>)
    ensures |header| == 4
  {
    [Hi(status), Lo(status), Hi(length), Lo(length)]
  }

  // Which half of the port gives the next byte.
  function RxPort(cursor: nat): nat {
    if cursor < 4 then FRAME_PORT + 1 - cursor % 2 else FRAME_PORT + cursor % 2
  }

  predicate ReadsOnly(log: seq<Cycle>) { forall c :: c in log ==> c.Rd? }

  // At this point of the log the chip has a frame to give, of which nothing was
  // read yet: as long as nothing is written, each read of the half that is next
  // is answered from it.
  ghost predicate Presents(chip: Chip, log: seq<Cycle>, s: State) {
    && |s.rx.bytes| < 0x1_0000 && s.cursor == 0
    && forall more :: ReadsOnly(more) ==>
         var at := After(s, more).cursor;
         at < |Stream(s.rx)| ==> chip(log + more, RxPort(at)) == Stream(s.rx)[at]
  }

  // The reads of a stream of bytes, header included, in the port's order.
  predicate InPortOrder(taken: seq<Cycle>) {
    forall i :: 0 <= i < |taken| ==> taken[i].Rd? && taken[i].port == RxPort(i)
  }

  lemma {:induction false} CursorAfter(s: State, taken: seq<Cycle>)
    requires InPortOrder(taken)
    ensures After(s, taken) == s.(cursor := s.cursor + |taken|) && ReadsOnly(taken)
  {
    if taken != [] {
      CursorAfter(s, taken[..|taken| - 1]);
    }
  }

  // What an honest log shows as read in that order is the frame presented.
  lemma HonestStream(chip: Chip, log: seq<Cycle>, s: State, taken: seq<Cycle>, i: nat)
    requires Presents(chip, log, s) && InPortOrder(taken) && Honest(log + taken, chip)
    requires i < |taken| && i < |Stream(s.rx)|
    ensures taken[i].val == Stream(s.rx)[i]
  {
    CursorAfter(s, taken[..i]);
    var all := log + taken;
    assert all[|log| + i] == taken[i] && all[..|log| + i] == log + taken[..i];
  }

  function RxCycles(status: word, length: word, stream: seq<byte>): seq<Cycle> {
    (ReadHighFirstCycles(FRAME_PORT, status) + ReadHighFirstCycles(FRAME_PORT, length)) + FrameIn(stream)
  }

  lemma {:induction false} FrameInAt(bytes: seq<byte>, i: nat)
    requires |bytes| % 2 == 0
    ensures |FrameIn(bytes)| == |bytes|
    ensures i < |bytes| ==> FrameIn(bytes)[i] == Rd(FRAME_PORT + i % 2, bytes[i])
  {
    var n := |bytes|;
    if n >= 2 {
      FrameInAt(bytes[..n - 2], i);
    }
  }

  // The driver's reads of header and frame take the port's bytes in order.
  lemma RxCyclesAt(status: word, length: word, stream: seq<byte>, i: nat)
    requires |stream| % 2 == 0
    ensures |RxCycles(status, length, stream)| == 4 + |stream|
    ensures i < 4 + |stream| ==>
              RxCycles(status, length, stream)[i] == Rd(RxPort(i), (Header(status, length) + stream)[i])
    ensures RxPort(i) == if i < 4 then 1 - i % 2 else i % 2
  {
    FrameInAt(stream, if i >= 4 then i - 4 else 0);
  }

  lemma HonestPrefix(log: seq<Cycle>, more: seq<Cycle>, chip: Chip)
    requires Honest(log + more, chip)
    ensures Honest(log, chip)
  {
    var all := log + more;
    forall i | 0 <= i < |log| && log[i].Rd?
      ensures log[i].val == chip(log[..i], log[i].port)
    {
      assert all[i] == log[i] && all[..i] == log[..i];
    }
  }

  lemma HonestPair(log: seq<Cycle>, port: nat, a: byte, b: byte, chip: Chip)
    requires Honest(log + PairIn(port, a, b), chip)
    ensures a == chip(log, port) && b == chip(log + [Rd(port, a)], port + 1)
  {
    var all := log + PairIn(port, a, b);
    assert all[|log|] == Rd(port, a) && all[..|log|] == log;
    assert all[|log| + 1] == Rd(port + 1, b) && all[..|log| + 1] == log + [Rd(port, a)];
  }

  // The chip answers reads of these registers from its page.
  ghost predicate Keeps(chip: Chip, s: State, registers: set<int>) {
    forall log :: After(s, log).pointer in registers ==>
      && chip(log, DATA_PORT) == ByteAt(After(s, log), After(s, log).pointer)
      && chip(log, DATA_PORT + 1) == ByteAt(After(s, log), After(s, log).pointer + 1)
  }

  // ---- what was read where ----

  // The bytes read and written through DATA_PORT while the pointer was at a
  // register.
  function ReadAt(s: State, log: seq<Cycle>, at: word): seq<byte> {
    if log == [] then []
    else
      var before := log[..|log| - 1];
      ReadAt(s, before, at) + ReadOf(After(s, before), log[|log| - 1], at)
  }

  function WrittenAt(s: State, log: seq<Cycle>, at: word): seq<byte> {
    if log == [] then []
    else
      var before := log[..|log| - 1];
      WrittenAt(s, before, at) + WrittenOf(After(s, before), log[|log| - 1], at)
  }

  function ReadOf(s: State, c: Cycle, at: word): seq<byte> {
    if c.Rd? && (c.port == DATA_PORT || c.port == DATA_PORT + 1) && s.pointer == at then [c.val] else []
  }

  function WrittenOf(s: State, c: Cycle, at: word): seq<byte> {
    if c.Wr? && (c.port == DATA_PORT || c.port == DATA_PORT + 1) && s.pointer == at then [c.val] else []
  }

  lemma {:induction false} TrafficConcat(s: State, a: seq<Cycle>, b: seq<Cycle>, at: word)
    ensures ReadAt(s, a + b, at) == ReadAt(s, a, at) + ReadAt(After(s, a), b, at)
    ensures WrittenAt(s, a + b, at) == WrittenAt(s, a, at) + WrittenAt(After(s, a), b, at)
  {
    if b == [] {
      assert a + b == a;
    } else {
      var c, last := b[..|b| - 1], b[|b| - 1];
      TrafficConcat(s, a, c, at);
      AfterConcat(s, a, c);
      assert (a + b)[..|a + b| - 1] == a + c && (a + b)[|a + b| - 1] == last;
      Associate(ReadAt(s, a, at), ReadAt(After(s, a), c, at), ReadOf(After(s, a + c), last, at));
      Associate(WrittenAt(s, a, at), WrittenAt(After(s, a), c, at), WrittenOf(After(s, a + c), last, at));
    }
  }

  lemma TrafficOne(s: State, c: Cycle, at: word)
    ensures ReadAt(s, [c], at) == ReadOf(s, c, at) && WrittenAt(s, [c], at) == WrittenOf(s, c, at)
    ensures After(s, [c]) == Step(s, c)
  {
    assert [c][..0] == [];
    assert After(s, []) == s && ReadAt(s, [], at) == [] && WrittenAt(s, [], at) == [];
  }

  lemma TrafficPair(s: State, c: Cycle, d: Cycle, at: word)
    ensures ReadAt(s, [c, d], at) == ReadOf(s, c, at) + ReadOf(Step(s, c), d, at)
    ensures WrittenAt(s, [c, d], at) == WrittenOf(s, c, at) + WrittenOf(Step(s, c), d, at)
  {
    assert [c, d][..1] == [c];
    TrafficOne(s, c, at);
  }

  lemma TrafficPointer(s: State, reg: word, at: word)
    ensures ReadAt(s, WriteCycles(ADD_PORT, reg), at) == [] && WrittenAt(s, WriteCycles(ADD_PORT, reg), at) == []
  {
    TrafficPair(s, Wr(ADD_PORT, Lo(reg)), Wr(ADD_PORT + 1, Hi(reg)), at);
  }

  lemma TrafficData(s: State, v: word, at: word)
    ensures ReadAt(s, ReadCycles(DATA_PORT, v), at) == if s.pointer == at then [Lo(v), Hi(v)] else []
    ensures WrittenAt(s, ReadCycles(DATA_PORT, v), at) == []
    ensures ReadAt(s, WriteCycles(DATA_PORT, v), at) == []
    ensures WrittenAt(s, WriteCycles(DATA_PORT, v), at) == if s.pointer == at then [Lo(v), Hi(v)] else []
  {
    TrafficPair(s, Rd(DATA_PORT, Lo(v)), Rd(DATA_PORT + 1, Hi(v)), at);
    TrafficPair(s, Wr(DATA_PORT, Lo(v)), Wr(DATA_PORT + 1, Hi(v)), at);
  }

  lemma TrafficPoke(s: State, reg: word, v: word, at: word)
    ensures ReadAt(s, Poke(reg, v), at) == []
    ensures WrittenAt(s, Poke(reg, v), at) == if reg == at then [Lo(v), Hi(v)] else []
  {
    TrafficConcat(s, WriteCycles(ADD_PORT, reg), WriteCycles(DATA_PORT, v), at);
    AfterPointer(s, reg);
    TrafficPointer(s, reg, at);
    TrafficData(s.(pointer := reg), v, at);
  }

  // Nothing is read or written at a register without a cycle on the data port.
  lemma {:induction false} TrafficElsewhere(s: State, log: seq<Cycle>, at: word)
    requires forall c :: c in log ==> c.port != DATA_PORT && c.port != DATA_PORT + 1
    ensures ReadAt(s, log, at) == [] && WrittenAt(s, log, at) == []
  {
    if log != [] {
      TrafficElsewhere(s, log[..|log| - 1], at);
    }
  }

  lemma TrafficPeek(s: State, reg: word, v: word, at: word)
    ensures ReadAt(s, Peek(reg, v), at) == if reg == at then [Lo(v), Hi(v)] else []
    ensures WrittenAt(s, Peek(reg, v), at) == []
  {
    TrafficConcat(s, WriteCycles(ADD_PORT, reg), ReadCycles(DATA_PORT, v), at);
    AfterPointer(s, reg);
    TrafficPointer(s, reg, at);
    TrafficData(s.(pointer := reg), v, at);
  }
}
