// Packet buffers.  A packet is a chain of buffers; what the drivers do to it is
// a matter of where each of its bytes lands in one linear stream.
module PbufChain {
  import opened Bytes

  // The drivers never change a buffer's header, only what it holds.
  class Pbuf {
    const next: Pbuf?
    const payload: array<byte>
    const len: nat
    const totLen: nat

    constructor (payload: array<byte>, len: nat, totLen: nat, next: Pbuf?)
      ensures this.payload == payload && this.len == len && this.totLen == totLen && this.next == next
    {
      this.payload, this.len, this.totLen, this.next := payload, len, totLen, next;
    }
  }

  // `nodes` is the chain that starts at `p`.
  ghost predicate Linked(p: Pbuf?, nodes: seq<Pbuf>)
  {
    if nodes == [] then p == null else p == nodes[0] && Linked(p.next, nodes[1..])
  }

  // One step of a loop over the chain.
  lemma LinkedNext(q: Pbuf, nodes: seq<Pbuf>, k: nat)
    requires k <= |nodes| && Linked(q, nodes[k..])
    ensures k < |nodes| && q == nodes[k] && Linked(q.next, nodes[k + 1..])
  {
    assert nodes[k..][1..] == nodes[k + 1..];
  }

  // Every segment fits its payload ...
  ghost predicate Room(nodes: seq<Pbuf>)
  {
    forall n :: n in nodes ==> n.len <= n.payload.Length
  }

  // ... with a byte to spare behind every segment of odd length.
  ghost predicate Slack(nodes: seq<Pbuf>)
  {
    forall n :: n in nodes ==> Even(n.len) <= n.payload.Length
  }

  ghost function Payloads(nodes: seq<Pbuf>): (payloads: set<array<byte>>)
    ensures forall n :: n in nodes ==> n.payload in payloads
  {
    if nodes == [] then {} else {nodes[0].payload} + Payloads(nodes[1..])
  }

  // `segs` is what the pump moves for each node.
  ghost predicate Holds(nodes: seq<Pbuf>, segs: seq<seq<byte>>)
    requires Slack(nodes)
    reads Payloads(nodes)
  {
    |segs| == |nodes| && forall i :: 0 <= i < |nodes| ==> segs[i] == nodes[i].payload[..Even(nodes[i].len)]
  }

  // No two segments share their payload.
  ghost predicate Separate(nodes: seq<Pbuf>)
  {
    forall i, j :: 0 <= i < j < |nodes| ==> nodes[i].payload != nodes[j].payload
  }

  function Lens(nodes: seq<Pbuf>): (lens: seq<nat>)
    ensures |lens| == |nodes| && forall i :: 0 <= i < |nodes| ==> lens[i] == nodes[i].len
  {
    if nodes == [] then [] else [nodes[0].len] + Lens(nodes[1..])
  }

  // The bytes of each segment ...
  ghost function Segments(nodes: seq<Pbuf>): (segs: seq<seq<byte>>)
    requires Room(nodes)
    reads Payloads(nodes)
    ensures |segs| == |nodes| && forall i :: 0 <= i < |nodes| ==> segs[i] == nodes[i].payload[..nodes[i].len]
  {
    if nodes == [] then [] else [nodes[0].payload[..nodes[0].len]] + Segments(nodes[1..])
  }

  // ... and with the slack byte of the odd ones.
  ghost function Padded(nodes: seq<Pbuf>): (segs: seq<seq<byte>>)
    requires Slack(nodes)
    reads Payloads(nodes)
    ensures |segs| == |nodes| && forall i :: 0 <= i < |nodes| ==> segs[i] == nodes[i].payload[..Even(nodes[i].len)]
  {
    if nodes == [] then [] else [nodes[0].payload[..Even(nodes[0].len)]] + Padded(nodes[1..])
  }

  function Half(n: nat): (h: nat)
    ensures n <= 2 * h <= n + 1
  {
    (n + 1) / 2
  }

  // What the two-byte pump moves for n bytes: the next even number.
  function Even(n: nat): (m: nat)
    ensures m == n + n % 2
  {
    2 * Half(n)
  }

  function Sum(lens: seq<nat>): nat {
    if lens == [] then 0 else lens[0] + Sum(lens[1..])
  }

  function SumEven(lens: seq<nat>): nat {
    if lens == [] then 0 else Even(lens[0]) + SumEven(lens[1..])
  }

  function Flatten(segs: seq<seq<byte>>): seq<byte> {
    if segs == [] then [] else segs[0] + Flatten(segs[1..])
  }

  // `lens` are the segment lengths of `segs`.
  predicate Sized(segs: seq<seq<byte>>, lens: seq<nat>) {
    |segs| == |lens| && forall i :: 0 <= i < |segs| ==> |segs[i]| == lens[i]
  }

  predicate SizedEven(segs: seq<seq<byte>>, lens: seq<nat>) {
    |segs| == |lens| && forall i :: 0 <= i < |segs| ==> |segs[i]| == Even(lens[i])
  }

  // `padded` is `segs` with one more byte behind every odd segment.
  predicate Pads(padded: seq<seq<byte>>, segs: seq<seq<byte>>) {
    |padded| == |segs| && forall i :: 0 <= i < |segs| ==> |padded[i]| == Even(|segs[i]|) && segs[i] <= padded[i]
  }

  // Only what is empty follows a segment of odd length.
  predicate Aligned(lens: seq<nat>) {
    lens == [] || ((lens[0] % 2 == 1 ==> Sum(lens[1..]) == 0) && Aligned(lens[1..]))
  }

  // A byte stream cut into consecutive segments, as memcpy does it ...
  function Split(bytes: seq<byte>, lens: seq<nat>): (segs: seq<seq<byte>>)
    requires Sum(lens) <= |bytes|
    ensures Sized(segs, lens)
  {
    if lens == [] then [] else [bytes[..lens[0]]] + Split(bytes[lens[0]..], lens[1..])
  }

  // ... and as the two-byte pump does it, every segment starting at an even
  // place of the stream.
  function Cut(stream: seq<byte>, lens: seq<nat>): (segs: seq<seq<byte>>)
    requires SumEven(lens) <= |stream|
    ensures Sized(segs, lens)
  {
    if lens == [] then [] else [stream[..lens[0]]] + Cut(stream[Even(lens[0])..], lens[1..])
  }

  // ---- memcpy gather and scatter are each other's inverses ----

  lemma {:induction false} FlattenSplit(bytes: seq<byte>, lens: seq<nat>)
    requires Sum(lens) == |bytes|
    ensures Flatten(Split(bytes, lens)) == bytes
  {
    if lens != [] {
      FlattenSplit(bytes[lens[0]..], lens[1..]);
    }
  }

  lemma {:induction false} FlattenLength(segs: seq<seq<byte>>, lens: seq<nat>)
    requires Sized(segs, lens)
    ensures |Flatten(segs)| == Sum(lens)
  {
    if segs != [] {
      FlattenLength(segs[1..], lens[1..]);
    }
  }

  lemma {:induction false} SplitFlatten(segs: seq<seq<byte>>, lens: seq<nat>)
    requires Sized(segs, lens)
    ensures Sum(lens) == |Flatten(segs)| && Split(Flatten(segs), lens) == segs
  {
    FlattenLength(segs, lens);
    if segs != [] {
      SplitFlatten(segs[1..], lens[1..]);
      assert Flatten(segs)[lens[0]..] == Flatten(segs[1..]);
    }
  }

  // Scattering a gathered chain into any other segmentation keeps the bytes.
  lemma Resegment(segs: seq<seq<byte>>, lens: seq<nat>)
    requires Sum(lens) == |Flatten(segs)|
    ensures Sized(Split(Flatten(segs), lens), lens)
    ensures Flatten(Split(Flatten(segs), lens)) == Flatten(segs)
  {
    FlattenSplit(Flatten(segs), lens);
  }

  // ---- the two-byte pump ----

  lemma {:induction false} PaddedLength(padded: seq<seq<byte>>, lens: seq<nat>)
    requires SizedEven(padded, lens)
    ensures |Flatten(padded)| == SumEven(lens)
  {
    if lens != [] {
      PaddedLength(padded[1..], lens[1..]);
    }
  }

  lemma {:induction false} SumWithinSumEven(lens: seq<nat>)
    ensures Sum(lens) <= SumEven(lens) && SumEven(lens) % 2 == 0
  {
    if lens != [] {
      SumWithinSumEven(lens[1..]);
    }
  }

  // Byte i of segment k is at this place of the pumped stream.
  function PumpedAt(lens: seq<nat>, k: nat, i: nat): nat
    requires k < |lens|
  {
    SumEven(lens[..k]) + i
  }

  lemma {:induction false} PumpPlaces(padded: seq<seq<byte>>, segs: seq<seq<byte>>, lens: seq<nat>, k: nat, i: nat)
    requires Sized(segs, lens) && Pads(padded, segs)
    requires k < |segs| && i < lens[k]
    ensures PumpedAt(lens, k, i) < |Flatten(padded)|
    ensures Flatten(padded)[PumpedAt(lens, k, i)] == segs[k][i]
  {
    if k == 0 {
      assert lens[..0] == [];
      assert padded[0][i] == segs[0][i];
    } else {
      PumpPlaces(padded[1..], segs[1..], lens[1..], k - 1, i);
      assert lens[1..][..k - 1] == lens[..k][1..];
    }
  }

  // Pumping out and pumping in through the same segmentation undo each other,
  // however the segments are aligned.
  lemma {:induction false} CutUndoesPump(padded: seq<seq<byte>>, segs: seq<seq<byte>>, lens: seq<nat>)
    requires Sized(segs, lens) && Pads(padded, segs)
    ensures SumEven(lens) == |Flatten(padded)| && Cut(Flatten(padded), lens) == segs
  {
    PaddedLength(padded, lens);
    if lens != [] {
      CutUndoesPump(padded[1..], segs[1..], lens[1..]);
      assert Flatten(padded)[Even(lens[0])..] == Flatten(padded[1..]);
      assert Flatten(padded)[..lens[0]] == padded[0][..lens[0]] == segs[0];
    }
  }

  // On aligned chains the pump sends the linear bytes first ...
  lemma {:induction false} AlignedSends(padded: seq<seq<byte>>, segs: seq<seq<byte>>, lens: seq<nat>)
    requires Sized(segs, lens) && Pads(padded, segs) && Aligned(lens)
    ensures Flatten(segs) <= Flatten(padded)
  {
    if lens != [] {
      AlignedSends(padded[1..], segs[1..], lens[1..]);
      if lens[0] % 2 == 1 {
        FlattenLength(segs[1..], lens[1..]);
        assert Flatten(segs) == segs[0];
      } else {
        assert padded[0] == segs[0];
      }
    }
  }

  // ... and the received segments are the linear bytes.
  lemma {:induction false} AlignedReceives(stream: seq<byte>, lens: seq<nat>)
    requires SumEven(lens) <= |stream| && Aligned(lens)
    ensures Sum(lens) <= |stream| && Flatten(Cut(stream, lens)) == stream[..Sum(lens)]
  {
    SumWithinSumEven(lens);
    if lens != [] {
      AlignedReceives(stream[Even(lens[0])..], lens[1..]);
      if lens[0] % 2 == 1 {
        assert Flatten(Cut(stream, lens)) == stream[..lens[0]];
      } else {
        assert stream[..Sum(lens)] == stream[..lens[0]] + stream[lens[0]..][..Sum(lens[1..])];
      }
    }
  }

  // On any other chain there is content for which neither holds: the witness
  // is zero everywhere but in the slack bytes.
  function Zeros(n: nat): seq<byte> { seq(n, _ => 0) }

  function ZeroSegments(lens: seq<nat>): seq<seq<byte>> {
    seq(|lens|, i requires 0 <= i < |lens| => Zeros(lens[i]))
  }

  function OnesInSlack(lens: seq<nat>): seq<seq<byte>> {
    seq(|lens|, i requires 0 <= i < |lens| => Zeros(lens[i]) + (if lens[i] % 2 == 1 then [1] else []))
  }

  lemma {:induction false} ZerosFlatten(lens: seq<nat>)
    ensures Flatten(ZeroSegments(lens)) == Zeros(Sum(lens))
  {
    if lens != [] {
      ZerosFlatten(lens[1..]);
      assert ZeroSegments(lens)[1..] == ZeroSegments(lens[1..]);
    }
  }

  lemma {:induction false} MisalignedPump(lens: seq<nat>)
    requires !Aligned(lens)
    ensures exists i :: 0 <= i < Sum(lens) && i < |Flatten(OnesInSlack(lens))| && Flatten(OnesInSlack(lens))[i] == 1
  {
    var wire := Flatten(OnesInSlack(lens));
    assert OnesInSlack(lens)[1..] == OnesInSlack(lens[1..]);
    if lens[0] % 2 == 1 {
      if Sum(lens[1..]) != 0 {
        assert wire[lens[0]] == 1;
      } else {
        ZeroSumAligned(lens[1..]);
        assert false;
      }
    } else {
      MisalignedPump(lens[1..]);
      var rest := Flatten(OnesInSlack(lens[1..]));
      var i :| 0 <= i < Sum(lens[1..]) && i < |rest| && rest[i] == 1;
      assert wire[lens[0] + i] == 1;
    }
  }

  lemma {:induction false} ZeroSumAligned(lens: seq<nat>)
    requires Sum(lens) == 0
    ensures Aligned(lens)
  {
    if lens != [] {
      ZeroSumAligned(lens[1..]);
    }
  }

  // The pump is right for every content exactly on the aligned chains.
  lemma PumpSendsExactlyWhenAligned(lens: seq<nat>)
    ensures Aligned(lens) <==>
            forall padded, segs :: Sized(segs, lens) && Pads(padded, segs) ==> Flatten(segs) <= Flatten(padded)
  {
    if Aligned(lens) {
      forall padded, segs | Sized(segs, lens) && Pads(padded, segs)
        ensures Flatten(segs) <= Flatten(padded)
      {
        AlignedSends(padded, segs, lens);
      }
    } else {
      MisalignedPump(lens);
      ZerosFlatten(lens);
      var segs, padded := ZeroSegments(lens), OnesInSlack(lens);
      assert Sized(segs, lens) && Pads(padded, segs);
      assert !(Flatten(segs) <= Flatten(padded));
    }
  }

  lemma PumpReceivesExactlyWhenAligned(lens: seq<nat>)
    ensures Aligned(lens) <==>
            forall stream: seq<byte> :: SumEven(lens) <= |stream| ==> Flatten(Cut(stream, lens)) <= stream
  {
    if Aligned(lens) {
      forall stream: seq<byte> | SumEven(lens) <= |stream|
        ensures Flatten(Cut(stream, lens)) <= stream
      {
        AlignedReceives(stream, lens);
      }
    } else {
      var stream := MisalignedStream(lens);
    }
  }

  lemma MisalignedStream(lens: seq<nat>) returns (stream: seq<byte>)
    requires !Aligned(lens)
    ensures |stream| == SumEven(lens) && !(Flatten(Cut(stream, lens)) <= stream)
  {
    var segs, padded := ZeroSegments(lens), OnesInSlack(lens);
    stream := Flatten(padded);
    CutUndoesPump(padded, segs, lens);
    assert !(Flatten(segs) <= stream) by {
      MisalignedPump(lens);
      ZerosFlatten(lens);
    }
  }

  // ---- a chain of buffers as a value ----

  lemma ChainValues(nodes: seq<Pbuf>)
    requires Slack(nodes)
    ensures Sized(Segments(nodes), Lens(nodes)) && SizedEven(Padded(nodes), Lens(nodes))
    ensures Pads(Padded(nodes), Segments(nodes))
  {
  }

  lemma {:induction false} FlattenConcat(a: seq<seq<byte>>, b: seq<seq<byte>>)
    ensures Flatten(a + b) == Flatten(a) + Flatten(b)
    ensures |b| == 1 ==> Flatten(b) == b[0]
  {
    if a == [] {
      assert a + b == b;
    } else {
      FlattenConcat(a[1..], b);
      assert (a + b)[1..] == a[1..] + b;
      Associate(a[0], Flatten(a[1..]), Flatten(b));
    }
  }

  // Where a loop over the chain gets to with one more segment.
  lemma FlattenNext(segs: seq<seq<byte>>, k: nat)
    requires k < |segs|
    ensures Flatten(segs[..k + 1]) == Flatten(segs[..k]) + segs[k]
  {
    assert segs[..k + 1] == segs[..k] + [segs[k]];
    FlattenConcat(segs[..k], [segs[k]]);
  }

  // ---- the allocator ----

  // How a request for a number of bytes is met: refused, or by segments of
  // these lengths.
  type Plan = nat -> Option<seq<nat>>

  ghost predicate Sound(plan: Plan) {
    forall n :: plan(n).Some? ==> plan(n).value != [] && Sum(plan(n).value) == n
  }

  class Pool {
    const size: nat            // PBUF_POOL_BUFSIZE
    ghost var live: set<Pbuf>  // heads of the chains handed out and not freed

    constructor (size: nat)
      ensures live == {} && this.size == size
    {
      this.size, live := size, {};
    }

    // pbuf_alloc: a fresh chain of the pool's buffers, with room for a slack
    // byte, or null.
    method Alloc(len: nat, plan: Plan) returns (p: Pbuf?, ghost nodes: seq<Pbuf>)
      requires Sound(plan)
      modifies this
      ensures plan(len).None? ==> p == null && nodes == [] && live == old(live)
      ensures plan(len).Some? ==>
                && p != null && p !in old(live) && live == old(live) + {p}
                && p.totLen == len && Lens(nodes) == plan(len).value
      ensures Linked(p, nodes) && Slack(nodes) && Separate(nodes)
      ensures fresh(nodes) && fresh(Payloads(nodes))
      ensures p != null ==> size <= p.payload.Length
    {
      if plan(len).None? {
        p, nodes := null, [];
      } else {
        p, nodes := Build(plan(len).value);
        live := live + {p};
      }
    }

    method Build(lens: seq<nat>) returns (p: Pbuf?, ghost nodes: seq<Pbuf>)
      ensures (p == null) == (lens == []) && (p != null ==> p.totLen == Sum(lens))
      ensures Linked(p, nodes) && Slack(nodes) && Separate(nodes) && Lens(nodes) == lens
      ensures fresh(nodes) && fresh(Payloads(nodes))
      ensures p != null ==> size <= p.payload.Length
    {
      if lens == [] {
        p, nodes := null, [];
      } else {
        var rest, tail := Build(lens[1..]);
        var payload := new byte[if size < Even(lens[0]) then Even(lens[0]) else size];
        p := new Pbuf(payload, lens[0], Sum(lens), rest);
        nodes := [p] + tail;
        assert nodes[1..] == tail;
      }
    }

    method Free(p: Pbuf)
      requires p in live
      modifies this
      ensures live == old(live) - {p}
    {
      live := live - {p};
    }
  }

  // ---- handing a received chain to the stack ----

  const ETHTYPE_IP := 0x0800
  const ETHTYPE_ARP := 0x0806
  const ETHTYPE_IPV6 := 0x86DD

  function EtherType(header: seq<byte>): word
    requires |header| >= HEADER_LEN
  {
    Word(header[13], header[12])
  }

  predicate Wanted(etherType: word) {
    etherType == ETHTYPE_IP || etherType == ETHTYPE_ARP || etherType == ETHTYPE_IPV6
  }

  // IPv4 (08 00), ARP (08 06) and IPv6 (86 DD), high byte first in the header.
  lemma WantedTypes(header: seq<byte>)
    requires |header| >= HEADER_LEN
    ensures Wanted(EtherType(header)) <==>
            (header[12] == 0x08 && (header[13] == 0x00 || header[13] == 0x06)) || (header[12] == 0x86 && header[13] == 0xDD)
  {
  }

  // A pool buffer is large enough for an Ethernet header, however little of it
  // a short frame fills.
  const HEADER_LEN := 14

  // The tail of tapIfInput and cs8900aIfInput; `accepts` is the stack's answer.
  // The chain ends up with the stack or freed, never both and never neither.
  method Dispatch(pool: Pool, p: Pbuf, accepts: bool) returns (delivered: bool)
    requires p in pool.live && HEADER_LEN <= p.payload.Length
    modifies pool
    ensures delivered <==> Wanted(EtherType(p.payload[..])) && accepts
    ensures delivered ==>
              || (p.payload[12] == 0x08 && (p.payload[13] == 0x00 || p.payload[13] == 0x06))
              || (p.payload[12] == 0x86 && p.payload[13] == 0xDD)
    ensures pool.live == if delivered then old(pool.live) else old(pool.live) - {p}
  {
    WantedTypes(p.payload[..]);
    if Wanted(Word(p.payload[13], p.payload[12])) {  // htons
      if !accepts {
        pool.Free(p);
      }
      delivered := accepts;
    } else {
      pool.Free(p);
      delivered := false;
    }
  }
}
