// netif/tapif.c, the gather and scatter loops: the plain byte-stream meaning of
// a packet chain.
module TapIf {
  import opened Bytes
  import opened PbufChain
  import opened Cs8900aBus
  import opened Cs8900aChip
  import opened Cs8900aTraffic
  import Cs8900aRefinement

  const ETH_BUF := 1514

  // `accepted` is the outcome of write(); `sent` is what it was given.
  method LowLevelOutput(p: Pbuf, ghost nodes: seq<Pbuf>, accepted: bool) returns (err: Err, sent: seq<byte>)
    requires Linked(p, nodes) && Room(nodes)
    requires p.totLen == Sum(Lens(nodes)) <= ETH_BUF
    ensures sent == Flatten(Segments(nodes))
    ensures err == if accepted then ERR_OK else ERR_IF
  {
    ghost var segs := Segments(nodes);
    var ethBuf := new byte[ETH_BUF];
    PayloadsAreOld(nodes, ethBuf);
    GatherAll(ethBuf, p, nodes, segs);
    assert Segments(nodes) == segs;
    sent := ethBuf[..p.totLen];
    err := if accepted then ERR_OK else ERR_IF;
  }

  lemma {:induction false} PayloadsAreOld(nodes: seq<Pbuf>, buf: array<byte>)
    requires forall n :: n in nodes ==> n.payload != buf
    ensures buf !in Payloads(nodes)
  {
    if nodes != [] {
      PayloadsAreOld(nodes[1..], buf);
    }
  }

  method GatherAll(ethBuf: array<byte>, p: Pbuf, ghost nodes: seq<Pbuf>, ghost segs: seq<seq<byte>>)
    requires Linked(p, nodes) && Room(nodes) && Carries(nodes, segs, |nodes|) && ethBuf !in Payloads(nodes)
    requires Sum(Lens(nodes)) <= ethBuf.Length
    modifies ethBuf
    ensures ethBuf[..Sum(Lens(nodes))] == Flatten(segs)
  {
    var bufPtr: nat := 0;
    var q: Pbuf? := p;
    ghost var k := 0;
    ghost var lens := Lens(nodes);
    assert lens[..0] == [] && segs[..0] == [];
    while q != null
      invariant 0 <= k <= |nodes| && Linked(q, nodes[k..]) && Carries(nodes, segs, |nodes|)
      invariant GatheredTo(ethBuf[..], bufPtr, segs, lens, k)
      decreases |nodes| - k
    {
      LinkedNext(q, nodes, k);
      bufPtr := Gather(ethBuf, bufPtr, q, nodes, segs, k);
      q := q.next;
      k := k + 1;
    }
    assert lens[..k] == lens && segs[..k] == segs;
  }

  // The first k segments are in the buffer.
  predicate GatheredTo(buf: seq<byte>, at: nat, segs: seq<seq<byte>>, lens: seq<nat>, k: nat) {
    && k <= |segs| == |lens| && at == Sum(lens[..k]) <= |buf|
    && buf[..at] == Flatten(segs[..k])
  }

  // One segment behind those already gathered.
  method Gather(ethBuf: array<byte>, bufPtr: nat, q: Pbuf, ghost nodes: seq<Pbuf>, ghost segs: seq<seq<byte>>, ghost k: nat)
    returns (next: nat)
    requires Room(nodes) && Carries(nodes, segs, |nodes|) && ethBuf !in Payloads(nodes)
    requires k < |nodes| && nodes[k] == q && Sum(Lens(nodes)) <= ethBuf.Length
    requires GatheredTo(ethBuf[..], bufPtr, segs, Lens(nodes), k)
    modifies ethBuf
    ensures Carries(nodes, segs, |nodes|) && GatheredTo(ethBuf[..], next, segs, Lens(nodes), k + 1)
  {
    SumNext(Lens(nodes), k);
    FlattenNext(segs, k);
    ghost var was := ethBuf[..];
    Memcpy(ethBuf, bufPtr, q.payload[..q.len]);
    Gathered(ethBuf[..], was, bufPtr, segs[k]);
    next := bufPtr + q.len;
  }

  // The first k nodes hold these segments.
  ghost predicate Carries(nodes: seq<Pbuf>, segs: seq<seq<byte>>, k: nat)
    requires Room(nodes)
    reads Payloads(nodes)
  {
    k <= |nodes| == |segs| && forall i :: 0 <= i < k ==> nodes[i].payload[..nodes[i].len] == segs[i]
  }

  // The outcome of read(): nothing waiting (EAGAIN), another error, or a packet.
  datatype ReadResult = Again | Failed | Packet(bytes: seq<byte>)

  // What is asked of the allocator; an error's -1 goes on as a 16-bit length.
  function Asked(got: ReadResult): Option<nat> {
    match got
    case Again => None
    case Failed => Some(0xffff)
    case Packet(bytes) => Some(|bytes|)
  }

  // The memory that follows ethBuf is not the driver's to copy: a failed read
  // is met by an allocator that refuses.
  ghost predicate Readable(got: ReadResult, plan: Plan) {
    match got
    case Again => true
    case Failed => plan(0xffff).None?
    case Packet(bytes) => |bytes| <= ETH_BUF
  }

  method LowLevelInput(pool: Pool, plan: Plan, got: ReadResult) returns (p: Pbuf?, ghost nodes: seq<Pbuf>)
    requires Sound(plan) && Readable(got, plan)
    modifies pool
    ensures p != null <==> got.Packet? && plan(|got.bytes|).Some?
    ensures p == null ==> pool.live == old(pool.live)
    ensures p != null ==>
              && p !in old(pool.live) && pool.live == old(pool.live) + {p}
              && p.totLen == |got.bytes| && Linked(p, nodes) && Slack(nodes) && pool.size <= p.payload.Length
              && plan(|got.bytes|) == Some(Lens(nodes))
              && Segments(nodes) == Split(got.bytes, Lens(nodes))
              && Flatten(Segments(nodes)) == got.bytes
  {
    if got.Again? {
      return null, [];
    }
    p, nodes := pool.Alloc(Asked(got).value, plan);
    if p != null {
      Scatter(got.bytes, p, nodes);
      SplitRoom(nodes);
      SplitFlatten(Segments(nodes), Lens(nodes));
    }
  }

  lemma SplitRoom(nodes: seq<Pbuf>)
    requires Slack(nodes)
    ensures Room(nodes) && Sized(Segments(nodes), Lens(nodes))
  {
  }

  method Scatter(ethBuf: seq<byte>, p: Pbuf, ghost nodes: seq<Pbuf>)
    requires Linked(p, nodes) && Room(nodes) && Separate(nodes)
    requires Sum(Lens(nodes)) == |ethBuf|
    modifies Payloads(nodes)
    ensures Flatten(Segments(nodes)) == ethBuf && Segments(nodes) == Split(ethBuf, Lens(nodes))
  {
    ghost var lens := Lens(nodes);
    ghost var segs := Split(ethBuf, lens);
    var bufPtr := 0;
    var q: Pbuf? := p;
    ghost var k := 0;
    while q != null
      invariant 0 <= k <= |nodes| && Linked(q, nodes[k..])
      invariant bufPtr == Sum(lens[..k])
      invariant Carries(nodes, segs, k)
      decreases |nodes| - k
    {
      LinkedNext(q, nodes, k);
      SumNext(lens, k);
      SplitAt(ethBuf, lens, k);
      ScatterNode(ethBuf[bufPtr..bufPtr + q.len], q, nodes, segs, k);
      bufPtr := bufPtr + q.len;
      q := q.next;
      k := k + 1;
    }
    ScatterDone(nodes, ethBuf);
  }

  method ScatterNode(seg: seq<byte>, q: Pbuf, ghost nodes: seq<Pbuf>, ghost segs: seq<seq<byte>>, ghost k: nat)
    requires Room(nodes) && Separate(nodes) && Carries(nodes, segs, k)
    requires k < |nodes| && nodes[k] == q && seg == segs[k] && |seg| == q.len
    modifies q.payload
    ensures Carries(nodes, segs, k + 1)
  {
    CopyIn(q.payload, seg);
  }

  lemma ScatterDone(nodes: seq<Pbuf>, ethBuf: seq<byte>)
    requires Room(nodes) && Sum(Lens(nodes)) == |ethBuf|
    requires Carries(nodes, Split(ethBuf, Lens(nodes)), |nodes|)
    ensures Flatten(Segments(nodes)) == ethBuf && Segments(nodes) == Split(ethBuf, Lens(nodes))
  {
    assert Segments(nodes) == Split(ethBuf, Lens(nodes));
    FlattenSplit(ethBuf, Lens(nodes));
  }

  method CopyIn(payload: array<byte>, seg: seq<byte>)
    requires |seg| <= payload.Length
    modifies payload
    ensures payload[..|seg|] == seg
  {
    ghost var was := payload[..];
    Memcpy(payload, 0, seg);
    Gathered(payload[..], was, 0, seg);
  }

  lemma {:induction false} SplitAt(bytes: seq<byte>, lens: seq<nat>, k: nat)
    requires Sum(lens) <= |bytes| && k < |lens|
    ensures var at := Sum(lens[..k]);
            at + lens[k] <= |bytes| && Split(bytes, lens)[k] == bytes[at..at + lens[k]]
  {
    SumNext(lens, k);
    if k == 0 {
      assert lens[..0] == [];
    } else {
      var n := lens[0];
      SplitAt(bytes[n..], lens[1..], k - 1);
      assert lens[..k] == [n] + lens[1..][..k - 1];
      assert Split(bytes, lens)[k] == Split(bytes[n..], lens[1..])[k - 1];
      SliceOfTail(bytes, n, Sum(lens[1..][..k - 1]), lens[k]);
    }
  }

  lemma SliceOfTail(bytes: seq<byte>, n: nat, at: nat, len: nat)
    requires n + at + len <= |bytes|
    ensures bytes[n..][at..at + len] == bytes[n + at..n + at + len]
  {
  }

  lemma Gathered(now: seq<byte>, was: seq<byte>, at: nat, seg: seq<byte>)
    requires at + |seg| <= |was| && now == Patched(was, at, seg)
    ensures now[..at + |seg|] == was[..at] + seg
    ensures at == 0 ==> now[..|seg|] == seg
  {
  }

  lemma {:induction false} SumNext(lens: seq<nat>, k: nat)
    requires k < |lens|
    ensures Sum(lens[..k + 1]) == Sum(lens[..k]) + lens[k] <= Sum(lens)
  {
    if k > 0 {
      SumNext(lens[1..], k - 1);
      assert lens[..k + 1][1..] == lens[1..][..k] && lens[..k][1..] == lens[1..][..k - 1];
    }
  }

  // The dispatch goes by the packet's own type field when the first segment
  // holds it.
  method IfInput(pool: Pool, plan: Plan, got: ReadResult, accepts: bool) returns (more: bool, ghost p: Pbuf?)
    requires Sound(plan) && Readable(got, plan) && HEADER_LEN <= pool.size
    modifies pool
    ensures more <==> got.Packet? && plan(|got.bytes|).Some?
    ensures !more ==> pool.live == old(pool.live)
    ensures more ==> p != null && HEADER_LEN <= p.payload.Length && p !in old(pool.live)
    ensures more ==> pool.live == old(pool.live) + if Wanted(EtherType(p.payload[..])) && accepts then {p} else {}
    ensures more && HEADER_LEN <= plan(|got.bytes|).value[0] ==>
              HEADER_LEN <= |got.bytes| && EtherType(p.payload[..]) == EtherType(got.bytes)
  {
    var q, nodes := LowLevelInput(pool, plan, got);
    p := q;
    if q == null {
      return false, p;
    }
    assert nodes[0] == q && Lens(nodes)[0] == q.len && q.len <= Even(q.len) <= q.payload.Length;
    FirstSegment(nodes);
    var delivered := Dispatch(pool, q, accepts);
    more := true;
  }

  lemma FirstSegment(nodes: seq<Pbuf>)
    requires nodes != [] && Slack(nodes)
    ensures nodes[0].payload[..nodes[0].len] <= Flatten(Segments(nodes))
  {
  }

  // Both drivers put the same packet on the wire: on an aligned chain the frame
  // the CS8900A sends is the packet the tap device is given.
  lemma DriversAgree(s: State, lens: seq<nat>, busy: seq<word>, cfgs: seq<word>, last: word,
                     padded: seq<seq<byte>>, segs: seq<seq<byte>>)
    requires |busy| == |cfgs| && Sum(lens) <= ETH_BUF && Aligned(lens)
    requires Sized(segs, lens) && Pads(padded, segs)
    ensures TxFrame(After(s, TransmitCycles(Sum(lens), busy, cfgs, last, Flatten(padded)))) == Flatten(segs)
  {
    AlignedSends(padded, segs, lens);
    Cs8900aRefinement.FrameSent(s, lens, busy, cfgs, last, padded, segs);
  }
}
