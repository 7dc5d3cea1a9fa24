// apps/dhcps/dhcps.c, the lease table.  MAX_LEASES is the table's length.
module DhcpLeases {
  import opened Bytes
  import opened DhcpOptions
  import opened DhcpMessage

  datatype Lease = Lease(mac: Mac, ip: Ip)

  // IP4_ADDR(base.1, base.2, base.3, base.4 + k + 10): lwIP keeps eight bits of
  // the last part.
  function Addr(base: Ip, k: nat): Ip {
    var last: int := base[3];
    [base[0], base[1], base[2], (last + k + 10) % 256]
  }

  // The clients that hold a lease, in slot order: distinct and none of them
  // all-zero.
  predicate Proper(holders: seq<Mac>) {
    && FREE_MAC !in holders
    && forall i, j :: 0 <= i < j < |holders| ==> holders[i] != holders[j]
  }

  // The table they make: taken slots first, free slots behind, and every slot
  // with the address it was given at the start.
  function Table(base: Ip, n: nat, holders: seq<Mac>): (table: seq<Lease>)
    requires |holders| <= n
    ensures |table| == n
  {
    seq(n, k requires 0 <= k => Lease(if k < |holders| then holders[k] else FREE_MAC, Addr(base, k)))
  }

  function IndexOf<T(==)>(s: seq<T>, x: T): (i: nat)
    requires x in s
    ensures i < |s| && s[i] == x && x !in s[..i]
  {
    if s[0] == x then 0
    else
      var i := 1 + IndexOf(s[1..], x);
      assert s[..i] == [s[0]] + s[1..][..i - 1];
      i
  }

  // Who holds a lease after `mac` has asked for one.
  function Admit(n: nat, holders: seq<Mac>, mac: Mac): (now: seq<Mac>)
    requires |holders| <= n && Proper(holders)
    ensures |now| <= n && Proper(now) && holders <= now
  {
    if mac == FREE_MAC || mac in holders || |holders| == n then holders else holders + [mac]
  }

  // The address `mac` gets: its own slot's, or, for the all-zero MAC, that of
  // the first free slot.
  function Resolve(base: Ip, n: nat, holders: seq<Mac>, mac: Mac): Option<Ip>
    requires |holders| <= n && Proper(holders)
  {
    var now := Admit(n, holders, mac);
    if mac in now then Some(Addr(base, IndexOf(now, mac)))
    else if mac == FREE_MAC && |holders| < n then Some(Addr(base, |holders|))
    else None
  }

  // ---- the code ----

  // The loop of dhcpServerStartRaw.
  method Start(leases: array<Lease>, base: Ip)
    modifies leases
    ensures leases[..] == Table(base, leases.Length, [])
    ensures CountsUp(leases[..], base)
  {
    var i := 0;
    while i < leases.Length
      invariant 0 <= i <= leases.Length
      invariant forall k :: 0 <= k < i ==> leases[k] == Lease(FREE_MAC, Addr(base, k))
    {
      leases[i] := Lease(FREE_MAC, Addr(base, i));
      i := i + 1;
    }
    assert leases[..] == Table(base, leases.Length, []);
    TableCountsUp(base, leases.Length);
  }

  method AllocateAddr(leases: array<Lease>, mac: Mac, ghost base: Ip, ghost holders: seq<Mac>) returns (ip: Option<Ip>)
    requires |holders| <= leases.Length && Proper(holders)
    requires leases[..] == Table(base, leases.Length, holders)
    modifies leases
    ensures leases[..] == Table(base, leases.Length, Admit(leases.Length, holders, mac))
    ensures ip == Resolve(base, leases.Length, holders, mac)
  {
    ghost var n := leases.Length;
    // The slot the client holds; an all-zero one matches a free slot here.
    var i := 0;
    while i < leases.Length
      invariant 0 <= i <= n && leases[..] == Table(base, n, holders)
      invariant forall k :: 0 <= k < i ==> leases[..][k].mac != mac
    {
      if mac == leases[i].mac {
        FoundAt(base, n, holders, mac, leases[..], i);
        return Some(leases[i].ip);
      }
      i := i + 1;
    }
    NotFound(base, n, holders, mac, leases[..]);
    // Or else the first free slot becomes its own.
    i := 0;
    while i < leases.Length
      invariant 0 <= i <= n && leases[..] == Table(base, n, holders)
      invariant forall k :: 0 <= k < i ==> leases[..][k].mac != FREE_MAC
    {
      if leases[i].mac == FREE_MAC {
        FreeAt(base, n, holders, mac, leases[..], i);
        leases[i] := leases[i].(mac := mac);
        return Some(leases[i].ip);
      }
      i := i + 1;
    }
    Full(base, n, holders, mac, leases[..]);
    ip := None;
  }

  lemma FirstFree(base: Ip, n: nat, holders: seq<Mac>)
    requires |holders| <= n
    ensures |holders| < n ==> Table(base, n, holders)[|holders|] == Lease(FREE_MAC, Addr(base, |holders|))
  {
  }

  lemma FoundAt(base: Ip, n: nat, holders: seq<Mac>, mac: Mac, table: seq<Lease>, i: nat)
    requires |holders| <= n && Proper(holders) && table == Table(base, n, holders)
    requires i < n && table[i].mac == mac && forall k :: 0 <= k < i ==> table[k].mac != mac
    ensures Admit(n, holders, mac) == holders && Resolve(base, n, holders, mac) == Some(table[i].ip)
  {
    FirstFree(base, n, holders);
    if i < |holders| {
      assert holders[i] == mac;
    }
  }

  lemma NotFound(base: Ip, n: nat, holders: seq<Mac>, mac: Mac, table: seq<Lease>)
    requires |holders| <= n && table == Table(base, n, holders)
    requires forall k :: 0 <= k < n ==> table[k].mac != mac
    ensures mac !in holders && (mac == FREE_MAC ==> |holders| == n)
  {
    assert forall k :: 0 <= k < |holders| ==> table[k].mac == holders[k];
    FirstFree(base, n, holders);
  }

  lemma FreeAt(base: Ip, n: nat, holders: seq<Mac>, mac: Mac, table: seq<Lease>, i: nat)
    requires |holders| <= n && Proper(holders) && table == Table(base, n, holders)
    requires mac !in holders && (mac == FREE_MAC ==> |holders| == n)
    requires i < n && table[i].mac == FREE_MAC && forall k :: 0 <= k < i ==> table[k].mac != FREE_MAC
    ensures table[i := table[i].(mac := mac)] == Table(base, n, Admit(n, holders, mac))
    ensures Resolve(base, n, holders, mac) == Some(table[i].ip)
  {
    FirstFree(base, n, holders);
    FreeIndex(holders, table, i);
    GrowTable(base, n, holders, mac);
    IndexOfLast(holders, mac);
  }

  lemma FreeIndex(holders: seq<Mac>, table: seq<Lease>, i: nat)
    requires Proper(holders) && |holders| <= |table|
    requires forall k :: 0 <= k < |holders| ==> table[k].mac == holders[k]
    requires |holders| < |table| ==> table[|holders|].mac == FREE_MAC
    requires i < |table| && table[i].mac == FREE_MAC && forall k :: 0 <= k < i ==> table[k].mac != FREE_MAC
    ensures i == |holders|
  {
    assert forall k :: 0 <= k < |holders| ==> table[k].mac in holders;
  }

  lemma GrowTable(base: Ip, n: nat, holders: seq<Mac>, mac: Mac)
    requires |holders| < n
    ensures var i := |holders|;
            Table(base, n, holders)[i := Lease(mac, Addr(base, i))] == Table(base, n, holders + [mac])
  {
  }

  lemma Full(base: Ip, n: nat, holders: seq<Mac>, mac: Mac, table: seq<Lease>)
    requires |holders| <= n && Proper(holders) && table == Table(base, n, holders)
    requires mac !in holders && (mac == FREE_MAC ==> |holders| == n)
    requires forall k :: 0 <= k < n ==> table[k].mac != FREE_MAC
    ensures Admit(n, holders, mac) == holders && Resolve(base, n, holders, mac) == None
  {
    FirstFree(base, n, holders);
  }

  lemma {:induction false} IndexOfIs<T>(s: seq<T>, x: T, i: nat)
    requires i < |s| && s[i] == x && x !in s[..i]
    ensures IndexOf(s, x) == i
  {
    if i > 0 {
      assert s[..i][0] == s[0] && s[1..][..i - 1] == s[..i][1..];
      IndexOfIs(s[1..], x, i - 1);
    }
  }

  lemma IndexOfLast(holders: seq<Mac>, mac: Mac)
    requires mac !in holders
    ensures IndexOf(holders + [mac], mac) == |holders|
  {
    assert (holders + [mac])[..|holders|] == holders;
    IndexOfIs(holders + [mac], mac, |holders|);
  }

  // ---- addresses ----

  // Modulo 256, a is d above b.
  predicate Above(a: int, b: int, d: int) { (a - b) % 256 == d }

  // A free table whose addresses count up from ten above the server's in the
  // last octet, which is all they differ in.
  ghost predicate CountsUp(table: seq<Lease>, base: Ip) {
    && (forall k :: 0 <= k < |table| ==> table[k].mac == [0, 0, 0, 0, 0, 0] && table[k].ip[..3] == base[..3])
    && (table != [] ==> Above(table[0].ip[3], base[3], 10))
    && (forall j, k :: 0 <= j < k < |table| && k == j + 1 ==> Above(table[k].ip[3], table[j].ip[3], 1))
  }

  lemma AddressesCount(base: Ip, k: nat)
    ensures Addr(base, k)[..3] == base[..3]
    ensures Above(Addr(base, 0)[3], base[3], 10)
    ensures Above(Addr(base, k + 1)[3], Addr(base, k)[3], 1)
  {
  }

  lemma TableCountsUp(base: Ip, n: nat)
    ensures CountsUp(Table(base, n, []), base)
  {
    var table := Table(base, n, []);
    forall j, k | 0 <= j < k < n && k == j + 1
      ensures Above(table[k].ip[3], table[j].ip[3], 1)
    {
      AddressesCount(base, j);
    }
    AddressesCount(base, 0);
  }

  lemma AddrIs(base: Ip, j: nat, k: nat)
    ensures Addr(base, j) == Addr(base, k) <==> (j - k) % 256 == 0
  {
  }

  lemma AddressNamesSlot(base: Ip, j: nat, k: nat)
    requires j < 256 && k < 256
    ensures Addr(base, j) == Addr(base, k) <==> j == k
  {
    AddrIs(base, j, k);
  }

  // Slots have addresses of their own exactly up to 256 of them ...
  lemma AddressesDistinctExactlyUpTo256(base: Ip, n: nat)
    ensures (forall j, k :: 0 <= j < k < n ==> Addr(base, j) != Addr(base, k)) <==> n <= 256
  {
    if n > 256 {
      AddrIs(base, 0, 256);
      assert Addr(base, 0) == Addr(base, 256);
    } else {
      forall j, k | 0 <= j < k < n
        ensures Addr(base, j) != Addr(base, k)
      {
        AddrIs(base, j, k);
      }
    }
  }

  // ... and none has the server's exactly up to 246.
  lemma OwnAddressSparedExactlyUpTo246(base: Ip, n: nat)
    ensures (forall k :: 0 <= k < n ==> Addr(base, k) != base) <==> n <= 246
  {
    if n > 246 {
      assert Addr(base, 246) == base;
    } else {
      forall k | 0 <= k < n
        ensures Addr(base, k) != base
      {
        assert Addr(base, k)[3] != base[3];
      }
    }
  }

  // ---- first come, first served ----

  // The distinct elements in order of first appearance.
  function Distinct(macs: seq<Mac>): seq<Mac> {
    if macs == [] then []
    else
      var before, m := Distinct(macs[..|macs| - 1]), macs[|macs| - 1];
      if m in before then before else before + [m]
  }

  function Take<T>(n: nat, s: seq<T>): (prefix: seq<T>)
    ensures |prefix| <= n && prefix <= s
  {
    s[..Min(n, |s|)]
  }

  lemma {:induction false} DistinctIsFirstAppearance(macs: seq<Mac>)
    ensures forall m :: m in Distinct(macs) <==> m in macs
    ensures forall i, j :: 0 <= i < j < |Distinct(macs)| ==>
              IndexOf(macs, Distinct(macs)[i]) < IndexOf(macs, Distinct(macs)[j])
  {
    if macs != [] {
      var rest, m := macs[..|macs| - 1], macs[|macs| - 1];
      DistinctIsFirstAppearance(rest);
      assert macs == rest + [m];
      forall x | x in rest
        ensures IndexOf(macs, x) == IndexOf(rest, x)
      {
        SameFirst(rest, m, x);
      }
      if m !in Distinct(rest) {
        IndexOfLast(rest, m);
      }
    }
  }

  lemma SameFirst(rest: seq<Mac>, m: Mac, x: Mac)
    requires x in rest
    ensures IndexOf(rest + [m], x) == IndexOf(rest, x)
  {
    var i := IndexOf(rest, x);
    assert (rest + [m])[..i] == rest[..i];
    IndexOfIs(rest + [m], x, i);
  }

  // Admission one by one keeps the first n distinct.
  lemma AdmitNext(n: nat, macs: seq<Mac>, m: Mac)
    requires m != FREE_MAC && Proper(Take(n, Distinct(macs)))
    ensures Take(n, Distinct(macs + [m])) == Admit(n, Take(n, Distinct(macs)), m)
  {
    assert (macs + [m])[..|macs|] == macs;
    var d := Distinct(macs);
    if m in d && m !in Take(n, d) {
      assert |d| > n;
    }
  }

  // ---- what asking changes for others ----

  // A holder keeps its address whoever asks next.
  lemma HolderKeeps(base: Ip, n: nat, holders: seq<Mac>, later: seq<Mac>, mac: Mac)
    requires |later| <= n && Proper(holders) && Proper(later) && holders <= later && mac in holders
    ensures mac in later && IndexOf(later, mac) == IndexOf(holders, mac)
    ensures Resolve(base, n, later, mac) == Resolve(base, n, holders, mac) == Some(Addr(base, IndexOf(holders, mac)))
  {
    var i := IndexOf(holders, mac);
    assert later[i] == mac;
  }
}
