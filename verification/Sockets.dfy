// sockets.c: file slots paired with lwIP sockets.
module Sockets {
  import opened Bytes

  // One UosFile.  A freed slot keeps the descriptor it last held.
  datatype File = File(used: bool, fsPrivFd: int)

  // lwip_socket and lwip_accept answer -1 or a descriptor that was not open.
  predicate Answers(fd: int, open: set<int>) { fd == -1 || (fd >= 0 && fd !in open) }

  // Allocated slots and open sockets are in one-to-one correspondence.
  predicate Paired(files: seq<File>, open: set<int>) {
    && (forall i :: 0 <= i < |files| && files[i].used ==> files[i].fsPrivFd in open)
    && (forall i, j :: 0 <= i < j < |files| && files[i].used && files[j].used ==> files[i].fsPrivFd != files[j].fsPrivFd)
    && (forall fd :: fd in open ==> exists i :: 0 <= i < |files| && files[i].used && files[i].fsPrivFd == fd)
  }

  predicate FirstFree(files: seq<File>, slot: nat) {
    && slot < |files| && !files[slot].used
    && forall i :: 0 <= i < slot ==> files[i].used
  }

  // ---- what each call does to the pairing ----

  lemma OpenKeepsPairs(files: seq<File>, open: set<int>, slot: nat, fd: int)
    requires Paired(files, open) && slot < |files| && !files[slot].used && fd !in open
    ensures Paired(files[slot := File(true, fd)], open + {fd})
  {
    var now := files[slot := File(true, fd)];
    forall x | x in open + {fd}
      ensures exists i :: 0 <= i < |now| && now[i].used && now[i].fsPrivFd == x
    {
      if x == fd {
        assert now[slot].used && now[slot].fsPrivFd == x;
      } else {
        var i :| 0 <= i < |files| && files[i].used && files[i].fsPrivFd == x;
        assert now[i] == files[i];
      }
    }
  }

  lemma CloseKeepsPairs(files: seq<File>, open: set<int>, slot: nat)
    requires Paired(files, open) && slot < |files| && files[slot].used
    ensures Paired(files[slot := files[slot].(used := false)], open - {files[slot].fsPrivFd})
  {
    var fd := files[slot].fsPrivFd;
    var now := files[slot := files[slot].(used := false)];
    forall x | x in open - {fd}
      ensures exists i :: 0 <= i < |now| && now[i].used && now[i].fsPrivFd == x
    {
      var i :| 0 <= i < |files| && files[i].used && files[i].fsPrivFd == x;
      assert now[i] == files[i];
    }
  }

  // ---- runs ----

  // `closed` is lwIP's answer to lwip_close: the descriptor is no longer open.
  datatype Call =
    | Opening(answer: int)                    // socket or accept, and lwIP's answer
    | Closing(slot: int, closed: bool)        // close of the file in a slot
    | ClosingSocket(slot: int, closed: bool)  // the closesocket macro on a slot

  datatype State = State(files: seq<File>, open: set<int>)

  function FreeSlot(files: seq<File>): (slot: Option<nat>)
    ensures slot.Some? ==> FirstFree(files, slot.value)
    ensures slot.None? ==> forall i :: 0 <= i < |files| ==> files[i].used
  {
    if files == [] then None
    else if !files[0].used then Some(0)
    else
      match FreeSlot(files[1..])
      case None => None
      case Some(i) => Some(i + 1)
  }

  predicate InUse(st: State, slot: int) { 0 <= slot < |st.files| && st.files[slot].used }

  // lwIP cannot close what is not open.
  predicate Possible(st: State, call: Call) {
    match call
    case Opening(answer) => Answers(answer, st.open)
    case Closing(s, closed) => InUse(st, s) && closed ==> st.files[s].fsPrivFd in st.open
    case ClosingSocket(s, closed) => InUse(st, s) && closed ==> st.files[s].fsPrivFd in st.open
  }

  function Step(st: State, call: Call): State {
    match call
    case Opening(answer) =>
      var slot := FreeSlot(st.files);
      if answer == -1 || slot.None? then st
      else State(st.files[slot.value := File(true, answer)], st.open + {answer})
    case Closing(s, closed) =>
      if !InUse(st, s) then st
      else State(st.files[s := st.files[s].(used := false)], Closed(st.open, st.files[s].fsPrivFd, closed))
    case ClosingSocket(s, closed) =>
      if !InUse(st, s) then st else State(st.files, Closed(st.open, st.files[s].fsPrivFd, closed))
  }

  function Closed(open: set<int>, fd: int, closed: bool): set<int> { if closed then open - {fd} else open }

  // The macro closes the socket of a slot and leaves the slot; a close that
  // lwIP refuses frees the slot and leaves the socket.
  predicate Breaks(st: State, call: Call) {
    match call
    case Opening(_) => false
    case Closing(s, closed) => InUse(st, s) && !closed
    case ClosingSocket(s, closed) => InUse(st, s) && closed
  }

  // One call keeps the correspondence exactly when it is neither.
  lemma StepKeepsPairsExactlyWhen(st: State, call: Call)
    requires Paired(st.files, st.open) && Possible(st, call)
    ensures Paired(Step(st, call).files, Step(st, call).open) <==> !Breaks(st, call)
  {
    match call
    case Opening(answer) =>
      var slot := FreeSlot(st.files);
      if answer != -1 && slot.Some? {
        OpenKeepsPairs(st.files, st.open, slot.value, answer);
      }
    case Closing(s, closed) =>
      if InUse(st, s) {
        if closed {
          CloseKeepsPairs(st.files, st.open, s);
        } else {
          OrphanBreaksPairs(st, s);
        }
      }
    case ClosingSocket(s, closed) =>
  }

  lemma OrphanBreaksPairs(st: State, s: int)
    requires Paired(st.files, st.open) && InUse(st, s)
    ensures Orphan(Step(st, Closing(s, false)), st.files[s].fsPrivFd)
  {
  }

  // An open socket that no slot in use has.
  predicate Orphan(st: State, fd: int) {
    && fd in st.open
    && forall i :: 0 <= i < |st.files| && st.files[i].used ==> st.files[i].fsPrivFd != fd
  }

  function Run(st: State, calls: seq<Call>): State {
    if calls == [] then st else Step(Run(st, calls[..|calls| - 1]), calls[|calls| - 1])
  }

  predicate PossibleRun(st: State, calls: seq<Call>) {
    forall i :: 0 <= i < |calls| ==> Possible(Run(st, calls[..i]), calls[i])
  }

  lemma PossiblePrefix(st: State, calls: seq<Call>, n: nat)
    requires PossibleRun(st, calls) && n <= |calls|
    ensures PossibleRun(st, calls[..n])
  {
    forall i | 0 <= i < n
      ensures Possible(Run(st, calls[..n][..i]), calls[..n][i])
    {
      assert calls[..n][..i] == calls[..i];
      assert Possible(Run(st, calls[..i]), calls[i]);
    }
  }

  // Over any run none of whose calls is one of the two that break it, calls
  // that fail to open included, slots and sockets stay paired.
  lemma {:induction false} RunKeepsPairs(st: State, calls: seq<Call>)
    requires Paired(st.files, st.open) && PossibleRun(st, calls)
    requires forall i :: 0 <= i < |calls| ==> !Breaks(Run(st, calls[..i]), calls[i])
    ensures Paired(Run(st, calls).files, Run(st, calls).open)
  {
    if calls != [] {
      var n := |calls| - 1;
      PossiblePrefix(st, calls, n);
      forall i | 0 <= i < n
        ensures !Breaks(Run(st, calls[..n][..i]), calls[..n][i])
      {
        assert calls[..n][..i] == calls[..i];
        assert !Breaks(Run(st, calls[..i]), calls[i]);
      }
      RunKeepsPairs(st, calls[..n]);
      assert Possible(Run(st, calls[..n]), calls[n]) && !Breaks(Run(st, calls[..n]), calls[n]);
      StepKeepsPairsExactlyWhen(Run(st, calls[..n]), calls[n]);
    }
  }

  // A socket whose close lwIP refused is lost: whatever is called afterwards,
  // it stays open without a slot.
  lemma {:induction false} RefusedCloseLeaksForGood(st: State, s: int, calls: seq<Call>)
    requires Paired(st.files, st.open) && InUse(st, s)
    requires PossibleRun(Step(st, Closing(s, false)), calls)
    ensures var now := Run(Step(st, Closing(s, false)), calls);
            Orphan(now, st.files[s].fsPrivFd) && !Paired(now.files, now.open)
  {
    var after := Step(st, Closing(s, false));
    if calls == [] {
      OrphanBreaksPairs(st, s);
    } else {
      var n := |calls| - 1;
      PossiblePrefix(after, calls, n);
      RefusedCloseLeaksForGood(st, s, calls[..n]);
      assert Possible(Run(after, calls[..n]), calls[n]);
      OrphanStays(Run(after, calls[..n]), calls[n], st.files[s].fsPrivFd);
    }
  }

  lemma OrphanStays(st: State, call: Call, fd: int)
    requires Orphan(st, fd) && Possible(st, call)
    ensures Orphan(Step(st, call), fd) && !Paired(Step(st, call).files, Step(st, call).open)
  {
  }

  // With the macro, a descriptor lwIP uses again ends up behind two slots.
  lemma MacroSharesDescriptor(st: State, s: nat, calls: seq<Call>)
    requires Paired(st.files, st.open) && InUse(st, s) && FreeSlot(st.files).Some? && st.files[s].fsPrivFd >= 0
    requires calls == [ClosingSocket(s, true), Opening(st.files[s].fsPrivFd)]
    ensures PossibleRun(st, calls)
    ensures exists i, j :: 0 <= i < j < |st.files| && Run(st, calls).files[i].used && Run(st, calls).files[j].used &&
              Run(st, calls).files[i].fsPrivFd == Run(st, calls).files[j].fsPrivFd
  {
    var fd, slot := st.files[s].fsPrivFd, FreeSlot(st.files).value;
    assert calls[..0] == [] && calls[..1] == [ClosingSocket(s, true)] && calls[..1][..0] == [];
    assert Run(st, calls[..1]) == State(st.files, st.open - {fd});
    var now := Run(st, calls);
    assert now.files == st.files[slot := File(true, fd)];
    assert now.files[s].fsPrivFd == now.files[slot].fsPrivFd == fd;
    if s < slot {
      assert now.files[s].used && now.files[slot].used;
    } else {
      assert slot < s && now.files[slot].used && now.files[s].used;
    }
  }

  // ---- the code ----

  class Table {
    const files: array<File>
    ghost var open: set<int>  // lwIP's open sockets

    ghost predicate Valid()
      reads this, files
    {
      Paired(files[..], open)
    }

    ghost function Current(): State
      reads this, files
    {
      State(files[..], open)
    }

    constructor (n: nat)
      ensures Valid() && open == {} && files.Length == n && fresh(files)
    {
      files := new File[n](_ => File(false, 0));
      open := {};
    }

    // uosFileAlloc: the first free slot, or -1.
    method FileAlloc() returns (slot: int)
      modifies files
      ensures slot == -1 ==> FreeSlot(old(files[..])) == None && files[..] == old(files[..])
      ensures slot != -1 ==> FreeSlot(old(files[..])) == Some(slot)
      ensures slot != -1 ==> files[..] == old(files[..])[slot := old(files[..])[slot].(used := true)]
    {
      slot := 0;
      while slot < files.Length
        invariant 0 <= slot <= files.Length && files[..] == old(files[..])
        invariant forall i :: 0 <= i < slot ==> files[..][i].used
      {
        if !files[slot].used {
          files[slot] := files[slot].(used := true);
          return;
        }
        slot := slot + 1;
      }
      slot := -1;
    }

    // socket() and accept(), which differ in the lwIP call only: `sock` is its
    // answer.
    method Open(sock: int) returns (s: int)
      requires Answers(sock, open)
      modifies this, files
      ensures Current() == Step(old(Current()), Opening(sock)) && (old(Valid()) ==> Valid())
      ensures s == -1 <==> sock == -1 || FreeSlot(old(files[..])) == None
      ensures s == -1 ==> files[..] == old(files[..]) && open == old(open)
      ensures s != -1 ==>
                && 0 <= s < files.Length && !old(files[s].used) && sock != -1 && open == old(open) + {sock}
                && files[..] == old(files[..])[s := File(true, sock)]
    {
      if Valid() {
        StepKeepsPairsExactlyWhen(Current(), Opening(sock));
      }
      var file := FileAlloc();
      if file == -1 {
        return -1;
      }
      if sock == -1 {
        files[file] := files[file].(used := false);  // uosFileFree
        assert files[..] == old(files[..]);
        return -1;
      }
      open := open + {sock};
      files[file] := files[file].(fsPrivFd := sock);
      assert files[..] == old(files[..])[file := File(true, sock)];
      s := file;
    }

    // netLwIP_FD of a slot in use: no other slot has its descriptor.
    method Fd(s: nat) returns (fd: int)
      requires Valid() && s < files.Length && files[s].used
      ensures fd in open && fd == files[s].fsPrivFd
      ensures forall i :: 0 <= i < files.Length && files[i].used && files[i].fsPrivFd == fd ==> i == s
    {
      fd := files[s].fsPrivFd;
      assert files[..][s].used;
      assert forall i :: 0 <= i < files.Length ==> files[..][i] == files[i];
    }

    // sockClose, which goes on whatever lwip_close answers.
    method Close(file: nat, closed: bool)
      requires file < files.Length && files[file].used
      requires closed ==> files[file].fsPrivFd in open
      modifies this, files
      ensures Current() == Step(old(Current()), Closing(file, closed))
      ensures files[..] == old(files[..])[file := File(false, old(files[file].fsPrivFd))]
      ensures open == if closed then old(open) - {old(files[file].fsPrivFd)} else old(open)
      ensures old(Valid()) ==> (Valid() <==> closed)
    {
      if Valid() {
        StepKeepsPairsExactlyWhen(Current(), Closing(file, closed));
      }
      var sock := files[file].fsPrivFd;
      open := Closed(open, sock, closed);
      files[file] := files[file].(used := false);
    }

    // The closesocket macro of include/picoos-lwip.h.
    method CloseSocket(s: nat, closed: bool)
      requires Valid() && s < files.Length && files[s].used
      modifies this
      ensures Current() == Step(old(Current()), ClosingSocket(s, closed))
      ensures files[..] == old(files[..])
      ensures open == if closed then old(open) - {files[s].fsPrivFd} else old(open)
      ensures Valid() <==> !closed
    {
      StepKeepsPairsExactlyWhen(Current(), ClosingSocket(s, closed));
      var sock := Fd(s);
      open := Closed(open, sock, closed);
    }
  }
}
