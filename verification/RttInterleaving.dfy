/**
 The up channel under concurrency: the target's `rtt_write` (segger/segger_rtt.cc) interleaved,
 memory access by memory access, with a host that moves the volatile read offset on its own.

 Target-side calls are serialised by the critical sections around them, so there is one writer.
 The host loads the write offset, copies bytes out one by one and releases any number of the
 bytes it copied by moving the read offset over them.
 */
module RttInterleaving {
  import opened Numbers
  import opened SeggerRtt

  /** Where the target is inside `rtt_write`. */
  datatype Target =
    | Idle
    | Called(data: seq<Byte>)
    | Copying(data: seq<Byte>, readOffset: nat, done: nat)

  datatype Host =
    | Waiting
    | Taking(writeOffset: nat, bytes: seq<Byte>)

  /**
   `accepted` and `consumed` record history: the bytes that returned writes reported as written,
   and the bytes the host has released.  No step reads them.
   */
  datatype System = System(ring: Ring, target: Target, host: Host, accepted: seq<Byte>, consumed: seq<Byte>)

  datatype Action =
    | Call(data: seq<Byte>)
    | LoadReadOffset
    | CopyByte
    | PublishWrite
    | HostLoad
    | HostCopyByte
    | HostRelease

  /** The sizes of the two pieces `rtt_write` computes from its snapshot of the read offset. */
  function Pieces(ring: Ring, readOffset: nat, request: nat): (nat, nat)
    requires ring.Valid() && readOffset < |ring.cells|
  {
    var writeAvail := RttWriteAvail(readOffset, ring.write, |ring.cells|);
    var linear := Min(Min(writeAvail, |ring.cells| - ring.write), request);
    (linear, Min(request - linear, writeAvail - linear))
  }

  /** The cell that receives byte number `i` of the request. */
  function TargetCell(ring: Ring, linear: nat, i: nat): nat {
    if i < linear then ring.write + i else i - linear
  }

  /** Store the next byte of the request, if any is left. */
  function TargetCopy(s: System): System
    requires Inv(s) && s.target.Copying?
  {
    var (linear, remain) := Pieces(s.ring, s.target.readOffset, |s.target.data|);
    if s.target.done >= linear + remain then s
    else
      PiecesAgree(s.ring, s.target.readOffset, |s.target.data|);
      var cell := TargetCell(s.ring, linear, s.target.done);
      s.(ring := s.ring.(cells := s.ring.cells[cell := s.target.data[s.target.done]]),
         target := s.target.(done := s.target.done + 1))
  }

  /** Once everything is stored, move the write offset and return the count. */
  function TargetPublish(s: System): System
    requires Inv(s) && s.target.Copying?
  {
    var (linear, remain) := Pieces(s.ring, s.target.readOffset, |s.target.data|);
    if s.target.done < linear + remain then s
    else
      PiecesAgree(s.ring, s.target.readOffset, |s.target.data|);
      s.(ring := s.ring.(write := NextOffset(s.ring.write, |s.ring.cells|, linear, remain)), target := Idle,
         accepted := s.accepted + s.target.data[..linear + remain])
  }

  /** The host copies out the next byte below the write offset it loaded. */
  function HostCopy(s: System): System
    requires Inv(s) && s.host.Taking?
  {
    if |s.host.bytes| >= UsedBetween(s.ring.read, s.host.writeOffset, |s.ring.cells|) then s
    else s.(host := s.host.(bytes := s.host.bytes + [s.ring.cells[s.ring.After(s.ring.read, |s.host.bytes|)]]))
  }

  /** The host moves the read offset over the bytes it copied. */
  function Release(s: System): System
    requires Inv(s) && s.host.Taking?
  {
    s.(ring := s.ring.(read := s.ring.After(s.ring.read, |s.host.bytes|)), host := Waiting,
       consumed := s.consumed + s.host.bytes)
  }

  /** Actions that are not enabled leave the system as it is. */
  function Exec(s: System, action: Action): System
    requires Inv(s)
  {
    match action
    case Call(data) => if s.target.Idle? then s.(target := Called(data)) else s
    case LoadReadOffset => if s.target.Called? then s.(target := Copying(s.target.data, s.ring.read, 0)) else s
    case CopyByte => if s.target.Copying? then TargetCopy(s) else s
    case PublishWrite => if s.target.Copying? then TargetPublish(s) else s
    case HostLoad => if s.host.Waiting? then s.(host := Taking(s.ring.write, [])) else s
    case HostCopyByte => if s.host.Taking? then HostCopy(s) else s
    case HostRelease => if s.host.Taking? then Release(s) else s
  }

  function Start(cells: seq<Byte>): System
    requires 0 < |cells| <= MAX_LENGTH
  {
    System(Ring(cells, 0, 0), Idle, Waiting, [], [])
  }

  ghost function Run(s: System, actions: seq<Action>): System
    requires Inv(s)
    ensures Inv(Run(s, actions))
    decreases |actions|
  {
    if actions == [] then s
    else
      ExecKeepsInv(s, actions[0]);
      Run(Exec(s, actions[0]), actions[1..])
  }

  // ----- The invariant -----

  /** Bytes stored but not yet published sit in the cells after the write offset. */
  ghost predicate TargetInv(s: System)
    requires s.ring.Valid()
  {
    s.target.Copying? ==>
      && s.target.readOffset < |s.ring.cells|
      && s.ring.Used() <= UsedBetween(s.target.readOffset, s.ring.write, |s.ring.cells|)
      && s.target.done <= Accepting(s)
      && forall i :: 0 <= i < s.target.done ==> s.ring.cells[s.ring.After(s.ring.write, i)] == s.target.data[i]
  }

  /** How many bytes the write in progress accepts: what was free when it looked. */
  ghost function Accepting(s: System): nat
    requires s.ring.Valid() && s.target.Copying? && s.target.readOffset < |s.ring.cells|
  {
    Min(|s.target.data|, |s.ring.cells| - 1 - UsedBetween(s.target.readOffset, s.ring.write, |s.ring.cells|))
  }

  /** What the host has copied out is the oldest part of what is pending. */
  ghost predicate HostInv(s: System)
    requires s.ring.Valid()
  {
    s.host.Taking? ==>
      && s.host.writeOffset < |s.ring.cells|
      && |s.host.bytes| <= UsedBetween(s.ring.read, s.host.writeOffset, |s.ring.cells|) <= s.ring.Used()
      && s.host.bytes == s.ring.Pending()[..|s.host.bytes|]
  }

  ghost predicate Inv(s: System) {
    && s.ring.Valid()
    && s.consumed + s.ring.Pending() == s.accepted
    && TargetInv(s)
    && HostInv(s)
  }

  /** The two pieces are one cyclic run of cells after the write offset. */
  lemma PiecesAgree(ring: Ring, readOffset: nat, request: nat)
    requires ring.Valid() && readOffset < |ring.cells|
    ensures var (linear, remain) := Pieces(ring, readOffset, request);
            && linear + remain == Min(request, |ring.cells| - 1 - UsedBetween(readOffset, ring.write, |ring.cells|))
            && NextOffset(ring.write, |ring.cells|, linear, remain) == ring.After(ring.write, linear + remain)
            && forall i :: 0 <= i < linear + remain ==> TargetCell(ring, linear, i) == ring.After(ring.write, i)
  {
    var snapshot := ring.(read := readOffset);
    WriteAvailIsFree(snapshot);
    TwoPieceSizes(ring.write, |ring.cells|, snapshot.Free(), request);
  }

  /** `TargetCopy` without the two pieces. */
  lemma TargetCopyIs(s: System)
    requires Inv(s) && s.target.Copying?
    ensures TargetCopy(s) ==
            if s.target.done >= Accepting(s) then s
            else s.(ring := s.ring.(cells := s.ring.cells[s.ring.After(s.ring.write,
                s.target.done) := s.target.data[s.target.done]]),
                    target := s.target.(done := s.target.done + 1))
  {
    PiecesAgree(s.ring, s.target.readOffset, |s.target.data|);
  }

  /** `TargetPublish` without the two pieces. */
  lemma TargetPublishIs(s: System)
    requires Inv(s) && s.target.Copying?
    ensures var n := Accepting(s);
            TargetPublish(s) ==
            if s.target.done < n then s
            else s.(ring := s.ring.(write := s.ring.After(s.ring.write, n)), target := Idle,
                    accepted := s.accepted + s.target.data[..n])
  {
    PiecesAgree(s.ring, s.target.readOffset, |s.target.data|);
  }

  lemma PendingAt(ring: Ring, i: nat)
    requires ring.Valid() && i < ring.Used()
    ensures |ring.Pending()| == ring.Used()
    ensures ring.Pending()[i] == ring.cells[ring.After(ring.read, i)]
  {
  }

  /** Two rings with the same offsets agree on what is pending when they agree on the pending cells. */
  lemma SamePending(a: Ring, b: Ring)
    requires a.Valid() && b.Valid() && |a.cells| == |b.cells| && a.read == b.read && a.write == b.write
    requires forall i :: 0 <= i < a.Used() ==> a.cells[a.After(a.read, i)] == b.cells[b.After(b.read, i)]
    ensures a.Pending() == b.Pending()
  {
    forall i | 0 <= i < a.Used()
      ensures a.Pending()[i] == b.Pending()[i]
    {
      PendingAt(a, i);
      PendingAt(b, i);
    }
    assert a.Pending() == b.Pending();
  }

  /** A byte stored by the target goes to a cell that holds no published, unread byte. */
  lemma CopyKeepsPending(s: System)
    requires Inv(s) && s.target.Copying? && s.target.done < Accepting(s)
    ensures var ring' := s.ring.(cells := s.ring.cells[s.ring.After(s.ring.write,
                                                                    s.target.done) := s.target.data[s.target.done]]);
            ring'.Valid() && ring'.Pending() == s.ring.Pending()
  {
    var cell := s.ring.After(s.ring.write, s.target.done);
    var ring' := s.ring.(cells := s.ring.cells[cell := s.target.data[s.target.done]]);
    assert forall i :: 0 <= i < s.ring.Used() ==> s.ring.After(s.ring.read, i) != cell;
    SamePending(s.ring, ring');
  }

  /** Publishing appends what was stored. */
  lemma PublishAppends(s: System)
    requires Inv(s) && s.target.Copying? && s.target.done == Accepting(s)
    ensures var n := Accepting(s);
            var ring' := s.ring.(write := s.ring.After(s.ring.write, n));
            && ring'.Valid()
            && ring'.Pending() == s.ring.Pending() + s.target.data[..n]
            && ring'.Used() == s.ring.Used() + n
  {
    var n := Accepting(s);
    var ring' := s.ring.(write := s.ring.After(s.ring.write, n));
    UsedGrows(s.ring, n);
    PendingLength(ring');
    PendingLength(s.ring);
    forall i | 0 <= i < ring'.Used()
      ensures ring'.Pending()[i] == (s.ring.Pending() + s.target.data[..n])[i]
    {
      PendingAt(ring', i);
      if i < s.ring.Used() {
        PendingAt(s.ring, i);
      } else {
        BehindUsed(s.ring, i);
      }
      hide UsedBetween, Ring.Pending, HostInv;
    }
  }

  /** More bytes between the offsets. */
  lemma UsedGrows(ring: Ring, n: nat)
    requires ring.Valid() && n <= ring.Free()
    ensures var ring' := ring.(write := ring.After(ring.write, n));
            ring'.Valid() && ring'.Used() == ring.Used() + n < |ring.cells|
  {
  }

  /** The cells behind the pending bytes begin at the write offset. */
  lemma BehindUsed(ring: Ring, i: nat)
    requires ring.Valid() && ring.Used() <= i < |ring.cells|
    ensures ring.After(ring.read, i) == ring.After(ring.write, i - ring.Used())
  {
  }

  /** Releasing removes the oldest bytes, and only the bytes the host has copied. */
  lemma ReleaseRemoves(s: System)
    requires Inv(s) && s.host.Taking?
    ensures var n := |s.host.bytes|;
            var ring' := s.ring.(read := s.ring.After(s.ring.read, n));
            && ring'.Valid()
            && ring'.Pending() == s.ring.Pending()[n..]
            && ring'.Used() == s.ring.Used() - n
  {
    assert |s.host.bytes| <= s.ring.Used();
    GetManyTakes(s.ring, |s.host.bytes|);
    GetManySlices(s.ring, |s.host.bytes|);
    UsedShrinks(s.ring, |s.host.bytes|);
  }

  /** Fewer bytes between the offsets. */
  lemma UsedShrinks(ring: Ring, n: nat)
    requires ring.Valid() && n <= ring.Used()
    ensures var ring' := ring.(read := ring.After(ring.read, n));
            ring'.Valid() && ring'.Used() == ring.Used() - n
  {
  }

  /** Every step of either side keeps the invariant. */
  lemma ExecKeepsInv(s: System, action: Action)
    requires Inv(s)
    ensures Inv(Exec(s, action))
  {
    match action
    case Call(data) =>
    case LoadReadOffset =>
    case CopyByte => if s.target.Copying? { TargetCopyKeepsInv(s); }
    case PublishWrite => if s.target.Copying? { TargetPublishKeepsInv(s); }
    case HostLoad =>
    case HostCopyByte => if s.host.Taking? { HostCopyKeepsInv(s); }
    case HostRelease => if s.host.Taking? { ReleaseKeepsInv(s); }
  }

  lemma ReleaseKeepsInv(s: System)
    requires Inv(s) && s.host.Taking?
    ensures Inv(Release(s))
  {
    ReleaseRemoves(s);
    var n := |s.host.bytes|;
    assert s.ring.Pending() == s.ring.Pending()[..n] + s.ring.Pending()[n..];
    assert s.consumed + s.host.bytes + s.ring.Pending()[n..] == s.consumed + s.ring.Pending();
  }

  lemma TargetCopyKeepsInv(s: System)
    requires Inv(s) && s.target.Copying?
    ensures Inv(TargetCopy(s))
  {
    TargetCopyIs(s);
    if s.target.done < Accepting(s) {
      CopyKeepsPending(s);
      StoredGrows(s);
      TargetInvGrows(s);
      hide TargetCopy, UsedBetween, Ring.Pending;
      HostInvGrows(s, TargetCopy(s));
    }
  }

  /** One more byte is stored. */
  lemma TargetInvGrows(s: System)
    requires Inv(s) && s.target.Copying? && s.target.done < Accepting(s)
    requires var cells' := s.ring.cells[s.ring.After(s.ring.write, s.target.done) := s.target.data[s.target.done]];
             forall i :: 0 <= i <= s.target.done ==> cells'[s.ring.After(s.ring.write, i)] == s.target.data[i]
    ensures var cells' := s.ring.cells[s.ring.After(s.ring.write, s.target.done) := s.target.data[s.target.done]];
            var s' := s.(ring := s.ring.(cells := cells'), target := s.target.(done := s.target.done + 1));
            s'.ring.Valid() && s'.ring.Used() == s.ring.Used() && TargetInv(s')
  {
    hide UsedBetween;
  }

  /** The host does not notice when bytes are added behind what is pending. */
  lemma HostInvGrows(s: System, s': System)
    requires s.ring.Valid() && HostInv(s) && s'.ring.Valid() && s'.host == s.host
    requires s'.ring.read == s.ring.read && |s'.ring.cells| == |s.ring.cells|
    requires s.ring.Used() <= s'.ring.Used() && s.ring.Pending() <= s'.ring.Pending()
    ensures HostInv(s')
  {
    PendingLength(s.ring);
    hide UsedBetween, Ring.Pending;
    if s.host.Taking? {
      assert s'.ring.Pending()[..|s.host.bytes|] == s.ring.Pending()[..|s.host.bytes|];
    }
  }

  lemma PendingLength(ring: Ring)
    requires ring.Valid()
    ensures |ring.Pending()| == ring.Used()
  {
  }

  lemma StoredGrows(s: System)
    requires s.ring.Valid() && s.target.Copying? && s.target.readOffset < |s.ring.cells|
    requires s.target.done < Accepting(s)
    requires forall i :: 0 <= i < s.target.done ==> s.ring.cells[s.ring.After(s.ring.write, i)] == s.target.data[i]
    ensures var cells' := s.ring.cells[s.ring.After(s.ring.write, s.target.done) := s.target.data[s.target.done]];
            forall i :: 0 <= i <= s.target.done ==> cells'[s.ring.After(s.ring.write, i)] == s.target.data[i]
  {
  }

  lemma TargetPublishKeepsInv(s: System)
    requires Inv(s) && s.target.Copying?
    ensures Inv(TargetPublish(s))
  {
    hide *;
    InvParts(s);
    TargetPublishIs(s);
    if s.target.done == Accepting(s) {
      PublishAppends(s);
      var pending, added := s.ring.Pending(), s.target.data[..Accepting(s)];
      assert s.consumed + (pending + added) == s.accepted + added;
      HostInvGrows(s, TargetPublish(s));
      InvWhole(TargetPublish(s));
    }
  }

  lemma InvParts(s: System)
    requires Inv(s)
    ensures s.ring.Valid() && s.consumed + s.ring.Pending() == s.accepted && HostInv(s)
    ensures s.target.Copying? ==>
              s.target.readOffset < |s.ring.cells| && s.target.done <= Accepting(s) <= |s.target.data|
  {
  }

  lemma InvWhole(s: System)
    requires s.ring.Valid() && s.consumed + s.ring.Pending() == s.accepted && HostInv(s) && s.target.Idle?
    ensures Inv(s)
  {
  }

  lemma HostCopyKeepsInv(s: System)
    requires Inv(s) && s.host.Taking?
    ensures Inv(HostCopy(s))
  {
    if |s.host.bytes| < UsedBetween(s.ring.read, s.host.writeOffset, |s.ring.cells|) {
      PendingAt(s.ring, |s.host.bytes|);
    }
  }

  // ----- What holds over all runs -----

  /** Whatever the interleaving: released bytes followed by pending bytes are the accepted bytes. */
  lemma FifoOverAllRuns(cells: seq<Byte>, actions: seq<Action>)
    requires 0 < |cells| <= MAX_LENGTH
    ensures Inv(Start(cells))
    ensures var s := Run(Start(cells), actions);
            && s.consumed + s.ring.Pending() == s.accepted
            && s.ring.write < |s.ring.cells|
            && (s.host.Taking? ==> s.consumed + s.host.bytes <= s.accepted)
  {
    var s := Run(Start(cells), actions);
    if s.host.Taking? {
      assert s.consumed + s.host.bytes == s.accepted[..|s.consumed| + |s.host.bytes|];
    }
  }

  /** In every reachable state, no step changes a cell that holds a published, unread byte. */
  lemma UnreadBytesAreNeverOverwritten(cells: seq<Byte>, actions: seq<Action>, action: Action, i: nat)
    requires 0 < |cells| <= MAX_LENGTH
    requires i < Run(Start(cells), actions).ring.Used()
    ensures var s := Run(Start(cells), actions);
            var cell := s.ring.After(s.ring.read, i);
            Exec(s, action).ring.cells[cell] == s.ring.cells[cell]
  {
    var s := Run(Start(cells), actions);
    if s.target.Copying? {
      TargetCopyIs(s);
    }
  }

  /** A write in progress accepts what fitted when it looked, however far the host moves meanwhile. */
  lemma AcceptedCount(s: System, actions: seq<Action>, data: seq<Byte>)
    requires Inv(s) && s.target == Called(data)
    requires forall a :: a in actions ==> !a.PublishWrite?
    ensures var s' := Run(Exec(s, LoadReadOffset), actions);
            && s'.target.Copying?
            && Accepting(s') == Min(|data|, s.ring.Free())
            && s'.accepted == s.accepted
            && (s'.target.done == Accepting(s') ==>
                  && Exec(s', PublishWrite).accepted == s.accepted + data[..Accepting(s')]
                  && Exec(s', PublishWrite).target.Idle?)
  {
    var loaded := Exec(s, LoadReadOffset);
    CopyingPersists(loaded, actions);
    TargetPublishIs(Run(loaded, actions));
  }

  /** `s'` is still in the write that `s` was in. */
  ghost predicate SameWrite(s: System, s': System)
    requires s.target.Copying?
  {
    && s'.target.Copying?
    && s'.target.data == s.target.data && s'.target.readOffset == s.target.readOffset
    && s'.ring.write == s.ring.write && |s'.ring.cells| == |s.ring.cells|
    && s'.accepted == s.accepted
  }

  lemma StepInSameWrite(s: System, action: Action)
    requires Inv(s) && s.target.Copying? && !action.PublishWrite?
    ensures SameWrite(s, Exec(s, action))
  {
    if action.CopyByte? {
      TargetCopyIs(s);
    }
  }

  lemma {:induction false} CopyingPersists(s: System, actions: seq<Action>)
    requires Inv(s) && s.target.Copying?
    requires forall a :: a in actions ==> !a.PublishWrite?
    ensures SameWrite(s, Run(s, actions))
    decreases |actions|
  {
    if actions != [] {
      ExecKeepsInv(s, actions[0]);
      StepInSameWrite(s, actions[0]);
      CopyingPersists(Exec(s, actions[0]), actions[1..]);
    }
  }

  function Copies(k: nat): seq<Action> {
    seq(k, i => CopyByte)
  }

  /** With the host at rest, the steps of a write fill cell after cell. */
  lemma {:induction false} UninterruptedCopies(s: System, k: nat)
    requires Inv(s) && s.target.Copying? && s.target.done + k == Accepting(s)
    ensures var s' := Run(s, Copies(k));
            && SameWrite(s, s')
            && s'.target.done == Accepting(s)
            && s'.ring.read == s.ring.read
            && OutsideKept(s, s')
    decreases k
  {
    hide *;
    if k > 0 {
      OneCopy(s);
      FirstCopy(s, k);
      UninterruptedCopies(TargetCopy(s), k - 1);
      RunHead(s, CopyByte, Copies(k - 1));
      KeptFurther(s, TargetCopy(s), Run(s, Copies(k)));
    } else {
      NoCopy(s);
    }
  }

  lemma FirstCopy(s: System, k: nat)
    requires Inv(s) && s.target.Copying? && k > 0
    ensures Copies(k) == [CopyByte] + Copies(k - 1) && Exec(s, CopyByte) == TargetCopy(s)
  {
  }

  lemma NoCopy(s: System)
    requires Inv(s) && s.target.Copying?
    ensures Run(s, Copies(0)) == s && SameWrite(s, s) && s.ring.Valid() && s.target.readOffset < |s.ring.cells|
    ensures OutsideKept(s, s)
  {
  }

  lemma KeptFurther(s: System, s': System, s'': System)
    requires s.ring.Valid() && s.target.Copying? && s.target.readOffset < |s.ring.cells|
    requires s'.ring.Valid() && SameWrite(s, s') && SameWrite(s', s'')
    requires OutsideKept(s, s') && OutsideKept(s', s'')
    ensures SameWrite(s, s'') && OutsideKept(s, s'')
    ensures Accepting(s') == Accepting(s)
  {
    forall j | 0 <= j < |s.ring.cells| && s.ring.Distance(s.ring.write, j) >= Accepting(s)
      ensures s''.ring.cells[j] == s.ring.cells[j]
    {
      assert s'.ring.Distance(s'.ring.write, j) == s.ring.Distance(s.ring.write, j);
    }
  }

  /** No cell outside the ones the write accepts bytes into has changed. */
  ghost predicate OutsideKept(s: System, s': System)
    requires s.ring.Valid() && s.target.Copying? && s.target.readOffset < |s.ring.cells|
    requires SameWrite(s, s')
  {
    forall j :: 0 <= j < |s.ring.cells| && s.ring.Distance(s.ring.write, j) >= Accepting(s)
        ==> s'.ring.cells[j] == s.ring.cells[j]
  }

  lemma OneCopy(s: System)
    requires Inv(s) && s.target.Copying? && s.target.done < Accepting(s)
    ensures var s' := TargetCopy(s);
            && Inv(s') && SameWrite(s, s') && OutsideKept(s, s')
            && s'.ring.Valid() && s'.target.readOffset < |s'.ring.cells|
            && s'.ring.read == s.ring.read && s'.target.done == s.target.done + 1
            && Accepting(s') == Accepting(s)
  {
    TargetCopyIs(s);
    TargetCopyKeepsInv(s);
  }

  lemma RunHead(s: System, a: Action, rest: seq<Action>)
    requires Inv(s)
    ensures Inv(Exec(s, a)) && Run(s, [a] + rest) == Run(Exec(s, a), rest)
  {
    ExecKeepsInv(s, a);
    assert ([a] + rest)[1..] == rest;
  }

  /** A finished copy has left the ring with the cells of `Store`. */
  lemma CopiedIsStored(s: System, s': System)
    requires Inv(s) && s.target.Copying? && Inv(s') && SameWrite(s, s') && s'.target.done == Accepting(s)
    requires OutsideKept(s, s') && Accepting(s) <= s.ring.Free()
    ensures s'.ring.cells == Store(s.ring, s.target.data[..Accepting(s)]).cells
  {
    var n := Accepting(s);
    StoreIs(s.ring, s.target.data[..n]);
    var stored := Store(s.ring, s.target.data[..n]).cells;
    hide Store, UsedBetween, Ring.Pending, HostInv;
    forall j | 0 <= j < |s.ring.cells|
      ensures s'.ring.cells[j] == stored[j]
    {
      CopiedCell(s, s', j);
      hide *;
    }
  }

  lemma CopiedCell(s: System, s': System, j: nat)
    requires Inv(s) && s.target.Copying? && Inv(s') && SameWrite(s, s') && s'.target.done == Accepting(s)
    requires OutsideKept(s, s') && j < |s.ring.cells|
    ensures var d := s.ring.Distance(s.ring.write, j);
            s'.ring.cells[j] == if d < Accepting(s) then s.target.data[d] else s.ring.cells[j]
  {
    hide UsedBetween, Ring.Pending, HostInv;
    var d := s.ring.Distance(s.ring.write, j);
    assert s.ring.After(s.ring.write, d) == j;
  }

  /** Left alone, the steps of a write amount to the in-place `rtt_write`. */
  lemma SequentialWrite(s: System, data: seq<Byte>)
    requires Inv(s) && s.target.Idle?
    ensures var n := Min(|data|, s.ring.Free());
            var s' := Run(s, [Call(data)] + ([LoadReadOffset] + (Copies(n) + [PublishWrite])));
            && (s'.ring, n) == PutAll(s.ring, data)
            && s'.accepted == s.accepted + data[..n]
  {
    var n := Min(|data|, s.ring.Free());
    var begun := s.(target := Copying(data, s.ring.read, 0));
    BegunIs(s, data, begun);
    hide *;
    RunHead(s, Call(data), [LoadReadOffset] + (Copies(n) + [PublishWrite]));
    RunHead(Exec(s, Call(data)), LoadReadOffset, Copies(n) + [PublishWrite]);
    RunConcat(begun, Copies(n), [PublishWrite]);
    UninterruptedCopies(begun, n);
    var copied := Run(begun, Copies(n));
    CopiedIsStored(begun, copied);
    PublishStored(begun, copied);
    LastStep(copied);
  }

  lemma BegunIs(s: System, data: seq<Byte>, begun: System)
    requires Inv(s) && s.target.Idle? && begun == s.(target := Copying(data, s.ring.read, 0))
    ensures Inv(begun) && Inv(Exec(s, Call(data))) && Exec(Exec(s, Call(data)), LoadReadOffset) == begun
    ensures begun.ring.Valid() && begun.target.readOffset < |begun.ring.cells|
    ensures 0 <= Accepting(begun) == Min(|data|, s.ring.Free()) <= s.ring.Free()
  {
  }

  lemma LastStep(s: System)
    requires Inv(s) && s.target.Copying?
    ensures Run(s, [PublishWrite]) == TargetPublish(s)
  {
    RunHead(s, PublishWrite, []);
    assert [PublishWrite] + [] == [PublishWrite];
  }

  lemma PublishStored(begun: System, copied: System)
    requires Inv(begun) && begun.target.Copying? && Inv(copied) && SameWrite(begun, copied)
    requires begun.target.readOffset == begun.ring.read == copied.ring.read
    requires copied.target.done == Accepting(begun)
    requires copied.ring.cells == Store(begun.ring, begun.target.data[..Accepting(begun)]).cells
    ensures (TargetPublish(copied).ring, Accepting(begun)) == PutAll(begun.ring, begun.target.data)
    ensures TargetPublish(copied).accepted == begun.accepted + begun.target.data[..Accepting(begun)]
  {
    hide *;
    AcceptsTheSame(begun, copied);
    TargetPublishIs(copied);
    PutAllStores(begun.ring, begun.target.data);
    PublishedIsStore(begun.ring, copied.ring, begun.target.data[..Accepting(begun)]);
  }

  lemma AcceptsTheSame(begun: System, copied: System)
    requires Inv(begun) && begun.target.Copying? && Inv(copied) && SameWrite(begun, copied)
    requires begun.target.readOffset == begun.ring.read == copied.ring.read
    ensures begun.ring.Valid() && begun.target.readOffset < |begun.ring.cells|
    ensures copied.ring.Valid() && copied.target.Copying? && copied.target.readOffset < |copied.ring.cells|
    ensures Accepting(copied) == Accepting(begun) == Min(|begun.target.data|, begun.ring.Free())
    ensures 0 <= Accepting(begun) <= begun.ring.Free() && Accepting(begun) <= |begun.target.data|
    ensures copied.ring.write == begun.ring.write && |copied.ring.cells| == |begun.ring.cells|
    ensures copied.accepted == begun.accepted && copied.target.data == begun.target.data
  {
  }

  lemma PublishedIsStore(before: Ring, after: Ring, data: seq<Byte>)
    requires before.Valid() && |data| <= before.Free()
    requires after == Ring(Store(before, data).cells, before.read, before.write)
    ensures after.write < |after.cells| && |data| <= |after.cells|
    ensures after.(write := after.After(after.write, |data|)) == Store(before, data)
  {
  }

  lemma {:induction false} RunConcat(s: System, first: seq<Action>, second: seq<Action>)
    requires Inv(s)
    ensures Run(s, first + second) == Run(Run(s, first), second)
    decreases |first|
  {
    if first == [] {
      assert first + second == second;
    } else {
      ExecKeepsInv(s, first[0]);
      assert (first + second)[1..] == first[1..] + second;
      assert (first + second)[0] == first[0];
      RunConcat(Exec(s, first[0]), first[1..], second);
    }
  }

  // ----- The host, left alone -----

  function HostCopies(k: nat): seq<Action> {
    seq(k, i => HostCopyByte)
  }

  /** With the target at rest, the host takes the oldest bytes, as many as it copies, and frees their cells. */
  lemma HostTakes(s: System, n: nat)
    requires Inv(s) && s.host.Waiting? && n <= s.ring.Used()
    ensures var s' := Run(s, [HostLoad] + (HostCopies(n) + [HostRelease]));
            && s'.ring == s.ring.(read := s.ring.After(s.ring.read, n)) && s'.ring.Valid() && s'.host.Waiting?
            && s'.consumed == s.consumed + s.ring.Pending()[..n] && s'.ring.Pending() == s.ring.Pending()[n..]
            && s'.target == s.target && s'.accepted == s.accepted
  {
    hide *;
    var loaded := s.(host := Taking(s.ring.write, []));
    HostLoads(s, loaded);
    RunHead(s, HostLoad, HostCopies(n) + [HostRelease]);
    RunConcat(loaded, HostCopies(n), [HostRelease]);
    HostCopiesOn(loaded, 0, n);
    var copied := Run(loaded, HostCopies(n));
    ReleaseStep(copied);
    ReleaseRemoves(copied);
    ReleaseIs(copied);
  }

  lemma HostLoads(s: System, loaded: System)
    requires Inv(s) && s.host.Waiting? && loaded == s.(host := Taking(s.ring.write, []))
    ensures Exec(s, HostLoad) == loaded && Inv(loaded) && s.ring.Valid() && |s.ring.Pending()| == s.ring.Used()
  {
    ExecKeepsInv(s, HostLoad);
    PendingLength(s.ring);
  }

  lemma ReleaseIs(s: System)
    requires Inv(s) && s.host.Taking?
    ensures |s.host.bytes| <= |s.ring.cells|
    ensures Release(s) == s.(ring := s.ring.(read := s.ring.After(s.ring.read, |s.host.bytes|)), host := Waiting,
                             consumed := s.consumed + s.host.bytes)
  {
  }

  lemma ReleaseStep(s: System)
    requires Inv(s) && s.host.Taking?
    ensures Run(s, [HostRelease]) == Release(s)
  {
    RunHead(s, HostRelease, []);
    assert [HostRelease] + [] == [HostRelease];
  }

  lemma {:induction false} HostCopiesOn(s: System, done: nat, k: nat)
    requires Inv(s) && s.host.Taking? && s.host.writeOffset == s.ring.write
    requires done + k <= s.ring.Used() && |s.host.bytes| == done && |s.ring.Pending()| == s.ring.Used()
    ensures Run(s, HostCopies(k)) == s.(host := Taking(s.ring.write, s.ring.Pending()[..done + k]))
    decreases k
  {
    if k == 0 {
      assert HostCopies(0) == [];
    } else {
      assert HostCopies(k) == [HostCopyByte] + HostCopies(k - 1);
      OneHostCopy(s);
      var s' := Exec(s, HostCopyByte);
      RunHead(s, HostCopyByte, HostCopies(k - 1));
      hide Exec, Run, Inv, HostCopies, Ring.Pending;
      HostCopiesOn(s', done + 1, k - 1);
    }
  }

  lemma OneHostCopy(s: System)
    requires Inv(s) && s.host.Taking? && s.host.writeOffset == s.ring.write && |s.host.bytes| < s.ring.Used()
    ensures Inv(Exec(s, HostCopyByte))
    ensures Exec(s, HostCopyByte).host.Taking? && Exec(s, HostCopyByte).host.writeOffset == s.ring.write
    ensures Exec(s, HostCopyByte) == s.(host := Exec(s, HostCopyByte).host)
    ensures |Exec(s, HostCopyByte).host.bytes| == |s.host.bytes| + 1
  {
    ExecKeepsInv(s, HostCopyByte);
  }
}
