/**
 The RTT ring buffers of segger/segger_rtt.cc.

 `Ring` is the value of a ring buffer: its cells and two offsets.  One offset is always kept
 unequal from behind by the writer, so a ring of n cells carries at most n - 1 bytes.  The
 functions on `Ring` move one byte at a time; the classes `UpBuffer` and `DownBuffer` copy whole
 pieces in place, as the source does, and are proved equal to the byte-at-a-time fold.
 */
module SeggerRtt {
  import opened Numbers

  type Byte = bv8

  const TWO_TO_THE_32: int := 0x1_0000_0000

  /** `size_t` and `uint32_t` on the 32-bit target. */
  type Word = x: int | 0 <= x < TWO_TO_THE_32

  /** Lengths above 2 GiB do not survive the signed difference; see `WriteAvailExact`. */
  const MAX_LENGTH: int := 0x8000_0000

  function ToWord(x: int): Word {
    x % TWO_TO_THE_32
  }

  function ToSigned(x: Word): int {
    if x < 0x8000_0000 then x else x - TWO_TO_THE_32
  }

  // ----- Offset arithmetic, in the source's 32-bit types -----

  function RttWriteAvail(readOffset: Word, writeOffset: Word, length: Word): Word {
    var delta := ToSigned(ToWord(readOffset - writeOffset));
    if delta > 0 then ToWord(delta - 1) else ToWord(delta + length - 1)
  }

  function RttReadAvail(writeOffset: Word, readOffset: Word, length: Word): Word {
    var delta := ToSigned(ToWord(writeOffset - readOffset));
    if delta <= 0 then ToWord(delta + length) else delta
  }

  /** Bytes between the offsets: the stated convention, in which equal offsets mean empty. */
  function UsedBetween(read: nat, write: nat, length: nat): nat
    requires read < length && write < length
  {
    if read <= write then write - read else write + length - read
  }

  /** The writer's free space is right exactly when the offset difference fits a signed word. */
  lemma WriteAvailExact(read: Word, write: Word, length: Word)
    requires read < length && write < length
    ensures RttWriteAvail(read, write, length) == length - 1 - UsedBetween(read, write, length)
      <==> -0x8000_0000 <= read - write < 0x8000_0000
  {
    var d := read - write;
    assert ToWord(d) == if d < 0 then d + TWO_TO_THE_32 else d;
  }

  /**
   The reader's count follows the convention exactly when the buffer is not empty (and the
   difference fits a signed word): equal offsets are reported as a full `length` of bytes.
   */
  lemma ReadAvailExact(read: Word, write: Word, length: Word)
    requires read < length && write < length
    ensures RttReadAvail(write, read, length) == UsedBetween(read, write, length)
      <==> read != write && -0x8000_0000 <= write - read < 0x8000_0000
  {
    var d := write - read;
    assert ToWord(d) == if d < 0 then d + TWO_TO_THE_32 else d;
  }

  /** A channel without a buffer reports all but one of 2^32 bytes as free, and no byte to read. */
  lemma NoBuffer(offset: Word)
    ensures RttWriteAvail(offset, offset, 0) == 0xFFFF_FFFF && RttReadAvail(offset, offset, 0) == 0
  {
  }

  /** `SEGGER_RTT_WritePending`. */
  function WritePending(read: Word, write: Word, length: Word): Word {
    var pending := ToSigned(ToWord(length - 1 - RttWriteAvail(read, write, length)));
    if pending > 0 then pending else 0
  }

  /** `SEGGER_RTT_ReadPending`. */
  function ReadPending(read: Word, write: Word, length: Word): Word {
    var pending := ToSigned(ToWord(length - 1 - RttReadAvail(write, read, length)));
    if pending > 0 then pending else 0
  }

  lemma WritePendingCounts(read: Word, write: Word, length: Word)
    requires read < length <= MAX_LENGTH && write < length
    ensures WritePending(read, write, length) == UsedBetween(read, write, length)
  {
    WriteAvailExact(read, write, length);
  }

  /**
   `SEGGER_RTT_ReadPending` subtracts the count from the capacity, so it is the number of pending
   bytes only for an empty buffer or one that is exactly half full.
   */
  lemma ReadPendingExact(read: Word, write: Word, length: Word)
    requires read < length <= MAX_LENGTH && write < length
    ensures ReadPending(read, write, length) == UsedBetween(read, write, length)
      <==> read == write || 2 * UsedBetween(read, write, length) == length - 1
    ensures ReadPending(read, write, length) == if read == write then 0
            else length - 1 - UsedBetween(read, write, length)
  {
    FreeReported(read, write, length);
    hide ReadPending;
  }

  /** What is reported is the room that is left; nothing for an empty buffer. */
  lemma FreeReported(read: Word, write: Word, length: Word)
    requires read < length <= MAX_LENGTH && write < length
    ensures ReadPending(read, write, length) == if read == write then 0
            else length - 1 - UsedBetween(read, write, length)
    ensures UsedBetween(read, write, length) < length && (UsedBetween(read, write, length) == 0 <==> read == write)
  {
    if read != write {
      ReadAvailExact(read, write, length);
      hide RttReadAvail;
    }
  }

  /** One byte waits in a ring of sixteen, fourteen are reported. */
  lemma ReadPendingIsNotPending()
    ensures UsedBetween(3, 4, 16) == 1 && ReadPending(3, 4, 16) == 14
  {
  }

  // ----- The value of a ring, one byte at a time -----

  datatype Ring = Ring(cells: seq<Byte>, read: nat, write: nat) {
    ghost predicate Valid() {
      && 0 < |cells| <= MAX_LENGTH
      && read < |cells|
      && write < |cells|
    }

    function Used(): nat
      requires Valid()
    {
      UsedBetween(read, write, |cells|)
    }

    function Free(): nat
      requires Valid()
    {
      |cells| - 1 - Used()
    }

    /** The bytes written and not yet read, oldest first. */
    function Pending(): seq<Byte>
      requires Valid()
    {
      if read <= write then cells[read..write] else cells[read..] + cells[..write]
    }

    /** The offset `n` cells after `start`. */
    function After(start: nat, n: nat): nat
      requires start < |cells| && n <= |cells|
    {
      if start + n < |cells| then start + n else start + n - |cells|
    }

    /** How many cells after `start` the cell `j` comes. */
    function Distance(start: nat, j: nat): nat
      requires start < |cells| && j < |cells|
    {
      if start <= j then j - start else j + |cells| - start
    }
  }

  function PutChar(ring: Ring, value: Byte): (Ring, nat)
    requires ring.Valid()
  {
    if ring.Free() == 0 then (ring, 0)
    else (ring.(cells := ring.cells[ring.write := value], write := ring.After(ring.write, 1)), 1)
  }

  lemma PutCharValid(ring: Ring, value: Byte)
    requires ring.Valid()
    ensures PutChar(ring, value).0.Valid()
  {
  }

  /** Feed every byte to `PutChar`, counting the accepted ones. */
  function PutAll(ring: Ring, data: seq<Byte>): (Ring, nat)
    requires ring.Valid()
    decreases |data|
  {
    if data == [] then (ring, 0)
    else
      var (ring', n) := PutChar(ring, data[0]);
      PutCharValid(ring, data[0]);
      var (ring'', m) := PutAll(ring', data[1..]);
      (ring'', n + m)
  }

  /** The ring after `data` was stored from the write offset on: what the block copies produce. */
  ghost function Store(ring: Ring, data: seq<Byte>): Ring
    requires ring.Valid() && |data| <= ring.Free()
  {
    Ring(seq(|ring.cells|, j requires 0 <= j < |ring.cells| =>
               if ring.Distance(ring.write, j) < |data| then data[ring.Distance(ring.write, j)] else ring.cells[j]),
         ring.read, ring.After(ring.write, |data|))
  }

  /** Storing appends to the queue, leaves the reader's offset and every other cell alone. */
  lemma StoreAppends(ring: Ring, data: seq<Byte>)
    requires ring.Valid() && |data| <= ring.Free()
    ensures Store(ring, data).Valid()
    ensures Store(ring, data).Pending() == ring.Pending() + data
    ensures Store(ring, data).Free() == ring.Free() - |data|
    ensures forall j :: 0 <= j < |ring.cells| && ring.Distance(ring.write, j) >= |data| ==>
              Store(ring, data).cells[j] == ring.cells[j]
  {
    var after := Store(ring, data);
    assert |after.Pending()| == |ring.Pending() + data|;
    forall i | 0 <= i < |after.Pending()|
      ensures after.Pending()[i] == (ring.Pending() + data)[i]
    {
      assert after.Pending()[i] == after.cells[ring.After(ring.read, i)];
      if i < |ring.Pending()| {
        assert ring.Pending()[i] == ring.cells[ring.After(ring.read, i)];
      }
    }
  }

  /** `Store`, cell by cell. */
  lemma StoreIs(ring: Ring, data: seq<Byte>)
    requires ring.Valid() && |data| <= ring.Free()
    ensures var after := Store(ring, data);
            && |after.cells| == |ring.cells| && after.read == ring.read && after.write == ring.After(ring.write, |data|)
            && after.Valid() && |data| < |ring.cells|
            && forall j :: 0 <= j < |ring.cells| ==>
                 var d := ring.Distance(ring.write, j);
                 after.cells[j] == if d < |data| then data[d] else ring.cells[j]
  {
  }

  /** Storing one byte and then the rest is storing them all. */
  lemma StoreStep(ring: Ring, value: Byte, rest: seq<Byte>)
    requires ring.Valid() && 1 + |rest| <= ring.Free()
    ensures PutChar(ring, value).0.Valid() && PutChar(ring, value).0.Free() == ring.Free() - 1
    ensures Store(PutChar(ring, value).0, rest) == Store(ring, [value] + rest)
  {
    var one := PutChar(ring, value).0;
    var a, b := Store(one, rest), Store(ring, [value] + rest);
    assert one.write == ring.After(ring.write, 1);
    forall j | 0 <= j < |ring.cells|
      ensures a.cells[j] == b.cells[j]
    {
      if j == ring.write {
        assert ring.Distance(ring.write, j) == 0;
        assert one.Distance(one.write, j) == |ring.cells| - 1;
      } else {
        assert one.Distance(one.write, j) == ring.Distance(ring.write, j) - 1;
      }
    }
    assert a.cells == b.cells;
  }

  lemma StoreNothing(ring: Ring)
    requires ring.Valid()
    ensures Store(ring, []) == ring
  {
    assert Store(ring, []).cells == ring.cells;
  }

  /** Writing byte by byte accepts the longest prefix that fits and stores exactly that prefix. */
  lemma {:induction false} PutAllStores(ring: Ring, data: seq<Byte>)
    requires ring.Valid()
    ensures var n := Min(|data|, ring.Free());
            PutAll(ring, data) == (Store(ring, data[..n]), n)
    decreases |data|
  {
    var n := Min(|data|, ring.Free());
    StoreNothing(ring);
    if data == [] {
    } else if ring.Free() == 0 {
      PutAllStores(ring, data[1..]);
      assert data[1..][..0] == data[..n];
    } else {
      assert [data[0]] + data[1..][..n - 1] == data[..n];
      StoreStep(ring, data[0], data[1..][..n - 1]);
      PutAllStores(PutChar(ring, data[0]).0, data[1..]);
    }
  }

  /** FIFO for the byte-at-a-time writer. */
  lemma PutAllAppends(ring: Ring, data: seq<Byte>)
    requires ring.Valid()
    ensures var (ring', n) := PutAll(ring, data);
            && ring'.Valid()
            && n == Min(|data|, ring.Free())
            && ring'.Pending() == ring.Pending() + data[..n]
            && ring'.read == ring.read
  {
    PutAllStores(ring, data);
    StoreAppends(ring, data[..Min(|data|, ring.Free())]);
  }

  /**
   Reading one byte.  The source tests its count against zero, but that count is never zero
   (`ReadCount`), so a byte comes back even from an empty ring.
   */
  function GetChar(ring: Ring): (Ring, Byte)
    requires ring.Valid()
  {
    (ring.(read := ring.After(ring.read, 1)), ring.cells[ring.read])
  }

  /** Read `n` bytes one after the other. */
  function GetMany(ring: Ring, n: nat): (Ring, seq<Byte>)
    requires ring.Valid()
    decreases n
  {
    if n == 0 then (ring, [])
    else
      var (ring', value) := GetChar(ring);
      var (ring'', rest) := GetMany(ring', n - 1);
      (ring'', [value] + rest)
  }

  /** The number of bytes the reader believes it can take. */
  function ReadCount(ring: Ring): nat
    requires ring.Valid()
  {
    if ring.Used() == 0 then |ring.cells| else ring.Used()
  }

  lemma {:induction false} GetManySlices(ring: Ring, n: nat)
    requires ring.Valid() && n <= |ring.cells|
    ensures var (ring', bytes) := GetMany(ring, n);
            && ring' == ring.(read := ring.After(ring.read, n))
            && |bytes| == n
            && forall i :: 0 <= i < n ==> bytes[i] == ring.cells[ring.After(ring.read, i)]
    decreases n
  {
    if n > 0 {
      GetManySlices(GetChar(ring).0, n - 1);
    }
  }

  /** From a ring holding at least `n` bytes, the reader removes exactly the oldest `n`. */
  lemma GetManyTakes(ring: Ring, n: nat)
    requires ring.Valid() && n <= ring.Used()
    ensures GetMany(ring, n).1 == ring.Pending()[..n]
    ensures GetMany(ring, n).0.Valid()
    ensures GetMany(ring, n).0.Pending() == ring.Pending()[n..]
  {
    GetManySlices(ring, n);
    assert GetMany(ring, n).1 == ring.Pending()[..n];
  }

  /** What a read request of `request` bytes returns. */
  function ReadRequest(ring: Ring, request: nat): (Ring, seq<Byte>)
    requires ring.Valid()
  {
    GetMany(ring, Min(request, ReadCount(ring)))
  }

  /** A read request returns the oldest queued bytes exactly when there are any, or none are asked for. */
  lemma ReadRequestExact(ring: Ring, request: nat)
    requires ring.Valid()
    ensures ReadRequest(ring, request).1 == ring.Pending()[..Min(request, ring.Used())]
      <==> ring.Used() > 0 || request == 0
  {
    if ring.Used() > 0 {
      GetManyTakes(ring, Min(request, ring.Used()));
    } else {
      GetManySlices(ring, Min(request, |ring.cells|));
    }
  }

  /** An empty ring of four cells hands out four stale bytes, and reading a single byte leaves it looking full. */
  lemma EmptyReadIsStale(a: Byte, b: Byte, c: Byte, d: Byte)
    ensures var ring := Ring([a, b, c, d], 1, 1);
            && ring.Valid() && ring.Pending() == []
            && ReadRequest(ring, 9).1 == [b, c, d, a]
            && GetChar(ring).0.Pending() == [c, d, a]
  {
    var ring := Ring([a, b, c, d], 1, 1);
    GetManySlices(ring, 4);
    assert ReadRequest(ring, 9).1 == [b, c, d, a];
    assert GetChar(ring).0.Pending() == [c, d] + [a];
  }

  function Sum(requests: seq<nat>): nat {
    if requests == [] then 0 else requests[0] + Sum(requests[1..])
  }

  /** A series of read requests; `rtt_getc` is a request for one byte. */
  ghost function Drain(ring: Ring, requests: seq<nat>): (Ring, seq<Byte>)
    requires ring.Valid()
    decreases |requests|
  {
    if requests == [] then (ring, [])
    else
      var (ring', bytes) := ReadRequest(ring, requests[0]);
      GetManyValid(ring, Min(requests[0], ReadCount(ring)));
      var (ring'', rest) := Drain(ring', requests[1..]);
      (ring'', bytes + rest)
  }

  lemma {:induction false} GetManyValid(ring: Ring, n: nat)
    requires ring.Valid()
    ensures GetMany(ring, n).0.Valid()
    decreases n
  {
    if n > 0 {
      GetManyValid(GetChar(ring).0, n - 1);
    }
  }

  /** `GetMany`, unfolded once. */
  lemma GetManyStep(ring: Ring, n: nat)
    requires ring.Valid() && n > 0
    ensures GetChar(ring).0.Valid()
    ensures var (ring', rest) := GetMany(GetChar(ring).0, n - 1);
            GetMany(ring, n) == (ring', [GetChar(ring).1] + rest)
  {
  }

  /** Reading `k` and then `m` bytes is reading `k + m`. */
  lemma {:induction false} GetManyAdd(ring: Ring, k: nat, m: nat)
    requires ring.Valid()
    ensures GetMany(ring, k).0.Valid()
    ensures var (ring', first) := GetMany(ring, k);
            var (ring'', second) := GetMany(ring', m);
            GetMany(ring, k + m) == (ring'', first + second)
    decreases k
  {
    GetManyValid(ring, k);
    if k == 0 {
      assert GetMany(ring, 0) == (ring, []);
      assert [] + GetMany(ring, m).1 == GetMany(ring, m).1;
    } else {
      hide *;
      GetManyStep(ring, k);
      GetManyStep(ring, k + m);
      var next := GetChar(ring).0;
      GetManyAdd(next, k - 1, m);
      var first := GetMany(next, k - 1).1;
      var second := GetMany(GetMany(next, k - 1).0, m).1;
      assert [GetChar(ring).1] + (first + second) == ([GetChar(ring).1] + first) + second;
    }
  }

  /** However a total of at most `Used` bytes is split into reads, the same bytes come out and the same ring remains. */
  lemma {:induction false} DrainIndependentOfSplit(ring: Ring, requests: seq<nat>)
    requires ring.Valid() && Sum(requests) <= ring.Used()
    ensures Drain(ring, requests) == GetMany(ring, Sum(requests))
    ensures Drain(ring, requests).1 == ring.Pending()[..Sum(requests)]
    decreases |requests|
  {
    GetManyTakes(ring, Sum(requests));
    if requests != [] {
      var k := requests[0];
      GetManyTakes(ring, k);
      GetManyAdd(ring, k, Sum(requests[1..]));
      var ring' := GetMany(ring, k).0;
      assert |ring'.Pending()| == ring'.Used();
      assert k == Min(k, ReadCount(ring));
      DrainIndependentOfSplit(ring', requests[1..]);
    }
  }

  // ----- The two pieces of a block copy -----

  /** Where an offset stands after a block copy of two pieces. */
  function NextOffset(offset: nat, length: nat, linear: nat, remain: nat): nat {
    if remain > 0 then remain
    else if offset + linear >= length then 0
    else offset + linear
  }

  /** Split at the end of the cells, `avail` and `request` allow min(request, avail) bytes in all. */
  lemma TwoPieceSizes(offset: nat, length: nat, avail: nat, request: nat)
    requires offset < length && avail <= length
    ensures var linear := Min(Min(avail, length - offset), request);
            var remain := Min(request - linear, avail - linear);
            var n := Min(request, avail);
            && 0 <= linear && 0 <= remain && linear + remain == n && linear == Min(n, length - offset)
            && NextOffset(offset, length, linear, remain) == if offset + n < length then offset + n
               else offset + n - length
  {
  }

  // ----- The in-place buffers -----

  /** `s` with `piece` in place of the cells from `at` on. */
  function Spliced(s: seq<Byte>, at: nat, piece: seq<Byte>): seq<Byte>
    requires at + |piece| <= |s|
  {
    s[..at] + piece + s[at + |piece|..]
  }

  /** `std::copy` between two arrays. */
  method Copy(source: array<Byte>, from: nat, target: array<Byte>, at: nat, count: nat)
    requires source != target
    requires from + count <= source.Length && at + count <= target.Length
    modifies target
    ensures target[..] == Spliced(old(target[..]), at, source[..][from..from + count])
  {
    ghost var was, piece := target[..], source[..];
    for i := 0 to count
      invariant target[..] == Spliced(was, at, piece[from..from + i])
    {
      target[at + i] := source[from + i];
      SplicedStep(was, at, piece, from, i);
    }
  }

  lemma SplicedStep(was: seq<Byte>, at: nat, piece: seq<Byte>, from: nat, i: nat)
    requires from + i < |piece| && at + i < |was|
    ensures Spliced(was, at, piece[from..from + i])[at + i := piece[from + i]]
            == Spliced(was, at, piece[from..from + i + 1])
  {
  }

  lemma SplicedNothing(was: seq<Byte>)
    ensures Spliced(was, 0, []) == was
  {
  }

  lemma SplicedTwice(was: seq<Byte>, first: seq<Byte>, second: seq<Byte>)
    requires |first| + |second| <= |was|
    ensures Spliced(Spliced(was, 0, first), |first|, second) == Spliced(was, 0, first + second)
  {
  }

  lemma SplicedFront(was: seq<Byte>, after: seq<Byte>, piece: seq<Byte>)
    requires |piece| <= |was| && after == Spliced(was, 0, piece)
    ensures after[..|piece|] == piece && after[|piece|..] == was[|piece|..]
  {
  }

  lemma SliceOfPrefix(s: seq<Byte>, n: nat, lo: nat, hi: nat)
    requires lo <= hi <= n <= |s|
    ensures s[..n][lo..hi] == s[lo..hi]
  {
  }

  /** Target to host: the target owns `writeOffset`. */
  class UpBuffer {
    const base: array<Byte>
    var writeOffset: Word
    var readOffset: Word

    function View(): Ring
      reads this, base
    {
      Ring(base[..], readOffset, writeOffset)
    }

    constructor (buffer: array<Byte>)
      requires 0 < buffer.Length <= MAX_LENGTH
      ensures base == buffer && View() == Ring(buffer[..], 0, 0)
      ensures View().Valid() && View().Pending() == []
    {
      base := buffer;
      writeOffset := 0;
      readOffset := 0;
    }

    /** `rtt_write`: at most two block copies, one publication of the write offset. */
    method Write(buffer: array<Byte>, bufferLength: Word) returns (count: Word)
      requires View().Valid() && buffer != base && bufferLength <= buffer.Length
      modifies base, this`writeOffset
      ensures View().Valid()
      ensures (View(), count) == PutAll(old(View()), old(buffer[..bufferLength]))
    {
      ghost var was := View();
      ghost var data := buffer[..bufferLength];
      var write := writeOffset;
      WriteAvailIsFree(was);
      TwoPieceSizes(writeOffset, base.Length, was.Free(), bufferLength);
      hide PutAll, RttWriteAvail, Ring.Free, Ring.Used, Spliced;
      var writeAvail := RttWriteAvail(readOffset, write, base.Length);
      var writeLinear := base.Length - write;
      var availLinear := Min(writeAvail, writeLinear);
      var bufferLinear := Min(availLinear, bufferLength);
      var writeRemain := Min(bufferLength - bufferLinear, writeAvail - bufferLinear);
      ghost var half := CopyIn(buffer, write, bufferLinear, writeRemain, data);

      write := write + bufferLinear;
      count := bufferLinear + writeRemain;
      if writeRemain > 0 {
        write := writeRemain;
      } else if write >= base.Length {
        write := 0;
      }
      writeOffset := write;
      Written(was, half, base[..], data, count, bufferLinear, write);
    }

    /** The block copies of `rtt_write`: a linear piece at the write offset, the remainder at the front. */
    method CopyIn(buffer: array<Byte>, write: nat, linear: nat, remain: nat, ghost data: seq<Byte>)
      returns (ghost half: seq<Byte>)
      requires buffer != base && |data| <= buffer.Length && data == buffer[..][..|data|] && linear + remain <= |data|
      requires write + linear <= base.Length && remain <= base.Length
      modifies base
      ensures half == Spliced(old(base[..]), write, data[..linear])
      ensures base[..] == Spliced(half, 0, data[linear..linear + remain])
    {
      hide Spliced;
      SliceOfPrefix(buffer[..], |data|, 0, linear);
      SliceOfPrefix(buffer[..], |data|, linear, linear + remain);
      Copy(buffer, 0, base, write, linear);
      half := base[..];
      if remain > 0 {
        Copy(buffer, linear, base, 0, remain);
      } else {
        assert data[linear..linear] == [];
        SplicedNothing(half);
      }
    }

    /** Both pieces in place and the offset published: exactly what writing byte by byte gives. */
    static lemma Written(was: Ring, half: seq<Byte>, after: seq<Byte>, data: seq<Byte>, n: nat, linear: nat,
                         offset: nat)
      requires was.Valid() && n == Min(|data|, was.Free())
      requires linear == Min(n, |was.cells| - was.write)
      requires half == Spliced(was.cells, was.write, data[..linear])
      requires after == Spliced(half, 0, data[linear..n])
      requires offset == was.After(was.write, n)
      ensures (Ring(after, was.read, offset), n) == PutAll(was, data)
      ensures Ring(after, was.read, offset).Valid()
    {
      PutAllStores(was, data);
      StoreIs(was, data[..n]);
      var stored := Store(was, data[..n]).cells;
      hide PutAll, Store, Ring.Free, Ring.Used;
      forall j | 0 <= j < |after|
        ensures after[j] == stored[j]
      {
        WrittenCell(was, half, after, data, n, linear, j);
      }
      assert after == stored;
    }

    /** One cell after the two pieces. */
    static lemma WrittenCell(was: Ring, half: seq<Byte>, after: seq<Byte>, data: seq<Byte>, n: nat, linear: nat, j: nat)
      requires was.Valid() && n <= |data| && n < |was.cells| && linear == Min(n, |was.cells| - was.write)
      requires half == Spliced(was.cells, was.write, data[..linear])
      requires after == Spliced(half, 0, data[linear..n])
      requires j < |was.cells|
      ensures |after| == |was.cells|
      ensures var d := was.Distance(was.write, j);
              after[j] == if d < n then data[d] else was.cells[j]
    {
      if j < n - linear {
        assert after[j] == data[linear..n][j];
      } else {
        assert after[j] == half[j];
      }
    }

    /** `rtt_putc`. */
    method PutC(value: Byte) returns (count: Word)
      requires View().Valid()
      modifies base, this`writeOffset
      ensures View().Valid()
      ensures (View(), count) == PutChar(old(View()), value)
    {
      var write := writeOffset;
      WriteAvailExact(readOffset, write, base.Length);
      var writeAvail := RttWriteAvail(readOffset, write, base.Length);
      if writeAvail > 0 {
        base[write] := value;
        write := write + 1;
        if write >= base.Length {
          write := 0;
        }
        writeOffset := write;
        return 1;
      }
      return 0;
    }
  }

  /** Host to target: the target owns `readOffset`. */
  class DownBuffer {
    const base: array<Byte>
    var writeOffset: Word
    var readOffset: Word

    function View(): Ring
      reads this, base
    {
      Ring(base[..], readOffset, writeOffset)
    }

    constructor (buffer: array<Byte>)
      requires 0 < buffer.Length <= MAX_LENGTH
      ensures base == buffer && View() == Ring(buffer[..], 0, 0)
    {
      base := buffer;
      writeOffset := 0;
      readOffset := 0;
    }

    /** `rtt_read`: at most two block copies out, one publication of the read offset. */
    method Read(buffer: array<Byte>, bufferLength: Word) returns (count: Word)
      requires View().Valid() && buffer != base && bufferLength <= buffer.Length
      modifies buffer, this`readOffset
      ensures View().Valid()
      ensures count == Min(bufferLength, ReadCount(old(View())))
      ensures (View(), buffer[..count]) == ReadRequest(old(View()), bufferLength)
      ensures buffer[count..] == old(buffer[count..])
    {
      ghost var was := View();
      var read := readOffset;
      ReadCountComputed(was);
      TwoPieceSizes(readOffset, base.Length, ReadCount(was), bufferLength);
      hide ReadRequest, RttReadAvail, ReadCount, Ring.Valid;
      var readAvail := RttReadAvail(writeOffset, read, base.Length);
      var readLinear := base.Length - read;
      var availLinear := Min(readAvail, readLinear);
      var bufferLinear := Min(availLinear, bufferLength);
      var readRemain := Min(bufferLength - bufferLinear, readAvail - bufferLinear);
      TakeOut(buffer, bufferLength, bufferLinear, readRemain);

      read := read + bufferLinear;
      count := bufferLinear + readRemain;
      if readRemain > 0 {
        read := readRemain;
      } else if read >= base.Length {
        read := 0;
      }
      readOffset := read;
    }

    /** What the block copies hand out is the request. */
    method TakeOut(buffer: array<Byte>, ghost request: nat, linear: nat, remain: nat)
      requires View().Valid() && buffer != base && linear + remain <= buffer.Length
      requires linear + remain == Min(request, ReadCount(View()))
      requires linear == Min(linear + remain, base.Length - readOffset)
      modifies buffer
      ensures View() == old(View())
      ensures ReadRequest(View(), request) == (View().(read := View().After(readOffset, linear + remain)),
                                               buffer[..linear + remain])
      ensures ReadRequest(View(), request).0.Valid()
      ensures buffer[linear + remain..] == old(buffer[linear + remain..])
    {
      ghost var was := View();
      ReadCountComputed(was);
      hide ReadRequest, ReadCount;
      CopyOut(buffer, readOffset, linear, remain);
      TwoPieces(was, request, linear, remain, buffer[..linear + remain]);
    }

    /** The block copies of `rtt_read`: a linear piece from the read offset, the remainder from the front. */
    method CopyOut(buffer: array<Byte>, read: nat, linear: nat, remain: nat)
      requires buffer != base && linear + remain <= buffer.Length
      requires read + linear <= base.Length && remain <= base.Length
      modifies buffer
      ensures buffer[..linear + remain] == base[..][read..read + linear] + base[..][..remain]
      ensures buffer[linear + remain..] == old(buffer[linear + remain..])
      ensures base[..] == old(base[..])
    {
      ghost var was, cells := buffer[..], base[..];
      hide Spliced;
      Copy(base, read, buffer, 0, linear);
      if remain > 0 {
        Copy(base, 0, buffer, linear, remain);
        SplicedTwice(was, cells[read..read + linear], cells[..remain]);
      } else {
        assert cells[read..read + linear] + cells[..0] == cells[read..read + linear];
      }
      SplicedFront(was, buffer[..], cells[read..read + linear] + cells[..remain]);
    }

    /** A piece read up to the end of the cells and a piece from their front make up the request. */
    static lemma TwoPieces(was: Ring, request: nat, linear: nat, remain: nat, bytes: seq<Byte>)
      requires was.Valid()
      requires linear + remain == Min(request, ReadCount(was)) && linear == Min(linear + remain, |was.cells| - was.read)
      requires bytes == was.cells[was.read..was.read + linear] + was.cells[..remain]
      ensures ReadRequest(was, request) == (was.(read := was.After(was.read, linear + remain)), bytes)
      ensures ReadRequest(was, request).0.Valid()
    {
      GetManySlices(was, linear + remain);
      assert GetMany(was, linear + remain).1 == bytes;
    }

    /** `rtt_getc`; the source returns -1 when nothing is available. */
    method GetC() returns (value: int)
      requires View().Valid()
      modifies this`readOffset
      ensures View().Valid()
      ensures View() == GetChar(old(View())).0 && value == GetChar(old(View())).1 as int
      ensures value != -1
    {
      var read := readOffset;
      ReadCountComputed(View());
      var readAvail := RttReadAvail(writeOffset, read, base.Length);
      if readAvail > 0 {
        value := base[read] as int;
        read := read + 1;
        if read >= base.Length {
          read := 0;
        }
        readOffset := read;
        return value;
      }
      return -1;
    }
  }

  /** The 32-bit computation of the writer's free space. */
  lemma WriteAvailIsFree(ring: Ring)
    requires ring.Valid()
    ensures RttWriteAvail(ring.read, ring.write, |ring.cells|) == ring.Free() < |ring.cells|
  {
    WriteAvailExact(ring.read, ring.write, |ring.cells|);
  }

  /** The 32-bit computation of the reader's count. */
  lemma ReadCountComputed(ring: Ring)
    requires ring.Valid()
    ensures RttReadAvail(ring.write, ring.read, |ring.cells|) == ReadCount(ring) <= |ring.cells|
  {
    if ring.read != ring.write {
      ReadAvailExact(ring.read, ring.write, |ring.cells|);
    }
  }
}
