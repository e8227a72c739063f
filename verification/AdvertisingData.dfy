/**
 The advertising buffer of ble/gap_advertising_data.h, the encoders of ble/ltv_encode.{h,cc} that
 fill it, and the iterator that walks a received one.
 */
module AdvertisingData {
  import opened Wrappers
  import opened Ltv

  const DEVICE_ADDRESS: Octet := 0x1B
  const OCTET_LENGTH: nat := 6

  // ----- What each encoder means -----

  datatype Call =
    | Text(tag: Octet, text: seq<Octet>)
    | CString(tag: Octet, chars: seq<Octet>)
    | Address(addressType: Octet, octets: seq<Octet>)
    | Array(tag: Octet, values: seq<nat>, width: nat)

  /** The characters before the terminator. */
  function UpToNul(chars: seq<Octet>): seq<Octet> {
    if chars == [] || chars[0] == 0 then [] else [chars[0]] + UpToNul(chars[1..])
  }

  function Truncate(s: seq<Octet>, n: int): seq<Octet> {
    if n <= 0 then [] else if n < |s| then s[..n] else s
  }

  /** The record an encoder would add when `free` bytes are free. */
  function RecordOf(call: Call, free: int): Record {
    match call
    case Text(tag, text) => Record(tag, text)
    case CString(tag, chars) => Record(tag, Truncate(UpToNul(chars), free - HEADER_LENGTH))
    case Address(addressType, octets) => Record(DEVICE_ADDRESS, [addressType] + octets)
    case Array(tag, values, width) => Record(tag, Scalars(values, width))
  }

  /** An encoder adds its record if there is room for it, and else nothing. */
  function Added(contents: seq<Octet>, call: Call): Option<Record> {
    var free := CAPACITY - |contents|;
    var r := RecordOf(call, free);
    if free < HEADER_LENGTH + |r.payload| then None else Some(r)
  }

  lemma AddedFits(contents: seq<Octet>, call: Call)
    ensures Added(contents, call).Some? ==> Added(contents, call).value.Fits()
  {
  }

  function After(contents: seq<Octet>, call: Call): seq<Octet> {
    AddedFits(contents, call);
    match Added(contents, call)
    case None => contents
    case Some(r) => contents + Encode(r)
  }

  function AfterAll(contents: seq<Octet>, calls: seq<Call>): seq<Octet>
    decreases |calls|
  {
    if calls == [] then contents else AfterAll(After(contents, calls[0]), calls[1..])
  }

  /** The records of the calls that were accepted, in order. */
  function Accepted(contents: seq<Octet>, calls: seq<Call>): seq<Record>
    decreases |calls|
  {
    if calls == [] then []
    else
      (match Added(contents, calls[0]) case None => [] case Some(r) => [r])
      + Accepted(After(contents, calls[0]), calls[1..])
  }

  /** One call, seen from the records. */
  lemma OneCall(records: seq<Record>, calls: seq<Call>) returns (records': seq<Record>)
    requires AllFit(records) && |EncodeAll(records)| <= CAPACITY && calls != []
    ensures AllFit(records') && |EncodeAll(records')| <= CAPACITY
    ensures After(EncodeAll(records), calls[0]) == EncodeAll(records')
    ensures AfterAll(EncodeAll(records), calls) == AfterAll(EncodeAll(records'), calls[1..])
    ensures records + Accepted(EncodeAll(records), calls) == records' + Accepted(EncodeAll(records'), calls[1..])
  {
    var contents := EncodeAll(records);
    var added := match Added(contents, calls[0]) case None => [] case Some(r) => [r];
    records' := records + added;
    Unfolded(contents, calls, added);
    assert records + (added + Accepted(After(contents, calls[0]), calls[1..]))
           == records' + Accepted(After(contents, calls[0]), calls[1..]);
    hide AfterAll, Accepted;
    AddedFits(contents, calls[0]);
    if added == [] {
      assert records' == records;
    } else {
      EncodeAllAppend(records, added[0]);
    }
  }

  lemma Unfolded(contents: seq<Octet>, calls: seq<Call>, added: seq<Record>)
    requires calls != [] && added == match Added(contents, calls[0]) case None => [] case Some(r) => [r]
    ensures AfterAll(contents, calls) == AfterAll(After(contents, calls[0]), calls[1..])
    ensures Accepted(contents, calls) == added + Accepted(After(contents, calls[0]), calls[1..])
  {
  }

  /** A C string is added, cut off where the buffer ends, if there is room for a header. */
  lemma CStringAdded(contents: seq<Octet>, tag: Octet, chars: seq<Octet>)
    requires |contents| <= CAPACITY
    ensures var payload := Truncate(UpToNul(chars), CAPACITY - |contents| - HEADER_LENGTH);
            var r := Record(tag, payload);
            if CAPACITY - |contents| < HEADER_LENGTH then
              Added(contents, CString(tag, chars)).None? && After(contents, CString(tag, chars)) == contents
            else
              && Added(contents, CString(tag, chars)) == Some(r) && r.Fits()
              && After(contents, CString(tag, chars)) == contents + Encode(r)
              && |Encode(r)| == |payload| + HEADER_LENGTH
  {
  }

  /** Filling in the length byte afterwards completes the record. */
  lemma Patched(before: seq<Octet>, tag: Octet, payload: seq<Octet>)
    requires Record(tag, payload).Fits()
    ensures (before + [0] + [tag] + payload)[|before| := |payload| + 1] == before + Encode(Record(tag, payload))
  {
  }

  lemma {:induction false} AfterAllIs(records: seq<Record>, calls: seq<Call>)
    requires AllFit(records) && |EncodeAll(records)| <= CAPACITY
    ensures var accepted := Accepted(EncodeAll(records), calls);
            && AllFit(records + accepted)
            && AfterAll(EncodeAll(records), calls) == EncodeAll(records + accepted)
            && |AfterAll(EncodeAll(records), calls)| <= CAPACITY
    decreases |calls|
  {
    if calls == [] {
      assert records + [] == records;
    } else {
      hide *;
      var records' := OneCall(records, calls);
      AfterAllIs(records', calls[1..]);
    }
  }

  /** After any encoder calls, walking the buffer yields the records of the calls that were accepted. */
  lemma EncodersRoundTrip(calls: seq<Call>)
    ensures |AfterAll([], calls)| <= CAPACITY
    ensures Decode(AfterAll([], calls)) == Whole(Accepted([], calls))
  {
    AfterAllIs([], calls);
    assert [] + Accepted([], calls) == Accepted([], calls);
    DecodeEncodeAll(Accepted([], calls));
  }

  // ----- The bytes, encoder by encoder -----

  /** A string is written whole, behind its length and type, exactly if it fits. */
  lemma TextBytes(contents: seq<Octet>, tag: Octet, text: seq<Octet>)
    requires |contents| <= 31
    ensures After(contents, Text(tag, text))
         == if |contents| + 2 + |text| <= 31 then contents + ([|text| + 1, tag] + text) else contents
  {
  }

  /** A C string is written up to its terminator or to the end of the buffer, exactly if length and type fit. */
  lemma CStringBytes(contents: seq<Octet>, tag: Octet, text: seq<Octet>, rest: seq<Octet>)
    requires |contents| <= 31 && 0 !in text
    ensures var n := if |text| < 29 - |contents| then |text| else 29 - |contents|;
            After(contents, CString(tag, text + [0] + rest))
            == if |contents| + 2 <= 31 then contents + ([n + 1, tag] + text[..n]) else contents
  {
    BeforeNul(text, rest);
    CStringAdded(contents, tag, text + [0] + rest);
    hide After, Added, RecordOf, UpToNul;
  }

  lemma {:induction false} BeforeNul(text: seq<Octet>, rest: seq<Octet>)
    requires 0 !in text
    ensures UpToNul(text + [0] + rest) == text
  {
    var chars := text + [0] + rest;
    if text != [] {
      assert text[0] in text && forall c :: c in text[1..] ==> c in text;
      assert chars[1..] == text[1..] + [0] + rest;
      BeforeNul(text[1..], rest);
    }
  }

  /** An address is written behind its type (or random flag), six octets in order, exactly if all nine bytes fit. */
  lemma AddressBytes(contents: seq<Octet>, addressType: Octet, a: Octet, b: Octet, c: Octet, d: Octet, e: Octet,
                     f: Octet)
    requires |contents| <= 31
    ensures After(contents, Address(addressType, [a, b, c, d, e, f]))
         == if |contents| + 9 <= 31 then contents + [8, 0x1B, addressType, a, b, c, d, e, f] else contents
  {
    assert Encode(Record(0x1B, [addressType] + [a, b, c, d, e, f])) == [8, 0x1B, addressType, a, b, c, d, e, f];
  }

  /** Integers are written whole, exactly if they fit; `ScalarByte` says which byte stands where. */
  lemma ArrayBytes(contents: seq<Octet>, tag: Octet, values: seq<nat>, width: nat)
    requires |contents| <= 31
    ensures var payload := Scalars(values, width);
            && |payload| == |values| * width
            && After(contents, Array(tag, values, width))
               == if |contents| + 2 + |payload| <= 31 then contents + ([|payload| + 1, tag] + payload) else contents
  {
    ScalarsLength(values, width);
    hide Scalars;
  }

  /** What is read back from a buffer with one address in it. */
  lemma AddressReadBack(addressType: Octet, octets: seq<Octet>)
    requires |octets| == 6
    ensures Decode(AfterAll([], [Address(addressType, octets)])) == [Some(Record(0x1B, [addressType] + octets))]
  {
    var calls := [Address(addressType, octets)];
    assert calls[1..] == [];
    EncodersRoundTrip(calls);
    assert Accepted([], calls) == [Record(0x1B, [addressType] + octets)];
    assert Whole([Record(0x1B, [addressType] + octets)][1..]) == [];
  }

  // ----- The buffer -----

  class Buffer {
    const data: array<Octet>
    var index: nat

    ghost predicate Valid() {
      data.Length == CAPACITY
    }

    /** The bytes in use; only a received buffer of too great a length is used beyond its end. */
    ghost function Contents(): seq<Octet>
      reads this, data
      requires index <= data.Length
    {
      data[..index]
    }

    /** For encoding. */
    constructor ()
      ensures Valid() && index == 0 && fresh(data)
    {
      data := new Octet[CAPACITY](_ => 0);
      index := 0;
    }

    /** From a scan: the copy is clamped to the buffer, the end is not. */
    constructor Received(report: seq<Octet>, length: nat)
      requires length <= |report|
      ensures Valid() && index == length && fresh(data)
      ensures length <= CAPACITY ==> Contents() == report[..length]
      ensures length > CAPACITY ==> data[..] == report[..CAPACITY]
    {
      var copied := if length < CAPACITY then length else CAPACITY;
      data := new Octet[CAPACITY](i requires 0 <= i < CAPACITY => if i < copied then report[i] else 0);
      index := length;
    }

    method PushBack(value: Octet)
      requires Valid() && index < CAPACITY
      modifies this`index, data
      ensures index == old(index) + 1 && Contents() == old(Contents()) + [value]
    {
      data[index] := value;
      index := index + 1;
    }

    /** `ltv_encode_push_back`. */
    method PushAll(bytes: seq<Octet>)
      requires Valid() && index + |bytes| <= CAPACITY
      modifies this`index, data
      ensures index == old(index) + |bytes| && Contents() == old(Contents()) + bytes
    {
      for i := 0 to |bytes|
        invariant index == old(index) + i && Contents() == old(Contents()) + bytes[..i]
      {
        PushBack(bytes[i]);
        assert bytes[..i + 1] == bytes[..i] + [bytes[i]];
      }
      assert bytes[..|bytes|] == bytes;
    }

    /** `ltv_encode` of a string. */
    method EncodeText(tag: Octet, text: seq<Octet>) returns (count: nat)
      requires Valid() && index <= CAPACITY
      modifies this`index, data
      ensures index <= CAPACITY && Contents() == After(old(Contents()), Text(tag, text))
      ensures count == |Contents()| - |old(Contents())|
      ensures count == 0 <==> Added(old(Contents()), Text(tag, text)).None?
    {
      if CAPACITY - index < |text| + HEADER_LENGTH {
        return 0;
      }
      var begin := index;
      PushBack(|text| + 1);
      PushBack(tag);
      PushAll(text);
      assert Contents() == old(Contents()) + Encode(Record(tag, text));
      return index - begin;
    }

    /** `ltv_encode` of a C string: as much as fits; the length byte is filled in at the end. */
    method EncodeCString(tag: Octet, chars: seq<Octet>) returns (count: nat)
      requires Valid() && index <= CAPACITY && 0 in chars
      modifies this`index, data
      ensures index <= CAPACITY && Contents() == After(old(Contents()), CString(tag, chars))
      ensures count == |Contents()| - |old(Contents())|
      ensures count == 0 <==> Added(old(Contents()), CString(tag, chars)).None?
    {
      CStringAdded(Contents(), tag, chars);
      hide After, Added, RecordOf, Encode, UpToNul, Truncate;
      if CAPACITY - index < HEADER_LENGTH {
        return 0;
      }
      var lengthAt := index;
      PushBack(0);
      PushBack(tag);
      var length := PushCString(chars);
      ghost var before, unpatched := old(Contents()), Contents();
      ghost var payload := Truncate(UpToNul(chars), CAPACITY - |before| - HEADER_LENGTH);
      assert unpatched == before + [0] + [tag] + payload;
      PatchLength(lengthAt, length + 1);
      Patched(before, tag, payload);
      return index - lengthAt;
    }

    /** Write through the pointer kept to the length byte. */
    method PatchLength(at: nat, value: Octet)
      requires Valid() && at < index <= CAPACITY
      modifies data
      ensures Contents() == old(Contents())[at := value]
    {
      data[at] := value;
    }

    /** The characters up to the terminator, as far as there is room. */
    method PushCString(chars: seq<Octet>) returns (i: nat)
      requires Valid() && index <= CAPACITY && 0 in chars
      modifies this`index, data
      ensures index == old(index) + i <= CAPACITY
      ensures var payload := Truncate(UpToNul(chars), CAPACITY - old(index));
              i == |payload| && Contents() == old(Contents()) + payload
    {
      i := 0;
      UpToNulIs(chars);
      while index < CAPACITY && chars[i] != 0
        invariant old(index) + i == index <= CAPACITY
        invariant i <= |UpToNul(chars)| < |chars|
        invariant Contents() == old(Contents()) + chars[..i]
        decreases |chars| - i
      {
        PushBack(chars[i]);
        assert chars[..i + 1] == chars[..i] + [chars[i]];
        i := i + 1;
      }
      assert chars[..i] == UpToNul(chars)[..i];
    }

    /** `ltv_encode_address`, with the address type or the random-address flag as its first byte. */
    method EncodeAddress(addressType: Octet, octets: seq<Octet>) returns (count: nat)
      requires Valid() && index <= CAPACITY && |octets| == OCTET_LENGTH
      modifies this`index, data
      ensures index <= CAPACITY && Contents() == After(old(Contents()), Address(addressType, octets))
      ensures count == |Contents()| - |old(Contents())|
      ensures count == 0 <==> Added(old(Contents()), Address(addressType, octets)).None?
    {
      var length := OCTET_LENGTH + 1;
      if CAPACITY - index < length + HEADER_LENGTH {
        return 0;
      }
      var begin := index;
      PushBack(length + 1);
      PushBack(DEVICE_ADDRESS);
      PushBack(addressType);
      PushAll(octets);
      assert Contents() == old(Contents()) + Encode(Record(DEVICE_ADDRESS, [addressType] + octets));
      return index - begin;
    }

    /** `ltv_encode` of an array of integers of `width` bytes; of a single integer, an array of one. */
    method EncodeArray(tag: Octet, values: seq<nat>, width: nat) returns (count: nat)
      requires Valid() && index <= CAPACITY
      modifies this`index, data
      ensures index <= CAPACITY && Contents() == After(old(Contents()), Array(tag, values, width))
      ensures count == |Contents()| - |old(Contents())|
      ensures count == 0 <==> Added(old(Contents()), Array(tag, values, width)).None?
    {
      ScalarsLength(values, width);
      var length := |values| * width;
      if CAPACITY - index < length + HEADER_LENGTH {
        return 0;
      }
      var begin := index;
      PushBack(length + 1);
      PushBack(tag);
      PushScalars(values, width);
      assert Contents() == old(Contents()) + Encode(Record(tag, Scalars(values, width)));
      return index - begin;
    }

    method PushScalars(values: seq<nat>, width: nat)
      requires Valid() && index + |Scalars(values, width)| <= CAPACITY
      modifies this`index, data
      ensures index == old(index) + |Scalars(values, width)| <= CAPACITY
      ensures Contents() == old(Contents()) + Scalars(values, width)
    {
      ghost var start, done: seq<Octet> := Contents(), [];
      NoScalars(width);
      assert values[..0] == [] && values[..|values|] == values && start + [] == start;
      hide Scalars, LittleEndian;
      for i := 0 to |values|
        invariant done == Scalars(values[..i], width)
        invariant index == old(index) + |done| <= CAPACITY && Contents() == start + done
      {
        PrefixLength(values, width, i);
        ghost var next := LittleEndian(values[i], width);
        Assoc(start, done, next);
        PushAll(LittleEndian(values[i], width));
        done := done + next;
      }
    }

    /** `begin()` to `end()`: the positions the iterator takes. */
    method Walk() returns (positions: seq<nat>)
      requires Valid() && ReadsInside(data[..], index, 0)
      ensures positions == Positions(data[..], index, 0)
    {
      positions := [];
      var iter := 0;
      assert [] + Positions(data[..], index, 0) == Positions(data[..], index, 0);
      while iter < index
        invariant ReadsInside(data[..], index, iter)
        invariant positions + Positions(data[..], index, iter) == Positions(data[..], index, 0)
        decreases index - iter
      {
        ghost var rest := Positions(data[..], index, iter + Stride(data[iter]));
        assert positions + ([iter] + rest) == (positions + [iter]) + rest;
        positions := positions + [iter];
        iter := iter + Stride(data[iter]);
      }
      assert positions + [] == positions;
    }
  }

  /** The terminator stands behind the characters before it. */
  lemma {:induction false} UpToNulIs(chars: seq<Octet>)
    requires 0 in chars
    ensures |UpToNul(chars)| < |chars| && chars[..|UpToNul(chars)|] == UpToNul(chars)
    ensures chars[|UpToNul(chars)|] == 0 && forall i :: 0 <= i < |UpToNul(chars)| ==> chars[i] != 0
  {
    if chars[0] != 0 {
      assert chars == [chars[0]] + chars[1..];
      UpToNulIs(chars[1..]);
    }
  }

  lemma Assoc(u: seq<Octet>, v: seq<Octet>, w: seq<Octet>)
    ensures (u + v) + w == u + (v + w)
  {
  }

  lemma NoScalars(width: nat)
    ensures Scalars([], width) == []
  {
  }

  lemma PrefixLength(values: seq<nat>, width: nat, i: nat)
    requires i < |values|
    ensures Scalars(values[..i + 1], width) == Scalars(values[..i], width) + LittleEndian(values[i], width)
    ensures |Scalars(values[..i + 1], width)| <= |Scalars(values, width)|
  {
    assert values[..i + 1] == values[..i] + [values[i]];
    hide *;
    ScalarsAppend(values[..i], values[i], width);
    ScalarsLength(values[..i + 1], width);
    ScalarsLength(values, width);
    Monotone(i + 1, |values|, width);
  }

  lemma Monotone(a: nat, b: nat, width: nat)
    requires a <= b
    ensures a * width <= b * width
  {
  }

  // ----- Walking a received buffer -----

  /** Every length byte read between `p` and `end` is inside the array. */
  predicate ReadsInside(data: seq<Octet>, end: nat, p: nat)
    decreases end - p
  {
    p >= end || (p < |data| && ReadsInside(data, end, p + Stride(data[p])))
  }

  /** Where the iterator stops between `p` and `end`. */
  function Positions(data: seq<Octet>, end: nat, p: nat): seq<nat>
    requires ReadsInside(data, end, p)
    decreases end - p
  {
    if p >= end then [] else [p] + Positions(data, end, p + Stride(data[p]))
  }

  /** A received length of at most 31 keeps every read inside, whatever was received; a greater one does not. */
  lemma ReceivedLengthExact(length: nat)
    ensures (forall data: seq<Octet> :: |data| == CAPACITY ==> ReadsInside(data, length, 0)) <==> length <= CAPACITY
  {
    forall data: seq<Octet> | |data| == CAPACITY && length <= CAPACITY
      ensures ReadsInside(data, length, 0)
    {
      ShortReadsInside(data, length, 0);
    }
    if length > CAPACITY {
      var zeros: seq<Octet> := seq(CAPACITY, _ => 0);
      ZerosLeave(zeros, length, 0);
    }
  }

  lemma {:induction false} ShortReadsInside(data: seq<Octet>, end: nat, p: nat)
    requires end <= |data|
    ensures ReadsInside(data, end, p)
    decreases end - p
  {
    if p < end {
      ShortReadsInside(data, end, p + Stride(data[p]));
    }
  }

  /** Over zero length bytes the iterator moves one byte at a time, off the end of the array. */
  lemma {:induction false} ZerosLeave(zeros: seq<Octet>, end: nat, p: nat)
    requires p <= |zeros| < end && forall i :: 0 <= i < |zeros| ==> zeros[i] == 0
    ensures !ReadsInside(zeros, end, p)
    decreases end - p
  {
    if p < |zeros| {
      ZerosLeave(zeros, end, p + 1);
    }
  }

  /** However malformed the bytes, the walk moves strictly forward inside them and so takes at most as many steps. */
  lemma {:induction false} WalkAdvances(data: seq<Octet>, end: nat, p: nat)
    requires ReadsInside(data, end, p) && p <= end
    ensures var positions := Positions(data, end, p);
            && |positions| <= end - p
            && (forall i :: 0 <= i < |positions| ==> p <= positions[i] < end && positions[i] < |data|)
            && forall i, j :: 0 <= i < j < |positions| ==> positions[i] < positions[j]
    decreases end - p
  {
    if p < end {
      var next := p + Stride(data[p]);
      if next <= end {
        WalkAdvances(data, end, next);
      }
    }
  }

  /** Position `i` is followed by the one behind its length byte and as many bytes as that says, or by the end. */
  ghost predicate StepFrom(data: seq<Octet>, end: nat, positions: seq<nat>, i: nat) {
    && i < |positions| && positions[i] < |data|
    && var next := positions[i] + (data[positions[i]] as int + 1);
       if i + 1 < |positions| then positions[i + 1] == next else end <= next
  }

  /** The walk begins at `p` and takes such steps until the end is reached. */
  lemma {:induction false} WalkSteps(data: seq<Octet>, end: nat, p: nat)
    requires ReadsInside(data, end, p)
    ensures var positions := Positions(data, end, p);
            && (positions == [] <==> end <= p) && (positions != [] ==> positions[0] == p)
            && forall i: nat :: i < |positions| ==> StepFrom(data, end, positions, i)
    decreases end - p
  {
    if p < end {
      var next := p + Stride(data[p]);
      var positions, rest := Positions(data, end, p), Positions(data, end, next);
      assert positions == [p] + rest;
      WalkSteps(data, end, next);
      assert next == p + (data[p] as int + 1);
      hide Positions, ReadsInside;
      forall i: nat | i < |positions|
        ensures StepFrom(data, end, positions, i)
      {
        if i > 0 {
          assert StepFrom(data, end, rest, i - 1);
        }
      }
    }
  }

  /** The positions are those at which `Decode` looks for a record. */
  lemma {:induction false} WalkDecodes(data: seq<Octet>, end: nat, p: nat)
    requires end <= |data| && p <= end && ReadsInside(data, end, p)
    ensures var positions := Positions(data, end, p);
            var seen := Decode(data[p..end]);
            && |seen| == |positions|
            && forall i :: 0 <= i < |seen| ==> p <= positions[i] < end && seen[i] == Front(data[positions[i]..end])
    decreases end - p
  {
    if p < end {
      var bytes := data[p..end];
      var next := p + Stride(data[p]);
      if next < end {
        WalkDecodes(data, end, next);
        assert Behind(bytes) == data[next..end];
      } else {
        assert Behind(bytes) == [];
      }
      assert Decode(bytes) == [Front(bytes)] + Decode(Behind(bytes));
    }
  }
}
