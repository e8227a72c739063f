/**
 Length/type/value records as they stand in advertising data (Bluetooth Core Specification 5.0,
 Vol 3, Part C, section 11): the length counts the type and the payload, not itself.
 */
module Ltv {
  import opened Wrappers

  type Octet = x: int | 0 <= x < 0x100

  const CAPACITY: nat := 31

  /** The length and the type byte. */
  const HEADER_LENGTH: nat := 2

  datatype Record = Record(tag: Octet, payload: seq<Octet>) {
    predicate Fits() {
      |payload| + 1 < 0x100
    }
  }

  function Encode(r: Record): seq<Octet>
    requires r.Fits()
  {
    [|r.payload| + 1, r.tag] + r.payload
  }

  ghost predicate AllFit(records: seq<Record>) {
    forall r :: r in records ==> r.Fits()
  }

  function EncodeAll(records: seq<Record>): seq<Octet>
    requires AllFit(records)
  {
    if records == [] then [] else Encode(records[0]) + EncodeAll(records[1..])
  }

  // ----- Walking -----

  /** The record at the front, if the length byte describes one inside `bytes`. */
  function Front(bytes: seq<Octet>): Option<Record>
    requires bytes != []
  {
    var length := bytes[0];
    if 1 <= length < |bytes| then Some(Record(bytes[1], bytes[2..length + 1])) else None
  }

  /** How far `++` moves: over the length byte and what it counts. */
  function Stride(length: Octet): int {
    length + 1
  }

  /** What is left behind the front record; nothing when the record reaches to or beyond the end. */
  function Behind(bytes: seq<Octet>): seq<Octet>
    requires bytes != []
  {
    if Stride(bytes[0]) >= |bytes| then [] else bytes[Stride(bytes[0])..]
  }

  /** The records met by stepping `length + 1` bytes at a time, as long as the position is inside. */
  function Decode(bytes: seq<Octet>): seq<Option<Record>>
    decreases |bytes|
  {
    if bytes == [] then [] else [Front(bytes)] + Decode(Behind(bytes))
  }

  function Whole(records: seq<Record>): seq<Option<Record>> {
    if records == [] then [] else [Some(records[0])] + Whole(records[1..])
  }

  /** An encoded record in front of anything is seen as that record, with the rest behind it. */
  lemma FrontOfEncoded(r: Record, rest: seq<Octet>)
    requires r.Fits()
    ensures Front(Encode(r) + rest) == Some(r) && Behind(Encode(r) + rest) == rest
  {
    var bytes := Encode(r) + rest;
    assert Stride(bytes[0]) == |Encode(r)|;
    assert bytes[2..|Encode(r)|] == r.payload;
    assert bytes[|Encode(r)|..] == rest;
  }

  /** Walking what was encoded yields the records. */
  lemma {:induction false} DecodeEncodeAll(records: seq<Record>)
    requires AllFit(records)
    ensures Decode(EncodeAll(records)) == Whole(records)
  {
    if records != [] {
      DecodeEncodeAll(records[1..]);
      FrontOfEncoded(records[0], EncodeAll(records[1..]));
    }
  }

  /** The records of a walk in which every record was whole. */
  function Records(seen: seq<Option<Record>>): seq<Record>
    requires None !in seen
  {
    if seen == [] then [] else [seen[0].value] + Records(seen[1..])
  }

  /** A whole front record and what is behind it make up the bytes. */
  lemma FrontAndBehind(bytes: seq<Octet>)
    requires bytes != [] && Front(bytes).Some?
    ensures Front(bytes).value.Fits() && bytes == Encode(Front(bytes).value) + Behind(bytes)
  {
    assert Encode(Front(bytes).value) == bytes[..Stride(bytes[0])];
  }

  /** If every record met is whole, the bytes are exactly the encoding of those records. */
  lemma {:induction false} EncodeAllDecode(bytes: seq<Octet>)
    requires None !in Decode(bytes)
    ensures var records := Records(Decode(bytes));
            AllFit(records) && EncodeAll(records) == bytes
    decreases |bytes|
  {
    if bytes != [] {
      var seen := Decode(bytes);
      assert seen[0] == Front(bytes) && seen[1..] == Decode(Behind(bytes));
      FrontAndBehind(bytes);
      EncodeAllDecode(Behind(bytes));
      assert Records(seen)[1..] == Records(Decode(Behind(bytes)));
    }
  }

  /** A buffer is a sequence of records exactly when the walk meets no broken one. */
  lemma WellFormedExact(bytes: seq<Octet>)
    ensures (exists records: seq<Record> :: AllFit(records) && EncodeAll(records) == bytes)
      <==> None !in Decode(bytes)
  {
    if None !in Decode(bytes) {
      EncodeAllDecode(bytes);
    }
    forall records: seq<Record> | AllFit(records) && EncodeAll(records) == bytes
      ensures None !in Decode(bytes)
    {
      DecodeEncodeAll(records);
      WholeHasNoNone(records);
    }
  }

  lemma {:induction false} WholeHasNoNone(records: seq<Record>)
    ensures None !in Whole(records)
  {
    if records != [] {
      WholeHasNoNone(records[1..]);
    }
  }

  lemma {:induction false} EncodeAllAppend(records: seq<Record>, r: Record)
    requires AllFit(records) && r.Fits()
    ensures AllFit(records + [r])
    ensures EncodeAll(records + [r]) == EncodeAll(records) + Encode(r)
  {
    if records == [] {
      assert records + [r] == [r] && [r][1..] == [];
    } else {
      assert (records + [r])[1..] == records[1..] + [r];
      EncodeAllAppend(records[1..], r);
    }
  }

  // ----- Little-endian scalars -----

  /** `width` bytes, least significant first. */
  function LittleEndian(value: nat, width: nat): seq<Octet> {
    if width == 0 then [] else [value % 0x100] + LittleEndian(value / 0x100, width - 1)
  }

  function FromLittleEndian(bytes: seq<Octet>): nat {
    if bytes == [] then 0 else bytes[0] + 0x100 * FromLittleEndian(bytes[1..])
  }

  /** The number of values a scalar of `width` bytes can take. */
  function Range(width: nat): nat {
    if width == 0 then 1 else 0x100 * Range(width - 1)
  }

  lemma {:induction false} LittleEndianRoundTrip(value: nat, width: nat)
    requires value < Range(width)
    ensures |LittleEndian(value, width)| == width
    ensures FromLittleEndian(LittleEndian(value, width)) == value
    decreases width
  {
    if width > 0 {
      LittleEndianRoundTrip(value / 0x100, width - 1);
    }
  }

  lemma {:induction false} LittleEndianLength(value: nat, width: nat)
    ensures |LittleEndian(value, width)| == width
    decreases width
  {
    if width > 0 {
      LittleEndianLength(value / 0x100, width - 1);
    }
  }

  /** An array of scalars, one after the other. */
  function Scalars(values: seq<nat>, width: nat): seq<Octet> {
    if values == [] then [] else LittleEndian(values[0], width) + Scalars(values[1..], width)
  }

  lemma {:induction false} ScalarsLength(values: seq<nat>, width: nat)
    ensures |Scalars(values, width)| == |values| * width
  {
    if values != [] {
      ScalarsLength(values[1..], width);
      LittleEndianLength(values[0], width);
      calc {
        |Scalars(values, width)|;
        width + (|values| - 1) * width;
        |values| * width;
      }
    }
  }

  lemma {:induction false} ScalarsAppend(values: seq<nat>, value: nat, width: nat)
    ensures Scalars(values + [value], width) == Scalars(values, width) + LittleEndian(value, width)
  {
    if values == [] {
      assert values + [value] == [value] && [value][1..] == [];
    } else {
      assert (values + [value])[1..] == values[1..] + [value];
      ScalarsAppend(values[1..], value, width);
    }
  }

  /** Byte `k` of a number, counted from the least significant one. */
  function ByteAt(value: nat, k: nat): Octet {
    if k == 0 then value % 0x100 else ByteAt(value / 0x100, k - 1)
  }

  lemma {:induction false} LittleEndianByte(value: nat, width: nat, k: nat)
    requires k < width
    ensures |LittleEndian(value, width)| == width && LittleEndian(value, width)[k] == ByteAt(value, k)
    decreases width
  {
    LittleEndianLength(value, width);
    if k > 0 {
      LittleEndianByte(value / 0x100, width - 1, k - 1);
    }
  }

  /** Byte `k` of element `i` of an encoded array. */
  lemma {:induction false} ScalarByte(values: seq<nat>, width: nat, i: nat, k: nat)
    requires i < |values| && k < width
    ensures 0 <= i * width + k < |Scalars(values, width)|
    ensures Scalars(values, width)[i * width + k] == ByteAt(values[i], k)
  {
    hide *;
    var first, rest := LittleEndian(values[0], width), Scalars(values[1..], width);
    ScalarsHead(values, width);
    RowStart(i, width);
    if i == 0 {
      LittleEndianByte(values[0], width, k);
    } else {
      ScalarByte(values[1..], width, i - 1, k);
      assert (first + rest)[width + ((i - 1) * width + k)] == rest[(i - 1) * width + k];
    }
  }

  lemma ScalarsHead(values: seq<nat>, width: nat)
    requires values != []
    ensures |LittleEndian(values[0], width)| == width
    ensures Scalars(values, width) == LittleEndian(values[0], width) + Scalars(values[1..], width)
  {
    LittleEndianLength(values[0], width);
  }

  lemma RowStart(i: nat, width: nat)
    ensures 0 * width == 0 && (i + 1) * width == i * width + width
    ensures i > 0 ==> i * width == width + (i - 1) * width && 0 <= (i - 1) * width
  {
  }

  lemma ShiftSlice(first: seq<Octet>, rest: seq<Octet>, lo: nat, hi: nat)
    requires lo <= hi <= |rest|
    ensures (first + rest)[|first| + lo..|first| + hi] == rest[lo..hi]
  {
  }

  /** Every scalar can be read back from its place. */
  lemma {:induction false} ScalarAt(values: seq<nat>, width: nat, i: nat)
    requires i < |values| && values[i] < Range(width)
    ensures 0 <= i * width <= (i + 1) * width <= |Scalars(values, width)|
    ensures FromLittleEndian(Scalars(values, width)[i * width..(i + 1) * width]) == values[i]
  {
    hide *;
    var first, rest := LittleEndian(values[0], width), Scalars(values[1..], width);
    ScalarsHead(values, width);
    RowStart(i, width);
    if i == 0 {
      LittleEndianRoundTrip(values[0], width);
      assert (first + rest)[..width] == first;
    } else {
      RowStart(i - 1, width);
      ScalarAt(values[1..], width, i - 1);
      ShiftSlice(first, rest, (i - 1) * width, i * width);
    }
  }
}
