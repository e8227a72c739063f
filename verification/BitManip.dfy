/**
 The bit-field functions of utility/bit_manip.h over words of any width.

 A word of N bits is the sequence of its bits, least significant first; `Value` is the unsigned
 integer it stands for and `Signed` the two's-complement one.
 */
module BitManip {

  type Word = seq<bool>

  function Pow2(n: nat): (power: nat)
    ensures power >= 1
  {
    if n == 0 then 1 else 2 * Pow2(n - 1)
  }

  function Bit(b: bool): nat {
    if b then 1 else 0
  }

  function Value(x: Word): nat {
    if x == [] then 0 else Bit(x[0]) + 2 * Value(x[1..])
  }

  function Signed(x: Word): int {
    if x != [] && x[|x| - 1] then Value(x) - Pow2(|x|) else Value(x)
  }

  // ----- The operations of the machine -----

  function Zeros(n: nat): Word {
    seq(n, _ => false)
  }

  function Ones(n: nat): Word {
    seq(n, _ => true)
  }

  function One(n: nat): Word
    requires n > 0
  {
    seq(n, i => i == 0)
  }

  function And(x: Word, y: Word): Word
    requires |x| == |y|
  {
    seq(|x|, i requires 0 <= i < |x| => x[i] && y[i])
  }

  function Or(x: Word, y: Word): Word
    requires |x| == |y|
  {
    seq(|x|, i requires 0 <= i < |x| => x[i] || y[i])
  }

  function Not(x: Word): Word {
    seq(|x|, i requires 0 <= i < |x| => !x[i])
  }

  function ShiftLeft(x: Word, k: nat): Word
    requires k < |x|
  {
    seq(|x|, i requires 0 <= i < |x| => i >= k && x[i - k])
  }

  function ShiftRight(x: Word, k: nat): Word
    requires k < |x|
  {
    seq(|x|, i requires 0 <= i < |x| => i + k < |x| && x[i + k])
  }

  /** Subtract 1, wrapping at zero: flip bits up to and including the lowest that is set. */
  function Decrement(x: Word): Word {
    if x == [] then [] else if x[0] then [false] + x[1..] else [true] + Decrement(x[1..])
  }

  lemma {:induction false} DecrementIsMinusOne(x: Word)
    ensures |Decrement(x)| == |x|
    ensures Value(Decrement(x)) == if Value(x) == 0 then Pow2(|x|) - 1 else Value(x) - 1
  {
    if x != [] {
      DecrementIsMinusOne(x[1..]);
      assert Decrement(x)[1..] == if x[0] then x[1..] else Decrement(x[1..]);
    }
  }

  /** Below the lowest set bit all bits become ones, above it nothing changes. */
  lemma {:induction false} DecrementBits(x: Word, low: nat)
    requires low < |x| && x[low] && forall i :: 0 <= i < low ==> !x[i]
    ensures |Decrement(x)| == |x|
    ensures forall i :: 0 <= i < |x| ==> Decrement(x)[i] == (i < low || (i > low && x[i]))
  {
    if low > 0 {
      DecrementBits(x[1..], low - 1);
    }
  }

  // ----- The functions -----

  function BitMask(n: nat, width: nat, position: nat): (mask: Word)
    requires n > 0
    ensures |mask| == n
  {
    var ones :=
      if width < n then
        DecrementLength(ShiftLeft(One(n), width));
        Decrement(ShiftLeft(One(n), width))
      else Ones(n);
    if position < n then ShiftLeft(ones, position) else Zeros(n)
  }

  lemma DecrementLength(x: Word)
    ensures |Decrement(x)| == |x|
  {
    DecrementIsMinusOne(x);
  }

  function SignExtend(x: Word, signPosition: nat): (y: Word)
    requires x != []
    ensures |y| == |x|
  {
    if signPosition >= |x| then x
    else
      var signBit := ShiftLeft(One(|x|), signPosition);
      if And(signBit, x) != Zeros(|x|) then
        DecrementLength(signBit);
        Or(x, Not(Decrement(signBit)))
      else x
  }

  function ValueSet(x: Word, insert: Word, width: nat, position: nat): (y: Word)
    requires x != [] && |insert| == |x|
    ensures |y| == |x|
  {
    var mask := BitMask(|x|, width, position);
    var cleared := And(x, Not(mask));
    var shifted := if position < |x| then ShiftLeft(insert, position) else Zeros(|x|);
    Or(cleared, And(shifted, mask))
  }

  /** `value_get` of an unsigned type. */
  function ValueGet(x: Word, width: nat, position: nat): (y: Word)
    requires x != []
    ensures |y| == |x|
  {
    var masked := And(x, BitMask(|x|, width, position));
    if position < |x| then ShiftRight(masked, position) else Zeros(|x|)
  }

  /** `bit_width - 1u` as a 16-bit bit position. */
  function SignPosition(width: nat): nat {
    if width == 0 then 0xFFFF else width - 1
  }

  /** `value_get` of a signed type. */
  function ValueGetSigned(x: Word, width: nat, position: nat): (y: Word)
    requires 0 < |x| <= 0xFFFF
    ensures |y| == |x|
  {
    SignExtend(ValueGet(x, width, position), SignPosition(width))
  }

  // ----- Bit by bit -----

  /** For every width and position, out of range or not, the mask covers exactly the field. */
  lemma MaskBits(n: nat, width: nat, position: nat)
    requires n > 0
    ensures forall i :: 0 <= i < n ==> BitMask(n, width, position)[i] == (position <= i < position + width)
  {
    if width < n {
      DecrementBits(ShiftLeft(One(n), width), width);
    }
  }

  lemma SetBits(x: Word, insert: Word, width: nat, position: nat)
    requires x != [] && |insert| == |x|
    ensures forall i :: 0 <= i < |x| ==>
              ValueSet(x, insert, width, position)[i] == if position <= i < position + width then insert[i - position]
                  else x[i]
  {
    MaskBits(|x|, width, position);
  }

  lemma GetBits(x: Word, width: nat, position: nat)
    requires x != []
    ensures forall i :: 0 <= i < |x| ==>
              ValueGet(x, width, position)[i] == (i < width && position + i < |x| && x[position + i])
  {
    MaskBits(|x|, width, position);
  }

  lemma SignExtendBits(x: Word, s: nat)
    requires s < |x|
    ensures forall i :: 0 <= i < |x| ==> SignExtend(x, s)[i] == (x[i] || (i >= s && x[s]))
  {
    var signBit := ShiftLeft(One(|x|), s);
    DecrementBits(signBit, s);
    if x[s] {
      assert And(signBit, x)[s] && !Zeros(|x|)[s];
    } else {
      assert And(signBit, x) == Zeros(|x|);
    }
  }

  // ----- Values of parts of words -----

  lemma {:induction false} ValueBound(x: Word)
    ensures Value(x) < Pow2(|x|)
  {
    if x != [] {
      ValueBound(x[1..]);
    }
  }

  lemma Double(p: nat, v: nat)
    ensures 2 * (p * v) == (2 * p) * v
  {
  }

  lemma {:induction false} ValueConcat(x: Word, y: Word)
    ensures Value(x + y) == Value(x) + Pow2(|x|) * Value(y)
  {
    if x == [] {
      assert x + y == y;
    } else {
      assert (x + y)[1..] == x[1..] + y && (x + y)[0] == x[0];
      assert Value(x + y) == Bit(x[0]) + 2 * Value(x[1..] + y);
      assert Value(x) == Bit(x[0]) + 2 * Value(x[1..]);
      assert Pow2(|x|) == 2 * Pow2(|x[1..]|);
      hide *;
      ValueConcat(x[1..], y);
      Double(Pow2(|x[1..]|), Value(y));
    }
  }

  lemma {:induction false} ValueZeros(n: nat)
    ensures Value(Zeros(n)) == 0
  {
    if n > 0 {
      assert Zeros(n)[1..] == Zeros(n - 1);
      ValueZeros(n - 1);
    }
  }

  lemma {:induction false} ValueOnes(n: nat)
    ensures Value(Ones(n)) == Pow2(n) - 1
  {
    if n > 0 {
      assert Ones(n)[1..] == Ones(n - 1);
      ValueOnes(n - 1);
    }
  }

  /** Splitting a word at `k`: the low part is the value modulo 2^k. */
  lemma LowBits(x: Word, k: nat)
    requires k <= |x|
    ensures Value(x) == Value(x[..k]) + Pow2(k) * Value(x[k..])
    ensures Value(x[..k]) < Pow2(k)
    ensures Value(x) % Pow2(k) == Value(x[..k])
  {
    hide *;
    assert x == x[..k] + x[k..];
    ValueConcat(x[..k], x[k..]);
    ValueBound(x[..k]);
    Remainder(Value(x[..k]), Value(x[k..]), Pow2(k));
  }

  /** A word whose bits from `k` on are zero has the value of its low bits. */
  lemma HighBitsZero(x: Word, k: nat)
    requires k <= |x| && forall i :: k <= i < |x| ==> !x[i]
    ensures Value(x) == Value(x[..k])
  {
    assert x[k..] == Zeros(|x| - k);
    hide *;
    LowBits(x, k);
    ValueZeros(|x| - k);
    assert Pow2(k) * 0 == 0;
  }

  lemma Remainder(r: nat, q: nat, m: nat)
    requires r < m
    ensures (r + m * q) % m == r
  {
    var a := r + m * q;
    Multiple(m, q - a / m, a % m - r);
  }

  lemma Multiple(m: int, d: int, rest: int)
    requires m * d == rest && -m < rest < m
    ensures rest == 0
  {
    Product(m, d);
  }

  lemma Product(m: int, d: int)
    requires m >= 0
    ensures d >= 1 ==> m * d >= m
    ensures d <= -1 ==> m * d <= -m
    ensures d == 0 ==> m * d == 0
  {
  }

  // ----- The algebra of fields -----

  /** Reading back a written field gives the low `width` bits of what was written. */
  lemma GetAfterSet(x: Word, insert: Word, width: nat, position: nat)
    requires x != [] && |insert| == |x| && position + width <= |x|
    ensures Value(ValueGet(ValueSet(x, insert, width, position), width, position)) == Value(insert) % Pow2(width)
  {
    var y := ValueGet(ValueSet(x, insert, width, position), width, position);
    SetBits(x, insert, width, position);
    GetBits(ValueSet(x, insert, width, position), width, position);
    HighBitsZero(y, width);
    LowBits(insert, width);
    assert y[..width] == insert[..width];
  }

  /** A field that sticks out of the word loses what sticks out: it round-trips exactly when the lost bits are zero. */
  lemma GetAfterSetExact(x: Word, insert: Word, width: nat, position: nat)
    requires x != [] && |insert| == |x| && width <= |x|
    ensures ValueGet(ValueSet(x, insert, width, position), width, position) == insert[..width] + Zeros(|x| - width)
      <==> position + width <= |x| || forall i :: 0 <= i < width && position + i >= |x| ==> !insert[i]
  {
    var y := ValueGet(ValueSet(x, insert, width, position), width, position);
    var expected := insert[..width] + Zeros(|x| - width);
    SetBits(x, insert, width, position);
    GetBits(ValueSet(x, insert, width, position), width, position);
    forall i | 0 <= i < |x|
      ensures y[i] == (i < width && position + i < |x| && insert[i])
    {
    }
    if y == expected {
      forall i | 0 <= i < width && position + i >= |x| ensures !insert[i] {
        assert expected[i] == insert[i] && y[i] == expected[i];
      }
    } else {
      assert exists i :: 0 <= i < |x| && y[i] != expected[i];
    }
  }

  /**
   Bits outside the field stay; as numbers, the low `width` bits of what is inserted take the place of
   the field.
   */
  lemma SetKeepsOutside(x: Word, insert: Word, width: nat, position: nat)
    requires x != [] && |insert| == |x| && position + width <= |x|
    ensures var y := ValueSet(x, insert, width, position);
            && y[..position] == x[..position] && y[position + width..] == x[position + width..]
            && Value(y) + Pow2(position) * Value(x[position..position + width])
               == Value(x) + Pow2(position) * (Value(insert) % Pow2(width))
  {
    var y := ValueSet(x, insert, width, position);
    SetBits(x, insert, width, position);
    hide *;
    assert y[..position] == x[..position] && y[position + width..] == x[position + width..];
    assert y[position..position + width] == insert[..width];
    LowBits(insert, width);
    ThreeParts(x, position, width);
    ThreeParts(y, position, width);
  }

  /** A word's value from what is below a field, the field and what is above. */
  lemma ThreeParts(x: Word, position: nat, width: nat)
    requires position + width <= |x|
    ensures Value(x) == Value(x[..position]) + Pow2(position) * Value(x[position..position + width])
                        + Pow2(position + width) * Value(x[position + width..])
  {
    hide *;
    var low, field, high := x[..position], x[position..position + width], x[position + width..];
    assert x == low + field + high;
    ValueConcat(low + field, high);
    ValueConcat(low, field);
  }

  /** Writing back what was read changes nothing, for signed and unsigned types and for every field. */
  lemma WriteBack(x: Word, width: nat, position: nat)
    requires 0 < |x| <= 0xFFFF
    ensures ValueSet(x, ValueGet(x, width, position), width, position) == x
    ensures ValueSet(x, ValueGetSigned(x, width, position), width, position) == x
  {
    hide *;
    GetBits(x, width, position);
    WriteBackAny(x, ValueGet(x, width, position), width, position);
    SignedGetBits(x, width, position);
    WriteBackAny(x, ValueGetSigned(x, width, position), width, position);
  }

  lemma WriteBackAny(x: Word, y: Word, width: nat, position: nat)
    requires x != [] && |y| == |x|
    requires forall i :: 0 <= i < width && position + i < |x| ==> y[i] == x[position + i]
    ensures ValueSet(x, y, width, position) == x
  {
    forall i | 0 <= i < |x|
      ensures ValueSet(x, y, width, position)[i] == x[i]
    {
      hide *;
      if position <= i < position + width {
        assert y[i - position] == x[position + (i - position)];
      }
      SetBit(x, y, width, position, i);
    }
    hide *;
    assert ValueSet(x, y, width, position) == x;
  }

  lemma SetBit(x: Word, insert: Word, width: nat, position: nat, i: nat)
    requires x != [] && |insert| == |x| && i < |x|
    ensures ValueSet(x, insert, width, position)[i] == if position <= i < position + width then insert[i - position]
            else x[i]
  {
    SetBits(x, insert, width, position);
  }

  /** Within the field, reading as a signed type gives the same bits. */
  lemma SignedGetBits(x: Word, width: nat, position: nat)
    requires 0 < |x| <= 0xFFFF
    ensures forall i :: 0 <= i < width && position + i < |x| ==>
              ValueGetSigned(x, width, position)[i] == x[position + i]
  {
    hide *;
    forall i | 0 <= i < width && position + i < |x|
      ensures ValueGetSigned(x, width, position)[i] == x[position + i]
    {
      SignedGetBit(x, width, position, i);
    }
  }

  lemma SignedGetBit(x: Word, width: nat, position: nat, i: nat)
    requires 0 < |x| <= 0xFFFF && i < width && position + i < |x|
    ensures ValueGetSigned(x, width, position)[i] == x[position + i]
  {
    hide *;
    var y := ValueGet(x, width, position);
    SignedIs(x, width, position);
    GetBits(x, width, position);
    assert y[i] == x[position + i];
    if width <= |x| {
      SignExtendBits(y, width - 1);
      assert SignExtend(y, width - 1)[i] == y[i];
    }
  }

  lemma SignedIs(x: Word, width: nat, position: nat)
    requires 0 < |x| <= 0xFFFF
    ensures ValueGetSigned(x, width, position) ==
            if 0 < width <= |x| then SignExtend(ValueGet(x, width, position), width - 1)
                else ValueGet(x, width, position)
  {
    hide ValueGet;
  }

  /** Writes to fields that do not overlap commute. */
  lemma DisjointSetsCommute(x: Word, a: Word, b: Word, widthA: nat, positionA: nat, widthB: nat, positionB: nat)
    requires x != [] && |a| == |x| && |b| == |x|
    requires positionA + widthA <= positionB || positionB + widthB <= positionA
    ensures ValueSet(ValueSet(x, a, widthA, positionA), b, widthB, positionB)
         == ValueSet(ValueSet(x, b, widthB, positionB), a, widthA, positionA)
  {
    SetBits(x, a, widthA, positionA);
    SetBits(x, b, widthB, positionB);
    SetBits(ValueSet(x, a, widthA, positionA), b, widthB, positionB);
    SetBits(ValueSet(x, b, widthB, positionB), a, widthA, positionA);
  }

  // ----- Sign extension -----

  /** Extending from bit `s` turns an `s + 1`-bit number into the two's-complement integer it stands for. */
  lemma SignExtendValue(x: Word, s: nat)
    requires s < |x| && forall i :: s < i < |x| ==> !x[i]
    ensures Value(x) < Pow2(s + 1)
    ensures Signed(SignExtend(x, s)) == if Value(x) < Pow2(s) then Value(x) else Value(x) - Pow2(s + 1)
  {
    TopBit(x, s);
    SignExtendBits(x, s);
    if x[s] {
      OnesAbove(x, SignExtend(x, s), s + 1);
    } else {
      assert SignExtend(x, s) == x;
    }
  }

  /** Bit `s`, the highest that may be set, decides whether the value reaches 2^s. */
  lemma TopBit(x: Word, s: nat)
    requires s < |x| && forall i :: s < i < |x| ==> !x[i]
    ensures Value(x) < Pow2(s + 1)
    ensures x[s] <==> Value(x) >= Pow2(s)
  {
    var low := x[..s + 1];
    HighBitsZero(x, s + 1);
    ValueBound(low);
    LowBits(low, s);
    assert low[s..] == [x[s]];
    assert [x[s]][1..] == [];
    assert Value([x[s]]) == Bit(x[s]);
    assert Pow2(s) * Bit(x[s]) == if x[s] then Pow2(s) else 0;
  }

  /** Filling with ones from bit `k` on subtracts 2^k from the signed value. */
  lemma OnesAbove(x: Word, y: Word, k: nat)
    requires 0 < k <= |x| == |y| && x[k - 1]
    requires forall i :: k <= i < |x| ==> !x[i] && y[i]
    requires forall i :: 0 <= i < k ==> y[i] == x[i]
    ensures Signed(y) == Value(x) - Pow2(k)
  {
    hide *;
    var rest := |x| - k;
    OnesAboveBits(x, y, k);
    HighBitsZero(x, k);
    LowBits(y, k);
    ValueOnes(rest);
    PowerSum(k, rest);
    Distribute(Pow2(k), Pow2(rest), 1);
  }

  lemma OnesAboveBits(x: Word, y: Word, k: nat)
    requires 0 < k <= |x| == |y| && x[k - 1]
    requires forall i :: k <= i < |x| ==> !x[i] && y[i]
    requires forall i :: 0 <= i < k ==> y[i] == x[i]
    ensures y[..k] == x[..k] && y[k..] == Ones(|x| - k)
    ensures Signed(y) == Value(y) - Pow2(|y|)
  {
    hide Value, Pow2;
    assert k == |y| ==> y[|y| - 1] == x[k - 1];
  }

  lemma {:induction false} PowerSum(a: nat, b: nat)
    ensures Pow2(a) * Pow2(b) == Pow2(a + b)
  {
    if a > 0 {
      PowerSum(a - 1, b);
      assert Pow2(a) * Pow2(b) == 2 * (Pow2(a - 1) * Pow2(b));
    }
  }

  /** Values below 2^(s + 1) are the words whose higher bits are zero. */
  lemma BelowPower(x: Word, s: nat)
    requires s < |x| && Value(x) < Pow2(s + 1)
    ensures forall i :: s < i < |x| ==> !x[i]
  {
    var high := x[s + 1..];
    assert Value(high) == 0 by {
      hide *;
      LowBits(x, s + 1);
      NoMultiple(Pow2(s + 1), Value(high), Value(x[..s + 1]));
    }
    ValueZeroBits(high);
    forall i | s < i < |x| ensures !x[i] {
      assert high[i - (s + 1)] == x[i];
    }
  }

  lemma NoMultiple(m: nat, q: nat, r: nat)
    requires r + m * q < m
    ensures q == 0
  {
    Product(m, q);
  }

  lemma {:induction false} ValueZeroBits(x: Word)
    ensures Value(x) == 0 ==> forall i :: 0 <= i < |x| ==> !x[i]
  {
    if x != [] {
      ValueZeroBits(x[1..]);
    }
  }

  /** The same, stated on values. */
  lemma SignExtendArithmetic(x: Word, s: nat)
    requires s < |x| && Value(x) < Pow2(s + 1)
    ensures Signed(SignExtend(x, s)) == if Value(x) < Pow2(s) then Value(x) else Value(x) - Pow2(s + 1)
  {
    BelowPower(x, s);
    SignExtendValue(x, s);
  }

  /** `value_get` on a signed type is the field read as a two's-complement integer. */
  lemma SignedFieldValue(x: Word, width: nat, position: nat)
    requires 1 <= width && position + width <= |x| <= 0xFFFF
    ensures var field := Value(x[position..position + width]);
            Signed(ValueGetSigned(x, width, position)) == if field < Pow2(width - 1) then field else field - Pow2(width)
  {
    hide *;
    SignedIs(x, width, position);
    var y := ValueGet(x, width, position);
    FieldOf(x, width, position);
    HighBitsZero(y, width);
    SignExtendValue(y, width - 1);
  }

  /** What is read of a field inside the word: its bits, and zeros above. */
  lemma FieldOf(x: Word, width: nat, position: nat)
    requires x != [] && position + width <= |x|
    ensures ValueGet(x, width, position)[..width] == x[position..position + width]
    ensures forall i :: width <= i < |x| ==> !ValueGet(x, width, position)[i]
  {
    GetBits(x, width, position);
    hide ValueGet;
    assert ValueGet(x, width, position)[..width] == x[position..position + width];
  }

  /** Reading back a written field of a signed type gives the low `width` bits as a two's-complement integer. */
  lemma SignedGetAfterSet(x: Word, insert: Word, width: nat, position: nat)
    requires |insert| == |x| && 1 <= width && position + width <= |x| <= 0xFFFF
    ensures var low := Value(insert) % Pow2(width);
            Signed(ValueGetSigned(ValueSet(x, insert, width, position), width, position))
            == if low < Pow2(width - 1) then low else low - Pow2(width)
  {
    var y := ValueSet(x, insert, width, position);
    SetBits(x, insert, width, position);
    hide *;
    assert y[position..position + width] == insert[..width];
    LowBits(insert, width);
    SignedFieldValue(y, width, position);
  }

  /** So a signed number comes back exactly when it fits the field. */
  lemma SignedRoundTripExact(x: Word, insert: Word, width: nat, position: nat)
    requires |insert| == |x| && 1 <= width && position + width <= |x| <= 0xFFFF
    ensures Signed(ValueGetSigned(ValueSet(x, insert, width, position), width, position)) == Signed(insert)
      <==> 0 - Pow2(width - 1) <= Signed(insert) < Pow2(width - 1)
  {
    hide *;
    SignedGetAfterSet(x, insert, width, position);
    var q := SignedQuotient(insert, width);
    PowerHalf(width);
    FitsExact(Signed(insert), Value(insert) % Pow2(width), q, Pow2(width - 1));
  }

  /** The signed value, too, has the low bits as its remainder. */
  lemma SignedQuotient(x: Word, width: nat) returns (q: int)
    requires 1 <= width <= |x|
    ensures Signed(x) == Value(x) % Pow2(width) + Pow2(width) * q && 0 <= Value(x) % Pow2(width) < Pow2(width)
  {
    var rest := |x| - width;
    q := Value(x[width..]);
    assert Signed(x) == Value(x) || Signed(x) == Value(x) - Pow2(|x|);
    hide *;
    LowBits(x, width);
    PowerSum(width, rest);
    if Signed(x) != Value(x) {
      Distribute(Pow2(width), q, Pow2(rest));
      q := q - Pow2(rest);
    }
  }

  lemma Distribute(m: int, q: int, k: int)
    ensures m * (q - k) == m * q - m * k
  {
  }

  lemma PowerHalf(width: nat)
    requires width >= 1
    ensures Pow2(width) == 2 * Pow2(width - 1)
  {
  }

  /** A number with remainder `low` modulo 2h is the signed reading of `low` exactly when it lies in [-h, h). */
  lemma FitsExact(top: int, low: int, q: int, h: int)
    requires 0 <= low < 2 * h && top == low + 2 * h * q
    ensures top == (if low < h then low else low - 2 * h) <==> -h <= top < h
  {
    Product(2 * h, q);
    Product(2 * h, q + 1);
    Product(2 * h, q - 1);
  }
}
