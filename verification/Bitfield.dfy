/** BITFIELD: integers of any width at any bit offset of a string, and what happens on overflow. */
module Bitfield {
  import opened Bytes
  import opened Bits

  const TWO63 := 0x8000_0000_0000_0000
  const TWO64 := 0x1_0000_0000_0000_0000

  type int64 = x: int | -TWO63 <= x < TWO63
  type uint64 = x: int | 0 <= x < TWO64

  /** Conversion to uint64_t and the two's complement reading of one. */
  function Uint64(x: int): uint64 { x % TWO64 }

  function Int64(x: int): int64 {
    if x % TWO64 < TWO63 then x % TWO64 else x % TWO64 - TWO64
  }

  lemma Pow2Words()
    ensures Pow2(63) == TWO63 && Pow2(64) == TWO64
  {
    hide Pow2;
    Pow2s();
    Pow2Add(8, 8);
    Pow2Add(16, 16);
    Pow2Add(32, 32);
    Pow2Step(64);
  }

  // ---------------------------------------------------------------- fields

  /** The unsigned number in `bits` bits from `offset` on, most significant first. */
  function Field(s: bytes, offset: nat, bits: nat): nat
    requires offset + bits <= 8 * |s|
  {
    if bits == 0 then 0 else 2 * Field(s, offset, bits - 1) + StringBit(s, offset + bits - 1)
  }

  /** The field now holds the low bits of value, and no other bit changed. */
  ghost predicate Written(before: bytes, after: bytes, offset: nat, bits: nat, value: nat)
    requires offset + bits <= 8 * |before|
  {
    && |after| == |before|
    && forall i :: 0 <= i < 8 * |before| ==>
        StringBit(after, i) == if offset <= i < offset + bits then BitOf(value, offset + bits - 1 - i)
            else StringBit(before, i)
  }

  lemma {:induction false} FieldBound(s: bytes, offset: nat, bits: nat)
    requires offset + bits <= 8 * |s|
    ensures Field(s, offset, bits) < Pow2(bits)
  {
    if bits > 0 { FieldBound(s, offset, bits - 1); }
  }

  lemma {:induction false} FieldBit(s: bytes, offset: nat, bits: nat, k: nat)
    requires offset + bits <= 8 * |s| && k < bits
    ensures BitOf(Field(s, offset, bits), k) == StringBit(s, offset + bits - 1 - k)
  {
    hide StringBit;
    if k > 0 { FieldBit(s, offset, bits - 1, k - 1); }
  }

  /** Reading back what was written. */
  lemma ReadBack(before: bytes, after: bytes, offset: nat, bits: nat, value: nat)
    requires offset + bits <= 8 * |before| && Written(before, after, offset, bits, value)
    ensures Field(after, offset, bits) == Low(value, bits)
  {
    hide BitOf, StringBit, Pow2, Field, Low;
    FieldBound(after, offset, bits);
    LowBound(value, bits);
    forall k | 0 <= k < bits ensures BitOf(Field(after, offset, bits), k) == BitOf(Low(value, bits), k) {
      FieldBit(after, offset, bits, k);
      LowBit(value, bits, k);
      assert StringBit(after, offset + bits - 1 - k) == BitOf(value, k);
    }
    SameBits(Field(after, offset, bits), Low(value, bits), bits);
  }

  /** (x >> k) & 1 */
  function Shifted(x: nat, k: nat): nat {
    High(x, k) % 2
  }

  /** Clearing a bit of a byte and or-ing in its new value. */
  function PutBit(b: byte, k: nat, v: nat): (r: byte)
    requires k < 8 && v <= 1
  {
    Pow2s();
    Pow2Monotone(k, 7);
    var cleared := And(b, 255 - Pow2(k));
    AndBound(b, 255 - Pow2(k), 8);
    OrBound(cleared, v * Pow2(k), 8);
    Or(cleared, v * Pow2(k))
  }

  lemma PutBitBits(b: byte, k: nat, v: nat, i: nat)
    requires k < 8 && v <= 1 && i < 8
    ensures BitOf(PutBit(b, k, v), i) == if i == k then v else BitOf(b, i)
  {
    hide BitOf, And, Or, Pow2;
    Pow2s();
    Pow2Monotone(k, 7);
    var cleared := And(b, 255 - Pow2(k));
    AndBit(b, 255 - Pow2(k), i);
    NotBit(Pow2(k), 8, i);
    Pow2Bit(k, i);
    OrBit(cleared, v * Pow2(k), i);
    BitOfZero(i);
    assert v * Pow2(k) == if v == 1 then Pow2(k) else 0;
  }

  lemma PutBitString(s: bytes, at: nat, v: nat)
    requires at < 8 * |s| && v <= 1
    ensures var t := s[at / 8 := PutBit(s[at / 8], 7 - at % 8, v)];
            && |t| == |s|
            && forall i :: 0 <= i < 8 * |s| ==> StringBit(t, i) == if i == at then v else StringBit(s, i)
  {
    hide BitOf, PutBit;
    var t := s[at / 8 := PutBit(s[at / 8], 7 - at % 8, v)];
    forall i | 0 <= i < 8 * |s| ensures StringBit(t, i) == if i == at then v else StringBit(s, i) {
      if i / 8 == at / 8 {
        PutBitBits(s[at / 8], 7 - at % 8, v, 7 - i % 8);
      }
    }
  }

  method SetUnsignedBitfield(p: array<byte>, offset: nat, bits: nat, value: uint64)
    requires bits <= 64 && offset + bits <= 8 * p.Length
    modifies p
    ensures Written(old(p[..]), p[..], offset, bits, value)
  {
    hide BitOf, StringBit, PutBit, Pow2, And;
    for j := 0 to bits
      invariant forall i :: 0 <= i < 8 * p.Length ==>
            StringBit(p[..], i) == if offset <= i < offset + j then BitOf(value, offset + bits - 1 - i)
                else StringBit(old(p[..]), i)
    {
      AndPow2(value, bits - 1 - j);
      var bitval := if And(Pow2(bits - 1 - j), value) != 0 then 1 else 0;
      var at := offset + j;
      ghost var before := p[..];
      PutBitString(before, at, bitval);
      p[at / 8] := PutBit(p[at / 8], 7 - at % 8, bitval);
      assert p[..] == before[at / 8 := PutBit(before[at / 8], 7 - at % 8, bitval)];
    }
  }

  method GetUnsignedBitfield(p: array<byte>, offset: nat, bits: nat) returns (value: uint64)
    requires bits <= 64 && offset + bits <= 8 * p.Length
    ensures value == Field(p[..], offset, bits)
  {
    hide BitOf, Pow2, Or, Field, Shifted;
    value := 0;
    NoField(p[..], offset);
    for j := 0 to bits
      invariant value == Field(p[..], offset, j)
    {
      var at := offset + j;
      var bitval := Shifted(p[at / 8], 7 - at % 8);
      GetStep(p[..], offset, j);
      value := Or((value * 2) % TWO64, bitval);
    }
  }

  lemma GetStep(s: bytes, offset: nat, j: nat)
    requires j < 64 && offset + j < 8 * |s|
    ensures var at := offset + j;
            Or((Field(s, offset, j) * 2) % TWO64, Shifted(s[at / 8], 7 - at % 8)) == Field(s, offset, j + 1) < TWO64
  {
    hide BitOf, Pow2, Or, High, Field;
    var at := offset + j;
    HighBit(s[at / 8], 7 - at % 8);
    FieldStep(s, offset, j);
    FieldBound(s, offset, j);
    Pow2Monotone(j, 63);
    Pow2Words();
    SmallMod(Field(s, offset, j) * 2, TWO64);
    OrUnit(Field(s, offset, j), StringBit(s, at));
  }

  lemma FieldStep(s: bytes, offset: nat, j: nat)
    requires offset + j < 8 * |s|
    ensures Field(s, offset, j + 1) == 2 * Field(s, offset, j) + StringBit(s, offset + j)
  {
  }

  lemma NoField(s: bytes, offset: nat)
    requires offset <= 8 * |s|
    ensures Field(s, offset, 0) == 0
  {
  }

  lemma OrUnit(v: nat, b: nat)
    requires b <= 1
    ensures Or(v * 2, b) == 2 * v + b
  {
    OrHalf(v * 2, b);
  }

  // ---------------------------------------------------------------- signed fields

  /** ((uint64_t)-1) << bits */
  function HighMask(bits: nat): uint64
    requires bits < 64
  {
    Pow2Words();
    Pow2Monotone(bits, 64);
    TWO64 - Pow2(bits)
  }

  lemma InRange64(x: int)
    ensures -TWO63 <= x < TWO63 ==> Int64(x) == x
    ensures 0 <= x < TWO64 ==> Uint64(x) == x
  {
  }

  /** The two's complement reading of an n-bit number. */
  function Signed(u: int, bits: nat): int
    requires bits >= 1
  {
    if u >= Pow2(bits - 1) then u - Pow2(bits) else u
  }

  lemma HighBits(c: uint64, bits: nat)
    requires bits < 64
    ensures Or(c, HighMask(bits)) == TWO64 - Pow2(bits) + Low(c, bits) < TWO64
  {
    hide Pow2, Or, Low;
    Pow2Words();
    LowBound(c, bits);
    OrHigh(c, bits, 64);
  }

  /** Copying the sign bit upwards. */
  lemma SignExtended(u: uint64, bits: nat)
    requires 1 <= bits < 64
    ensures BitOf(u, bits - 1) == 1 ==> Int64(Or(u, HighMask(bits))) == Signed(Low(u, bits), bits)
    ensures BitOf(u, bits - 1) != 1 ==> Int64(Low(u, bits)) == Signed(Low(u, bits), bits)
  {
    hide Pow2, BitOf, Or, HighMask, Low;
    LowBound(u, bits);
    Pow2Words();
    Pow2Step(bits);
    Pow2Monotone(bits, 63);
    HighBits(u, bits);
    TopBitOfLow(u, bits);
  }

  lemma FullWidth(u: uint64)
    ensures Int64(u) == Signed(u, 64)
  {
    Pow2Words();
  }

  method SetSignedBitfield(p: array<byte>, offset: nat, bits: nat, value: int64)
    requires bits <= 64 && offset + bits <= 8 * p.Length
    modifies p
    ensures Written(old(p[..]), p[..], offset, bits, Uint64(value))
  {
    SetUnsignedBitfield(p, offset, bits, Uint64(value));
  }

  method GetSignedBitfield(p: array<byte>, offset: nat, bits: nat) returns (value: int64)
    requires 1 <= bits <= 64 && offset + bits <= 8 * p.Length
    ensures value == Signed(Field(p[..], offset, bits), bits)
  {
    hide Field, Pow2, BitOf, Or, And, Signed, HighMask, Low, Int64, Uint64;
    var u := GetUnsignedBitfield(p, offset, bits);
    FieldBound(p[..], offset, bits);
    LowSmall(u, bits);
    SignTest(u, bits);
    value := Int64(u);
    if bits < 64 {
      SignExtended(u, bits);
      if And(Pow2(bits - 1), Uint64(value)) != 0 {
        value := Int64(Or(Uint64(value), HighMask(bits)));
      }
    } else {
      FullWidth(u);
    }
  }

  lemma SignTest(u: uint64, bits: nat)
    requires bits >= 1
    ensures Uint64(Int64(u)) == u
    ensures And(Pow2(bits - 1), u) != 0 <==> BitOf(u, bits - 1) == 1
  {
    AndPow2(u, bits - 1);
  }

  // ---------------------------------------------------------------- overflow

  datatype Overflow = Wrap | Sat | Fail

  function UnsignedMax(bits: nat): (m: uint64)
    requires 1 <= bits <= 64
  {
    Pow2Words();
    Pow2Monotone(bits, 64);
    Pow2(bits) - 1
  }

  function SignedMax(bits: nat): (m: int64)
    requires 1 <= bits <= 64
  {
    Pow2Words();
    Pow2Monotone(bits - 1, 63);
    Pow2(bits - 1) - 1
  }

  /** checkUnsignedBitfieldOverflow: the code, and the value to store if it is not zero. */
  function CheckUnsigned(value: uint64, incr: int64, bits: nat, ow: Overflow): (int, nat)
    requires 1 <= bits <= 63
  {
    var max := UnsignedMax(bits);
    var maxincr := Int64(max - value);
    var minincr := Int64(0 - value);
    var wrapped := And(Uint64(value + incr), Pow2(bits) - 1);
    if value > max || (incr > 0 && incr > maxincr) then (1, if ow == Wrap then wrapped else max)
    else if incr < 0 && incr < minincr then if ow == Wrap then (1, wrapped) else (-1, 0)
    else (0, 0)
  }

  /** checkSignedBitfieldOverflow */
  function CheckSigned(value: int64, incr: int64, bits: nat, ow: Overflow): (int, int64)
    requires 1 <= bits <= 64
  {
    var max := SignedMax(bits);
    var min := -max - 1;
    var maxincr := Int64(max - value);
    var minincr := Int64(min - value);
    if value > max || (bits != 64 && incr > maxincr) || (value >= 0 && incr > 0 && incr > maxincr) then
      (1, if ow == Wrap then SignedWrap(value, incr, bits) else max)
    else if value < min || (bits != 64 && incr < minincr) || (value < 0 && incr < 0 && incr < minincr) then
      if ow == Wrap then (1, SignedWrap(value, incr, bits)) else (-1, min)
    else (0, 0)
  }

  /** handle_wrap of the signed check. */
  function SignedWrap(value: int64, incr: int64, bits: nat): int64
    requires 1 <= bits <= 64
  {
    Pow2Words();
    Pow2Monotone(bits, 64);
    var c := (Uint64(value) + Uint64(incr)) % TWO64;
    if bits == 64 then Int64(c)
    else if And(Pow2(bits - 1), c) != 0 then Int64(Or(c, HighMask(bits)))
    else Int64(And(c, Pow2(bits) - 1))
  }

  function Clamp(t: int, min: int, max: int): (r: int)
    ensures min <= max ==> min <= r <= max
    ensures min <= t <= max ==> r == t
  {
    if t < min then min else if t > max then max else t
  }

  /** Reducing modulo 2^64 first does not change the value modulo 2^n. */
  lemma ModWords(t: int, bits: nat)
    requires bits <= 64
    ensures Low(Uint64(t), bits) == Low(t, bits)
  {
    hide Pow2, Low, High;
    Pow2Words();
    var m, k := Pow2(bits), Pow2(64 - bits);
    Pow2Add(bits, 64 - bits);
    var r := Uint64(t);
    LowJoin(r, bits);
    LowBound(r, bits);
    Regroup(m, k, t / TWO64, High(r, bits));
    LowUnique(t, bits, k * (t / TWO64) + High(r, bits), Low(r, bits));
  }

  lemma Regroup(m: int, k: int, q: int, h: int)
    ensures (m * k) * q + m * h == m * (k * q + h)
  {
  }

  /** INCRBY on an unsigned field: zero exactly when the true sum fits; else WRAP gives the sum modulo
      2^bits and SAT the nearest limit. */
  lemma UnsignedIncr(value: uint64, incr: int64, bits: nat, ow: Overflow)
    requires 1 <= bits <= 63 && value < Pow2(bits)
    ensures var t, r := value + incr, CheckUnsigned(value, incr, bits, ow);
            && (r.0 == 0 <==> 0 <= t < Pow2(bits))
            && (r.0 == 0 ==> Uint64(value + incr) == t)
            && (r.0 != 0 && ow == Wrap ==> r.1 == Low(t, bits))
            && (r.0 != 0 && ow == Sat ==> r.1 == Clamp(t, 0, Pow2(bits) - 1))
  {
    hide Pow2, And, Int64, Uint64, Low;
    Pow2Words();
    Pow2Monotone(bits, 63);
    MaskIsLow(value + incr, bits);
    InRange64(Pow2(bits) - 1 - value);
    InRange64(0 - value);
    InRange64(value + incr);
  }

  lemma MaskIsLow(t: int, bits: nat)
    requires bits <= 64
    ensures And(Uint64(t), Pow2(bits) - 1) == Low(t, bits)
  {
    hide Pow2, And;
    AndOnes(Uint64(t), bits);
    ModWords(t, bits);
  }

  /** SET on an unsigned field takes the argument as a uint64_t. */
  lemma UnsignedSet(value: uint64, bits: nat, ow: Overflow)
    requires 1 <= bits <= 63
    ensures var r := CheckUnsigned(value, 0, bits, ow);
            && (r.0 == 0 <==> value < Pow2(bits))
            && (r.0 != 0 && ow == Wrap ==> r.1 == Low(value, bits))
            && (r.0 != 0 && ow == Sat ==> r.1 == Clamp(value, 0, Pow2(bits) - 1))
  {
    hide Pow2, And, Low;
    MaskIsLow(value, bits);
  }

  lemma SignedWrapped(value: int64, incr: int64, bits: nat)
    requires 1 <= bits <= 64
    ensures SignedWrap(value, incr, bits) == Signed(Low(value + incr, bits), bits)
  {
    hide Pow2, BitOf, Or, And, Signed, HighMask, Low, Int64;
    var c := (Uint64(value) + Uint64(incr)) % TWO64;
    SumWraps(value, incr);
    ModWords(value + incr, bits);
    if bits == 64 {
      Pow2Words();
      LowSmall(c, 64);
      FullWidth(c);
    } else {
      SignTest(c, bits);
      SignExtended(c, bits);
      MaskIsLow(value + incr, bits);
    }
  }

  lemma SumWraps(a: int64, b: int64)
    ensures (Uint64(a) + Uint64(b)) % TWO64 == Uint64(a + b)
  {
  }

  function SignedMin(bits: nat): int
    requires 1 <= bits <= 64
  {
    -SignedMax(bits) - 1
  }

  /** INCRBY on a signed field: zero exactly when the true sum fits; else WRAP gives the two's complement
      reading of the sum modulo 2^bits and SAT the nearest limit. */
  lemma SignedIncr(value: int64, incr: int64, bits: nat, ow: Overflow)
    requires 1 <= bits <= 64 && SignedMin(bits) <= value <= SignedMax(bits)
    ensures var t, r := value + incr, CheckSigned(value, incr, bits, ow);
            && (r.0 == 0 <==> SignedMin(bits) <= t <= SignedMax(bits))
            && (r.0 != 0 && ow == Wrap ==> r.1 == Signed(Low(t, bits), bits))
            && (r.0 != 0 && ow == Sat ==> r.1 == Clamp(t, SignedMin(bits), SignedMax(bits)))
  {
    hide Pow2, SignedWrap, Signed, Low;
    SignedWrapped(value, incr, bits);
    Pow2Words();
    if bits < 64 {
      Pow2Monotone(bits - 1, 62);
      Pow2Step(63);
    }
  }

  /** SET on a signed field: the range test and WRAP are right for every argument. SAT is right except for an
      argument so far below the range that the distance from the maximum does not fit an int64_t, which
      is then stored as the maximum instead of the minimum. */
  lemma SignedSet(value: int64, bits: nat, ow: Overflow)
    requires 1 <= bits <= 64
    ensures var r := CheckSigned(value, 0, bits, ow);
            && (r.0 == 0 <==> SignedMin(bits) <= value <= SignedMax(bits))
            && (r.0 != 0 && ow == Wrap ==> r.1 == Signed(Low(value, bits), bits))
            && (r.0 != 0 && ow == Sat ==>
                 (r.1 == Clamp(value, SignedMin(bits), SignedMax(bits)) <==>
                     bits == 64 || SignedMax(bits) - value < TWO63))
            && (r.0 != 0 && ow == Sat && bits < 64 && SignedMax(bits) - value >= TWO63 ==> r.1 == SignedMax(bits))
  {
    hide Pow2, SignedWrap, Signed, Low, CheckSigned;
    SignedWrapped(value, 0, bits);
    CheckSignedSet(value, bits, ow);
    Pow2Words();
    if bits < 64 {
      Pow2Monotone(bits - 1, 62);
      Pow2Step(63);
    }
  }

  /** The check of SET, with no increment, in terms of true differences. */
  lemma CheckSignedSet(value: int64, bits: nat, ow: Overflow)
    requires 1 <= bits <= 64
    ensures var max := SignedMax(bits); var min := -max - 1;
            CheckSigned(value, 0, bits, ow) ==
            if value > max || (bits != 64 && max - value >= TWO63) then
              (1, if ow == Wrap then SignedWrap(value, 0, bits) else max)
            else if value < min then (if ow == Wrap then (1, SignedWrap(value, 0, bits)) else (-1, min))
            else (0, 0)
  {
    hide Pow2, SignedWrap;
    Pow2Words();
    if bits < 64 {
      Pow2Monotone(bits - 1, 62);
      Pow2Step(63);
    }
  }

  /** SET i8 to the least int64 with SAT stores 127, not -128. */
  lemma SaturatesUpwards()
    ensures CheckSigned(-TWO63, 0, 8, Sat) == (1, 127) && Clamp(-TWO63, SignedMin(8), SignedMax(8)) == -128
  {
    Pow2s();
  }

  // ---------------------------------------------------------------- SET and INCRBY end to end

  datatype Op = Op(set_: bool, signed: bool, bits: nat, offset: nat, arg: int64, ow: Overflow)
  {
    /** u1..u63 and i1..i64, inside the string. */
    predicate Fits(len: nat) {
      1 <= bits <= (if signed then 64 else 63) && offset + bits <= 8 * len
    }

    function Min(): int
      requires 1 <= bits <= 64
    {
      if signed then SignedMin(bits) else 0
    }

    function Max(): int
      requires 1 <= bits <= 64
    {
      if signed then SignedMax(bits) else UnsignedMax(bits)
    }

    /** The number the field holds. */
    function Value(s: bytes): int
      requires Fits(|s|)
    {
      if signed then Signed(Field(s, offset, bits), bits) else Field(s, offset, bits)
    }

    /** The number asked for: the argument, or the true sum. */
    function Target(s: bytes): int
      requires Fits(|s|)
    {
      if !set_ then Value(s) + arg else if signed then arg else Uint64(arg)
    }

    predicate Overflows(s: bytes)
      requires Fits(|s|)
    {
      !(Min() <= Target(s) <= Max())
    }

    /** The one number in range that is congruent to t modulo 2^bits. */
    function Wrapped(t: int): int
      requires 1 <= bits <= 64
    {
      if signed then Signed(Low(t, bits), bits) else Low(t, bits)
    }

    /** Where saturation goes the wrong way. */
    predicate FarBelow() {
      set_ && signed && 1 <= bits < 64 && SignedMax(bits) - arg >= TWO63
    }

    /** The number stored, when something is. */
    function Stored(s: bytes): int
      requires Fits(|s|)
    {
      var t := Target(s);
      if !Overflows(s) then t
      else if ow == Wrap then Wrapped(t)
      else if FarBelow() then Max()
      else Clamp(t, Min(), Max())
    }
  }

  datatype Reply = Null | Number(n: int)

  lemma ValueInRange(s: bytes, op: Op)
    requires op.Fits(|s|)
    ensures op.Min() <= op.Value(s) <= op.Max()
  {
    hide Pow2, Field;
    FieldBound(s, op.offset, op.bits);
    Pow2Step(op.bits);
  }

  lemma SignedRound(v: int, bits: nat)
    requires 1 <= bits <= 64 && SignedMin(bits) <= v <= SignedMax(bits)
    ensures Signed(Low(v, bits), bits) == v
  {
    hide Pow2, Low;
    Pow2Step(bits);
    if v >= 0 {
      LowSmall(v, bits);
    } else {
      LowUnique(v, bits, -1, v + Pow2(bits));
    }
  }

  /** WRAP: in range and congruent to the target, which determines it. */
  lemma WrapMeans(op: Op, t: int)
    requires 1 <= op.bits <= 64
    ensures op.Min() <= op.Wrapped(t) <= op.Max()
    ensures Low(t - op.Wrapped(t), op.bits) == 0
  {
    hide Pow2, Low, High;
    var bits := op.bits;
    Pow2Step(bits);
    LowJoin(t, bits);
    LowBound(t, bits);
    if op.Wrapped(t) == Low(t, bits) {
      LowUnique(t - op.Wrapped(t), bits, High(t, bits), 0);
    } else {
      OneMore(Pow2(bits), High(t, bits));
      LowUnique(t - op.Wrapped(t), bits, High(t, bits) + 1, 0);
    }
  }

  lemma OneMore(m: int, h: int)
    ensures m * (h + 1) == m * h + m
  {
  }

  /** Writing a number in range and reading the field gives the number. */
  lemma ValueReadBack(before: bytes, after: bytes, op: Op, v: int)
    requires op.Fits(|before|) && op.Min() <= v <= op.Max() && Written(before, after, op.offset, op.bits, Uint64(v))
    ensures op.Value(after) == v
  {
    hide Pow2, Field, Signed, Low, Written;
    assert |after| == |before| by { SameLength(before, after, op, v); }
    ReadBack(before, after, op.offset, op.bits, Uint64(v));
    ModWords(v, op.bits);
    if op.signed {
      SignedRound(v, op.bits);
    } else {
      LowSmall(v, op.bits);
    }
  }

  lemma SameLength(before: bytes, after: bytes, op: Op, v: int)
    requires op.Fits(|before|) && Written(before, after, op.offset, op.bits, Uint64(v))
    ensures |after| == |before|
  {
  }

  /** The number the checks choose, and whether they report overflow. */
  function Chosen(op: Op, old_: int): (r: (bool, int))
    requires 1 <= op.bits <= (if op.signed then 64 else 63)
    requires op.Min() <= old_ <= op.Max()
  {
    if op.signed then
      if op.set_ then
        var c := CheckSigned(op.arg, 0, op.bits, op.ow);
        (c.0 != 0, if c.0 != 0 then c.1 else op.arg)
      else
        var c := CheckSigned(old_, op.arg, op.bits, op.ow);
        (c.0 != 0, if c.0 != 0 then c.1 else Int64(old_ + op.arg))
    else
      if op.set_ then
        var c := CheckUnsigned(Uint64(op.arg), 0, op.bits, op.ow);
        (c.0 != 0, if c.0 != 0 then c.1 else Uint64(op.arg))
      else
        var c := CheckUnsigned(old_, op.arg, op.bits, op.ow);
        (c.0 != 0, if c.0 != 0 then c.1 else Uint64(old_ + op.arg))
  }

  lemma ChosenIsStored(s: bytes, op: Op)
    requires op.Fits(|s|)
    ensures op.Min() <= op.Value(s) <= op.Max()
    ensures var r := Chosen(op, op.Value(s)); r.0 == op.Overflows(s) && (op.ow != Fail || !r.0 ==> r.1 == op.Stored(s))
  {
    hide Pow2, Field, Signed, Low, CheckSigned, CheckUnsigned;
    ValueInRange(s, op);
    var v := op.Value(s);
    if op.signed {
      SignedSet(op.arg, op.bits, op.ow);
      SignedIncr(v, op.arg, op.bits, op.ow);
      InRange64(v + op.arg);
    } else {
      UnsignedSet(Uint64(op.arg), op.bits, op.ow);
      UnsignedIncr(v, op.arg, op.bits, op.ow);
    }
  }

  /** No bit outside the field changed. */
  ghost predicate OthersSame(before: bytes, after: bytes, offset: nat, bits: nat) {
    && |after| == |before|
    && forall i :: 0 <= i < 8 * |before| && !(offset <= i < offset + bits) ==>
        StringBit(after, i) == StringBit(before, i)
  }

  /** One SET or INCRBY of bitfieldGeneric on a string already grown to hold the field. */
  method Execute(p: array<byte>, op: Op) returns (reply: Reply)
    requires op.Fits(p.Length)
    modifies p
    ensures var s := old(p[..]);
            && (op.ow == Fail && op.Overflows(s) ==> reply == Null && p[..] == s)
            && (!(op.ow == Fail && op.Overflows(s)) ==> reply == Number(if op.set_ then op.Value(s) else op.Stored(s)))
            && (!(op.ow == Fail && op.Overflows(s)) ==> op.Value(p[..]) == op.Stored(s))
            && OthersSame(s, p[..], op.offset, op.bits)
  {
    hide Pow2, Field, Signed, Low, CheckSigned, CheckUnsigned, StringBit, Written;
    ghost var s := p[..];
    ChosenIsStored(s, op);
    var v: int;
    if op.signed {
      v := GetSignedBitfield(p, op.offset, op.bits);
    } else {
      v := GetUnsignedBitfield(p, op.offset, op.bits);
    }
    var (overflow, new_) := Chosen(op, v);
    if overflow && op.ow == Fail {
      return Null;
    }
    StoredInRange(s, op);
    RangeFits(op);
    if op.signed {
      SetSignedBitfield(p, op.offset, op.bits, new_);
    } else {
      InRange64(new_);
      SetUnsignedBitfield(p, op.offset, op.bits, new_);
    }
    WrittenOthers(s, p[..], op, Uint64(new_));
    ValueReadBack(s, p[..], op, new_);
    reply := Number(if op.set_ then v else new_);
  }

  lemma StoredInRange(s: bytes, op: Op)
    requires op.Fits(|s|) && !(op.ow == Fail && op.Overflows(s))
    ensures op.Min() <= op.Stored(s) <= op.Max()
  {
    hide Pow2, Field, Signed, Low;
    WrapMeans(op, op.Target(s));
    LimitsOrdered(op);
  }

  lemma LimitsOrdered(op: Op)
    requires 1 <= op.bits <= 64
    ensures op.Min() <= op.Max()
  {
  }

  lemma RangeFits(op: Op)
    requires 1 <= op.bits <= (if op.signed then 64 else 63)
    ensures -TWO63 <= op.Min() && op.Max() < (if op.signed then TWO63 else TWO64)
  {
    hide Pow2;
    Pow2Words();
    Pow2Monotone(op.bits, if op.signed then 64 else 63);
    Pow2Monotone(op.bits - 1, 63);
  }

  lemma WrittenOthers(before: bytes, after: bytes, op: Op, value: nat)
    requires op.Fits(|before|) && Written(before, after, op.offset, op.bits, value)
    ensures OthersSame(before, after, op.offset, op.bits)
  {
  }
}
