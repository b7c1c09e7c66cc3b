/** BITCOUNT: counting set bits 28 bytes at a time inside machine words, and the edges of a bit range. */
module Bitcount {
  import opened Bytes
  import opened Bits
  import opened Bitpos

  // ---------------------------------------------------------------- counting, bit by bit

  /** Set bits among positions lo..hi of the string. */
  function CountBits(s: bytes, lo: nat, hi: nat): nat
    requires hi <= 8 * |s|
  {
    if lo >= hi then 0 else CountBits(s, lo, hi - 1) + StringBit(s, hi - 1)
  }

  lemma {:induction false} CountSplit(s: bytes, lo: nat, mid: nat, hi: nat)
    requires lo <= mid <= hi <= 8 * |s|
    ensures CountBits(s, lo, hi) == CountBits(s, lo, mid) + CountBits(s, mid, hi)
    decreases hi
  {
    hide StringBit;
    if mid < hi { CountSplit(s, lo, mid, hi - 1); }
  }

  /** Equal bits give equal counts. */
  lemma {:induction false} CountSame(s: bytes, lo: nat, hi: nat, t: bytes, at: nat)
    requires lo <= hi <= 8 * |s| && at + (hi - lo) <= 8 * |t|
    requires forall i :: lo <= i < hi ==> StringBit(s, i) == StringBit(t, at + (i - lo))
    ensures CountBits(s, lo, hi) == CountBits(t, at, at + (hi - lo))
    decreases hi
  {
    hide StringBit;
    if lo < hi {
      CountSame(s, lo, hi - 1, t, at);
      assert StringBit(s, hi - 1) == StringBit(t, at + (hi - 1 - lo));
    }
  }

  lemma {:induction false} CountNone(s: bytes, lo: nat, hi: nat)
    requires hi <= 8 * |s| && forall i :: lo <= i < hi ==> StringBit(s, i) == 0
    ensures CountBits(s, lo, hi) == 0
    decreases hi
  {
    hide StringBit;
    if lo < hi { CountNone(s, lo, hi - 1); }
  }

  // ---------------------------------------------------------------- counting in a byte

  /** bitsinbyte: the number of set bits. */
  function Pop(x: nat): nat {
    if x == 0 then 0 else x % 2 + Pop(x / 2)
  }

  function PopAll(s: bytes): nat {
    if s == [] then 0 else PopAll(s[..|s| - 1]) + Pop(s[|s| - 1])
  }

  lemma PopStep(x: nat)
    ensures Pop(x) == x % 2 + Pop(x / 2)
  {
  }

  lemma PopNone()
    ensures Pop(0) == 0
  {
  }

  /** The first j bits of a byte of the string are its high bits. */
  lemma {:induction false} HighCount(s: bytes, q: nat, j: nat)
    requires q < |s| && j <= 8
    ensures CountBits(s, 8 * q, 8 * q + j) == Pop(High(s[q], 8 - j))
  {
    hide Pop, BitOf, High;
    if j == 0 {
      AboveByte(s[q]);
      PopNone();
    } else {
      HighCount(s, q, j - 1);
      HighHalf(s[q], 9 - j);
      PopStep(High(s[q], 8 - j));
      HighBit(s[q], 8 - j);
      LastBit(s, q, j);
    }
  }

  lemma AboveByte(b: byte)
    ensures High(b, 8) == 0 && High(b, 0) == b
  {
    Pow2s();
    LowSmall(b, 8);
  }

  lemma LastBit(s: bytes, q: nat, j: nat)
    requires q < |s| && 0 < j <= 8
    ensures CountBits(s, 8 * q, 8 * q + j) == CountBits(s, 8 * q, 8 * q + j - 1) + BitOf(s[q], 8 - j)
  {
    hide BitOf;
    assert (8 * q + j - 1) / 8 == q && (8 * q + j - 1) % 8 == j - 1;
  }

  lemma ByteCount(s: bytes, q: nat)
    requires q < |s|
    ensures CountBits(s, 8 * q, 8 * q + 8) == Pop(s[q])
  {
    hide Pop, High;
    HighCount(s, q, 8);
    AboveByte(s[q]);
  }

  lemma {:induction false} PopAllCounts(s: bytes)
    ensures PopAll(s) == CountBits(s, 0, 8 * |s|)
  {
    hide Pop;
    if s != [] {
      var n := |s| - 1;
      PopAllCounts(s[..n]);
      PrefixCount(s, n);
      CountSplit(s, 0, 8 * n, 8 * |s|);
      ByteCount(s, n);
    }
  }

  lemma PrefixCount(s: bytes, n: nat)
    requires n <= |s|
    ensures CountBits(s[..n], 0, 8 * n) == CountBits(s, 0, 8 * n)
  {
    assert forall i :: 0 <= i < 8 * n ==> StringBit(s[..n], i) == StringBit(s, 0 + (i - 0));
    CountSame(s[..n], 0, 8 * n, s, 0);
  }

  // ---------------------------------------------------------------- counting inside a word

  /** Masks of n repeated groups: 01, 0011 and 00001111. */
  function Mask1(n: nat): nat { if n == 0 then 0 else 4 * Mask1(n - 1) + 1 }
  function Mask2(n: nat): nat { if n == 0 then 0 else 16 * Mask2(n - 1) + 3 }
  function Mask3(n: nat): nat { if n == 0 then 0 else 256 * Mask3(n - 1) + 15 }

  /** The counts of n groups of two, four and eight bits, each in its own group. */
  function Counts2(x: nat, n: nat): nat { if n == 0 then 0 else 4 * Counts2(x / 4, n - 1) + Pop(x % 4) }
  function Counts4(x: nat, n: nat): nat { if n == 0 then 0 else 16 * Counts4(x / 16, n - 1) + Pop(x % 16) }
  function Counts8(x: nat, n: nat): nat { if n == 0 then 0 else 256 * Counts8(x / 256, n - 1) + Pop(x % 256) }

  lemma PopPair(d: nat)
    requires d < 4
    ensures Pop(d) == d - d / 2 <= 2
  {
    PopStep(d / 2);
  }

  lemma {:induction false} PopSplit(x: nat, n: nat)
    ensures Pop(x) == Pop(Low(x, n)) + Pop(High(x, n))
  {
    hide Pop;
    if n == 0 {
      PopNone();
    } else {
      PopSplit(x / 2, n - 1);
      PopStep(x);
      PopStep(Low(x, n));
    }
  }

  lemma {:induction false} PopBound(x: nat, n: nat)
    requires x < Pow2(n)
    ensures Pop(x) <= n
  {
    if n > 0 { PopBound(x / 2, n - 1); }
  }

  lemma PopNibble(d: nat)
    requires d < 16
    ensures Pop(d) == Pop(d % 4) + Pop(d / 4) <= 4
  {
    hide Pop, Pow2, Low, High;
    Pow2s();
    PopSplit(d, 2);
    Parts4(d);
    PopBound(d, 4);
  }

  lemma PopOctet(d: nat)
    requires d < 256
    ensures Pop(d) == Pop(d % 16) + Pop(d / 16) <= 8
  {
    hide Pop, Pow2, Low, High;
    Pow2s();
    PopSplit(d, 4);
    Parts16(d);
    PopBound(d, 8);
  }

  lemma Parts4(d: nat)
    ensures Low(d, 2) == d % 4 && High(d, 2) == d / 4
  {
    hide Low, High, Pow2;
    Pow2s();
    LowIsMod(d, 2);
    LowJoin(d, 2);
  }

  lemma Parts16(d: nat)
    ensures Low(d, 4) == d % 16 && High(d, 4) == d / 16
  {
    hide Low, High, Pow2;
    Pow2s();
    LowIsMod(d, 4);
    LowJoin(d, 4);
  }

  lemma Nested4(a: nat, b: nat, c: nat)
    requires b < 4 && c < 4
    ensures var x := 4 * (4 * a + b) + c; (x % 16) % 4 == c && (x % 16) / 4 == b
  {
  }

  lemma Nested16(a: nat, b: nat, c: nat)
    requires b < 16 && c < 16
    ensures var x := 16 * (16 * a + b) + c; (x % 256) % 16 == c && (x % 256) / 16 == b
  {
  }

  lemma LowOfLow(y: nat)
    ensures Low(y % 4, 1) == y % 2 && Low(y % 16, 2) == y % 4 && Low(y % 256, 4) == y % 16
  {
    hide Pow2;
    LowOne(y);
    hide Low;
    Parts4(y % 16);
    Parts16(y % 256);
    Nested4((y / 4) / 4, (y / 4) % 4, y % 4);
    Nested16((y / 16) / 16, (y / 16) % 16, y % 16);
  }

  lemma LowOne(y: nat)
    ensures Low(y % 4, 1) == y % 2
  {
  }

  lemma And1(y: nat, n: nat)
    requires n > 0
    ensures And(y, Mask1(n)) == 4 * And(y / 4, Mask1(n - 1)) + y % 2
  {
    hide And, Pow2, Low;
    Pow2s();
    AndLanes(y / 4, y % 4, Mask1(n - 1), 1, 2);
    AndOnes(y % 4, 1);
    LowOfLow(y);
  }

  lemma And2(y: nat, n: nat)
    requires n > 0
    ensures And(y, Mask2(n)) == 16 * And(y / 16, Mask2(n - 1)) + y % 4
  {
    hide And, Pow2, Low;
    Pow2s();
    AndLanes(y / 16, y % 16, Mask2(n - 1), 3, 4);
    AndOnes(y % 16, 2);
    LowOfLow(y);
  }

  lemma And3(y: nat, n: nat)
    requires n > 0
    ensures And(y, Mask3(n)) == 256 * And(y / 256, Mask3(n - 1)) + y % 16
  {
    hide And, Pow2, Low;
    Pow2s();
    AndLanes(y / 256, y % 256, Mask3(n - 1), 15, 8);
    AndOnes(y % 256, 4);
    LowOfLow(y);
  }

  lemma HalfOfDigits(h: nat, d: nat)
    requires d < 4
    ensures var x := 4 * h + d; (x / 2) / 4 == h / 2 && (x / 2) % 2 == d / 2
  {
    var x, y := 4 * h + d, 2 * h + d / 2;
    ModUnique(x, 2, y, d % 2);
    ModUnique(y, 4, h / 2, 2 * (h % 2) + d / 2);
    ModUnique(y, 2, h, d / 2);
  }

  /** x - ((x >> 1) & 0x55555555) counts in pairs. */
  lemma {:induction false} Step1(x: nat, n: nat)
    requires x < Pow2(2 * n)
    ensures And(x / 2, Mask1(n)) <= x && x - And(x / 2, Mask1(n)) == Counts2(x, n)
  {
    hide And, Pop, Pow2;
    Pow2s();
    if n == 0 {
      NoBits(x / 2);
    } else {
      Pow2Add(2, 2 * n - 2);
      HalfOfDigits(x / 4, x % 4);
      Step1(x / 4, n - 1);
      And1(x / 2, n);
      PopPair(x % 4);
    }
  }

  lemma Counts2Twice(x: nat, n: nat)
    requires n > 0
    ensures Counts2(x, 2 * n) == 16 * Counts2(x / 16, 2 * n - 2) + 4 * Pop((x / 4) % 4) + Pop(x % 4)
  {
    hide Pop;
    assert Counts2(x / 4, 2 * n - 1) == 4 * Counts2(x / 16, 2 * n - 2) + Pop((x / 4) % 4);
  }

  lemma NibbleParts(x: nat)
    ensures Pop(x % 16) == Pop(x % 4) + Pop((x / 4) % 4) && Pop(x % 4) <= 2 && Pop((x / 4) % 4) <= 2
  {
    hide Pop;
    PopNibble(x % 16);
    PopPair(x % 4);
    PopPair((x / 4) % 4);
    Nested4((x / 4) / 4, (x / 4) % 4, x % 4);
  }

  lemma OctetParts(x: nat)
    ensures Pop(x % 256) == Pop(x % 16) + Pop((x / 16) % 16) && Pop(x % 16) <= 4 && Pop((x / 16) % 16) <= 4
  {
    hide Pop;
    PopOctet(x % 256);
    PopNibble(x % 16);
    PopNibble((x / 16) % 16);
    Nested16((x / 16) / 16, (x / 16) % 16, x % 16);
  }

  lemma DigitsOf(h: nat, p1: nat, p0: nat)
    requires p1 < 4 && p0 < 4
    ensures var y := 16 * h + 4 * p1 + p0; y / 16 == h && y % 4 == p0 && (y / 4) / 16 == h / 4 && (y / 4) % 4 == p1
  {
    var y := 16 * h + 4 * p1 + p0;
    assert y / 4 == 4 * h + p1;
  }

  lemma CountsStep(x: nat, n: nat)
    ensures Counts2(x, 0) == Counts4(x, 0) == Counts8(x, 0) == Mask2(0) == Mask3(0) == 0
    ensures n > 0 ==> Counts4(x, n) == 16 * Counts4(x / 16, n - 1) + Pop(x % 16)
    ensures n > 0 ==> Counts8(x, n) == 256 * Counts8(x / 256, n - 1) + Pop(x % 256)
  {
  }

  /** (x & 0x33333333) + ((x >> 2) & 0x33333333) adds the pairs. */
  lemma {:induction false} Step2(x: nat, n: nat)
    ensures var y := Counts2(x, 2 * n); And(y, Mask2(n)) + And(y / 4, Mask2(n)) == Counts4(x, n)
  {
    hide And, Pop, Counts2, Counts4, Mask2;
    var y := Counts2(x, 2 * n);
    CountsStep(x, n);
    if n == 0 {
      NoBits(y);
    } else {
      var h, p0, p1 := Counts2(x / 16, 2 * n - 2), Pop(x % 4), Pop((x / 4) % 4);
      NibbleParts(x);
      Counts2Twice(x, n);
      DigitsOf(h, p1, p0);
      And2(y, n);
      And2(y / 4, n);
      Step2(x / 16, n - 1);
    }
  }

  lemma Counts4Twice(x: nat, n: nat)
    requires n > 0
    ensures Counts4(x, 2 * n) == 256 * Counts4(x / 256, 2 * n - 2) + 16 * Pop((x / 16) % 16) + Pop(x % 16)
  {
    hide Pop;
    assert Counts4(x / 16, 2 * n - 1) == 16 * Counts4(x / 256, 2 * n - 2) + Pop((x / 16) % 16);
  }

  lemma Counts4Low(x: nat, n: nat)
    ensures Counts4(x, n) % 16 <= 4
  {
    hide Pop;
    PopNibble(x % 16);
  }

  /** (x + (x >> 4)) & 0x0F0F0F0F adds the nibbles. */
  lemma {:induction false} Step3(x: nat, n: nat)
    ensures var z := Counts4(x, 2 * n); And(z + z / 16, Mask3(n)) == Counts8(x, n)
  {
    hide And, Pop, Counts4, Counts8, Mask3;
    var z := Counts4(x, 2 * n);
    CountsStep(x, n);
    if n == 0 {
      NoBits(z + z / 16);
    } else {
      var h, p0, p1 := Counts4(x / 256, 2 * n - 2), Pop(x % 16), Pop((x / 16) % 16);
      OctetParts(x);
      Counts4Twice(x, n);
      Counts4Low(x / 256, 2 * n - 2);
      Carries(h, p1, p0);
      And3(z + z / 16, n);
      Step3(x / 256, n - 1);
    }
  }

  lemma Carries(h: nat, p1: nat, p0: nat)
    requires h % 16 <= 4 && p1 <= 4 && p0 <= 4
    ensures var z := 256 * h + 16 * p1 + p0; (z + z / 16) / 256 == h + h / 16 && (z + z / 16) % 16 == p0 + p1
  {
    var z, k, l := 256 * h + 16 * p1 + p0, h / 16, h % 16;
    ModUnique(z, 16, 16 * h + p1, p0);
    var w := 256 * (h + k) + (16 * (l + p1) + p0 + p1);
    ModUnique(w, 256, h + k, 16 * (l + p1) + p0 + p1);
    ModUnique(w, 16, 16 * (h + k) + l + p1, p0 + p1);
  }

  const TWO32 := 0x1_0000_0000

  /** uint32_t arithmetic wraps. */
  function U32(x: int): nat { x % TWO32 }

  /** What redisPopcount does to one 32-bit word: the count of each byte, in that byte. */
  function ByteCounts(aux: nat): nat {
    var pairs := U32(aux - And(aux / 2, 0x5555_5555));
    var nibbles := U32(And(pairs, 0x3333_3333) + And(pairs / 4, 0x3333_3333));
    And(U32(nibbles + nibbles / 16), 0x0F0F_0F0F)
  }

  /** Adding up the bytes of a word by a multiplication. */
  function AddBytes(x: nat): nat {
    U32(x * 0x0101_0101) / 0x100_0000
  }

  lemma {:induction false} Counts2Bound(x: nat, n: nat)
    ensures Counts2(x, n) < Pow2(2 * n)
  {
    hide Pop, Pow2;
    Pow2s();
    if n > 0 {
      Counts2Bound(x / 4, n - 1);
      Pow2Add(2, 2 * n - 2);
      PopPair(x % 4);
    }
  }

  lemma {:induction false} Counts4Bound(x: nat, n: nat)
    ensures 15 * Counts4(x, n) <= 4 * (Pow2(4 * n) - 1)
  {
    hide Pop, Pow2;
    Pow2s();
    if n > 0 {
      Counts4Bound(x / 16, n - 1);
      Pow2Add(4, 4 * n - 4);
      PopNibble(x % 16);
    }
  }

  lemma Masks()
    ensures Mask1(16) == 0x5555_5555 && Mask2(8) == 0x3333_3333 && Mask3(4) == 0x0F0F_0F0F
  {
    assert Mask1(2) == 0x5;
    assert Mask1(4) == 0x55;
    assert Mask1(6) == 0x555;
    assert Mask1(8) == 0x5555;
    assert Mask1(10) == 0x5_5555;
    assert Mask1(12) == 0x55_5555;
    assert Mask1(14) == 0x555_5555;
    assert Mask2(2) == 0x33;
    assert Mask2(4) == 0x3333;
    assert Mask2(6) == 0x33_3333;
    assert Mask3(2) == 0x0F0F;
  }

  lemma Pow2Of32()
    ensures Pow2(32) == TWO32
  {
    hide Pow2;
    Pow2s();
    Pow2Add(8, 8);
    Pow2Add(16, 16);
  }

  lemma WordCounts(x: nat)
    requires x < TWO32
    ensures ByteCounts(x) == Counts8(x, 4)
  {
    hide And, Counts2, Counts4, Counts8, Mask1, Mask2, Mask3, Pow2, U32;
    Masks();
    Pow2Of32();
    Step1(x, 16);
    Counts2Bound(x, 16);
    Step2(x, 8);
    Counts4Bound(x, 8);
    Step3(x, 4);
    var pairs, nibbles := Counts2(x, 16), Counts4(x, 8);
    U32Small(pairs);
    U32Small(nibbles);
    U32Small(nibbles + nibbles / 16);
  }

  lemma U32Small(x: nat)
    requires x < TWO32
    ensures U32(x) == x
  {
  }

  /** Four bytes, the first the least significant. */
  function Lanes(b0: nat, b1: nat, b2: nat, b3: nat): nat {
    b0 + 256 * (b1 + 256 * (b2 + 256 * b3))
  }

  lemma LoadedLanes(w: bytes)
    requires |w| == 4
    ensures LittleEndian(w) == Lanes(w[0], w[1], w[2], w[3]) < TWO32
  {
    assert LittleEndian(w[1..]) == w[1] + 256 * LittleEndian(w[1..][1..]);
    assert LittleEndian(w[1..][1..]) == w[2] + 256 * LittleEndian(w[1..][1..][1..]);
    assert LittleEndian(w[1..][1..][1..]) == w[3];
  }

  lemma LaneCounts(b0: byte, b1: byte, b2: byte, b3: byte)
    ensures Counts8(Lanes(b0, b1, b2, b3), 4) == Lanes(Pop(b0), Pop(b1), Pop(b2), Pop(b3))
  {
    hide *;
    var h3: nat := b3;
    var h2: nat := b2 + 256 * h3;
    var h1: nat := b1 + 256 * h2;
    var h0: nat := b0 + 256 * h1;
    LanesAre(b0, b1, b2, b3);
    LanesAre(Pop(b0), Pop(b1), Pop(b2), Pop(b3));
    CountsOne(b0, h1, 4);
    CountsOne(b1, h2, 3);
    CountsOne(b2, h3, 2);
    CountsLast(b3);
  }

  lemma LanesAre(b0: nat, b1: nat, b2: nat, b3: nat)
    ensures Lanes(b0, b1, b2, b3) == b0 + 256 * (b1 + 256 * (b2 + 256 * b3))
  {
  }

  lemma CountsLast(b: byte)
    ensures Counts8(b, 1) == Pop(b)
  {
    hide Pop;
    CountsOne(b, 0, 1);
  }

  lemma CountsOne(b: byte, h: nat, n: nat)
    requires n > 0
    ensures Counts8(b + 256 * h, n) == 256 * Counts8(h, n - 1) + Pop(b)
  {
    hide Pop;
    assert (b + 256 * h) % 256 == b && (b + 256 * h) / 256 == h;
  }

  /** The multiplication adds four lanes without losing a carry, if each is at most 56. */
  lemma AddLanes(l0: nat, l1: nat, l2: nat, l3: nat)
    requires l0 <= 56 && l1 <= 56 && l2 <= 56 && l3 <= 56
    ensures AddBytes(Lanes(l0, l1, l2, l3)) == l0 + l1 + l2 + l3 <= 224
  {
    var x := Lanes(l0, l1, l2, l3);
    var low := l0 + 0x100 * (l0 + l1) + 0x1_0000 * (l0 + l1 + l2);
    var high := (l1 + l2 + l3) + 0x100 * (l2 + l3) + 0x1_0000 * l3;
    assert x * 0x0101_0101 == low + 0x100_0000 * (l0 + l1 + l2 + l3) + TWO32 * high;
    ModUnique(x * 0x0101_0101, TWO32, high, low + 0x100_0000 * (l0 + l1 + l2 + l3));
  }

  // ---------------------------------------------------------------- redisPopcount

  lemma {:induction false} PopAllConcat(a: bytes, b: bytes)
    ensures PopAll(a + b) == PopAll(a) + PopAll(b)
    decreases |b|
  {
    hide Pop;
    if b == [] {
      assert a + b == a;
    } else {
      var n := |b| - 1;
      assert (a + b)[..|a + b| - 1] == a + b[..n];
      PopAllConcat(a, b[..n]);
    }
  }

  /** The four lanes of a loaded word after counting. */
  lemma CountedWord(w: bytes)
    requires |w| == 4
    ensures ByteCounts(LittleEndian(w)) == Lanes(Pop(w[0]), Pop(w[1]), Pop(w[2]), Pop(w[3]))
    ensures Pop(w[0]) <= 8 && Pop(w[1]) <= 8 && Pop(w[2]) <= 8 && Pop(w[3]) <= 8
    ensures PopAll(w) == Pop(w[0]) + Pop(w[1]) + Pop(w[2]) + Pop(w[3])
  {
    hide Pop, ByteCounts, LittleEndian;
    LoadedLanes(w);
    WordCounts(LittleEndian(w));
    LaneCounts(w[0], w[1], w[2], w[3]);
    PopOctet(w[0]);
    PopOctet(w[1]);
    PopOctet(w[2]);
    PopOctet(w[3]);
    assert PopAll(w) == PopAll(w[..3]) + Pop(w[3]);
    assert w[..3][..2] == w[..2] && w[..2][..1] == w[..1];
    assert PopAll(w[..3]) == PopAll(w[..2]) + Pop(w[2]);
    assert PopAll(w[..2]) == PopAll(w[..1]) + Pop(w[1]);
    assert PopAll(w[..1]) == Pop(w[0]);
  }

  /** The sum of the byte counts of k words, lane by lane. */
  function SumCounts(w: bytes, k: nat): nat
    requires 4 * k <= |w|
  {
    if k == 0 then 0 else U32(SumCounts(w, k - 1) + ByteCounts(LittleEndian(w[4 * k - 4..4 * k])))
  }

  lemma {:induction false} SummedLanes(w: bytes, k: nat) returns (l0: nat, l1: nat, l2: nat, l3: nat)
    requires 4 * k <= |w| && k <= 7
    ensures l0 <= 8 * k && l1 <= 8 * k && l2 <= 8 * k && l3 <= 8 * k
    ensures SumCounts(w, k) == Lanes(l0, l1, l2, l3)
    ensures PopAll(w[..4 * k]) == l0 + l1 + l2 + l3
  {
    hide Pop, ByteCounts, LittleEndian, PopAll, Lanes, U32;
    if k == 0 {
      l0, l1, l2, l3 := 0, 0, 0, 0;
      LanesAre(0, 0, 0, 0);
      assert w[..0] == [];
      NoPops();
    } else {
      var m0, m1, m2, m3 := SummedLanes(w, k - 1);
      var v := w[4 * k - 4..4 * k];
      CountedWord(v);
      l0, l1, l2, l3 := m0 + Pop(v[0]), m1 + Pop(v[1]), m2 + Pop(v[2]), m3 + Pop(v[3]);
      LaneSum(m0, m1, m2, m3, Pop(v[0]), Pop(v[1]), Pop(v[2]), Pop(v[3]));
      assert w[..4 * k] == w[..4 * k - 4] + v;
      PopAllConcat(w[..4 * k - 4], v);
    }
  }

  lemma LaneSum(a0: nat, a1: nat, a2: nat, a3: nat, b0: nat, b1: nat, b2: nat, b3: nat)
    requires a0 + b0 < 256 && a1 + b1 < 256 && a2 + b2 < 256 && a3 + b3 < 256
    ensures U32(Lanes(a0, a1, a2, a3) + Lanes(b0, b1, b2, b3)) == Lanes(a0 + b0, a1 + b1, a2 + b2, a3 + b3)
  {
  }

  lemma NoPops()
    ensures PopAll([]) == 0
  {
  }

  /** Twenty-eight bytes at a time. */
  lemma SevenWords(w: bytes)
    requires |w| == 28
    ensures AddBytes(SumCounts(w, 7)) == PopAll(w)
  {
    hide Pop, ByteCounts, LittleEndian, PopAll, AddBytes, SumCounts, Lanes;
    var l0, l1, l2, l3 := SummedLanes(w, 7);
    AddLanes(l0, l1, l2, l3);
    assert w[..28] == w;
  }

  /** redisPopcount: `align` is the address of the string. */
  method RedisPopcount(s: bytes, align: nat) returns (bits: nat)
    ensures bits == CountBits(s, 0, 8 * |s|)
  {
    hide Pop, AddBytes, SumCounts, PopAll, CountBits;
    bits := 0;
    var c := 0;
    assert s[..0] == [];
    NoPops();
    while (align + c) % 4 != 0 && c < |s|
      invariant c <= |s| && bits == PopAll(s[..c])
      decreases |s| - c
    {
      OneMore(s, c);
      bits := bits + Pop(s[c]);
      c := c + 1;
    }
    while |s| - c >= 28
      invariant c <= |s| && bits == PopAll(s[..c])
    {
      SevenWords(s[c..c + 28]);
      assert s[..c + 28] == s[..c] + s[c..c + 28];
      PopAllConcat(s[..c], s[c..c + 28]);
      bits := bits + AddBytes(SumCounts(s[c..c + 28], 7));
      c := c + 28;
    }
    while c < |s|
      invariant c <= |s| && bits == PopAll(s[..c])
    {
      OneMore(s, c);
      bits := bits + Pop(s[c]);
      c := c + 1;
    }
    assert s[..c] == s;
    PopAllCounts(s);
  }

  lemma OneMore(s: bytes, c: nat)
    requires c < |s|
    ensures PopAll(s[..c + 1]) == PopAll(s[..c]) + Pop(s[c])
  {
    assert s[..c + 1][..c] == s[..c];
  }

  // ---------------------------------------------------------------- BITCOUNT

  /** The bits of a byte kept by a mask, counted, are the set bits of the string in lo..hi of that byte. */
  lemma MaskedCount(s: bytes, q: nat, mask: byte, lo: nat, hi: nat)
    requires q < |s| && lo <= hi <= 8
    requires forall k :: 0 <= k < 8 ==> BitOf(mask, k) == if lo <= 7 - k < hi then 1 else 0
    ensures Pop(And(s[q], mask)) == CountBits(s, 8 * q + lo, 8 * q + hi)
  {
    hide Pop, CountBits, And, BitOf, Pow2;
    Pow2s();
    AndBound(s[q], mask, 8);
    var t: bytes := [And(s[q], mask)];
    forall j | 0 <= j < 8 ensures StringBit(t, j) == if lo <= j < hi then StringBit(s, 8 * q + j) else 0 {
      AndBit(s[q], mask, 7 - j);
      assert BitOf(mask, 7 - j) == if lo <= j < hi then 1 else 0;
      assert (8 * q + j) / 8 == q && (8 * q + j) % 8 == j;
    }
    ByteCount(t, 0);
    hide StringBit;
    CountSplit(t, 0, lo, 8);
    CountSplit(t, lo, hi, 8);
    CountNone(t, 0, lo);
    CountNone(t, hi, 8);
    CountSame(t, lo, hi, s, 8 * q + lo);
  }

  /** Counting whole bytes and taking away the edges leaves the count of the bit range. */
  lemma EdgesRemoved(s: bytes, lo: nat, hi: nat)
    requires lo < hi <= 8 * |s|
    ensures var q, r := lo / 8, (hi - 1) / 8;
            CountBits(s, 8 * q, 8 * r + 8)
                == Pop(And(s[q], FirstMask(lo))) + CountBits(s, lo, hi) + Pop(And(s[r], LastMask(hi - 1)))
  {
    hide Pop, CountBits, And, BitOf, FirstMask, LastMask;
    var q, r := lo / 8, (hi - 1) / 8;
    forall k | 0 <= k < 8 ensures BitOf(FirstMask(lo), k) == if 0 <= 7 - k < lo % 8 then 1 else 0 {
      FirstMaskBit(lo, k);
    }
    MaskedCount(s, q, FirstMask(lo), 0, lo % 8);
    var last, after := LastMask(hi - 1), (hi - 1) % 8 + 1;
    forall k | 0 <= k < 8 ensures BitOf(last, k) == if after <= 7 - k < 8 then 1 else 0 {
      LastMaskBit(hi - 1, k);
    }
    MaskedCount(s, r, last, after, 8);
    CountSplit(s, 8 * q, lo, 8 * r + 8);
    CountSplit(s, lo, hi, 8 * r + 8);
  }

  /** The span counted; two negative ends the wrong way round give an empty one. BITCOUNT has no form
      with a start alone. */
  function CountSpan(len: nat, range: Range): (r: (nat, nat))
    requires !range.StartOnly?
    ensures r.1 <= 8 * len
  {
    if !range.Whole? && range.start < 0 && range.end < 0 && range.start > range.end then (0, 0) else Span(len, range)
  }

  /** What is counted: the bits the range selects, and none when both ends count from the back and cross. */
  lemma CountSpanSelects(len: nat, range: Range, i: nat)
    requires !range.StartOnly? && i < 8 * len
    ensures var (lo, hi) := CountSpan(len, range);
            lo <= i < hi <==>
              && Selected(len, range, i)
              && (range.Whole? || range.start >= 0 || range.end >= 0 || range.start <= range.end)
  {
    SpanSelects(len, range, i);
  }

  method BitcountCommand(key: Key, range: Range, align: nat, pairAlign: nat) returns (r: int)
    requires !range.StartOnly?
    ensures key.Missing? ==> r == 0
    ensures key.Str? ==> var (lo, hi) := CountSpan(|key.s|, range); r == CountBits(key.s, lo, hi)
  {
    hide CountBits, FirstMask, LastMask;
    if key.Missing? {
      return 0;
    }
    var s := key.s;
    EmptyCount(s);
    var start, end: int := 0, |s| - 1;
    var first, last: byte := 0, 0;
    ghost var lo, hi := 0, 8 * |s|;
    if !range.Whole? {
      var total := if range.BitRange? then 8 * |s| else |s|;
      start, end := range.start, range.end;
      if start < 0 && end < 0 && start > end {
        return 0;
      }
      start, end := ResolveEnds(total, start, end);
      lo, hi := if range.BitRange? then start else 8 * start, if range.BitRange? then end + 1 else 8 * end + 8;
      if range.BitRange? && start <= end {
        first, last := FirstMask(start), LastMask(end);
        start, end := start / 8, end / 8;
      }
    }
    assert (lo, hi) == CountSpan(|s|, range);
    if start > end {
      return 0;
    }
    if !range.BitRange? {
      MaskZero(lo, hi - 1);
    }
    r := CountRange(s, start, end, lo, hi, first, last, align, pairAlign);
  }

  /** The counting part of bitcountCommand. */
  method CountRange(s: bytes, start: nat, end: nat, ghost lo: nat, ghost hi: nat, first: byte, last: byte, align: nat,
                    pairAlign: nat) returns (r: int)
    requires start <= end < |s| && lo < hi <= 8 * |s| && start == lo / 8 && end == (hi - 1) / 8
    requires first == FirstMask(lo) && last == LastMask(hi - 1)
    ensures r == CountBits(s, lo, hi)
  {
    hide Pop, CountBits, And, BitOf, FirstMask, LastMask, Pow2;
    r := RedisPopcount(s[start..end + 1], align + start);
    SliceCount(s, start, end + 1);
    EdgesRemoved(s, lo, hi);
    NoBits(s[start]);
    NoBits(s[end]);
    PopNone();
    Pow2s();
    AndBound(s[start], first, 8);
    AndBound(s[end], last, 8);
    if first != 0 || last != 0 {
      var a: byte := if first != 0 then And(s[start], first) else 0;
      var b: byte := if last != 0 then And(s[end], last) else 0;
      var edges := RedisPopcount([a, b], pairAlign);
      PairCount(a, b);
      r := r - edges;
    }
  }

  lemma EmptyCount(s: bytes)
    ensures forall lo: nat, hi: nat :: hi <= 8 * |s| && lo >= hi ==> CountBits(s, lo, hi) == 0
  {
  }

  lemma SliceCount(s: bytes, from: nat, to: nat)
    requires from <= to <= |s|
    ensures CountBits(s[from..to], 0, 8 * (to - from)) == CountBits(s, 8 * from, 8 * to)
  {
    hide CountBits;
    var t := s[from..to];
    forall i | 0 <= i < 8 * |t| ensures StringBit(t, i) == StringBit(s, 8 * from + (i - 0)) {
      assert (8 * from + i) / 8 == from + i / 8 && (8 * from + i) % 8 == i % 8;
    }
    CountSame(t, 0, 8 * |t|, s, 8 * from);
  }

  lemma PairCount(a: byte, b: byte)
    ensures CountBits([a, b], 0, 16) == Pop(a) + Pop(b)
  {
    hide CountBits, Pop;
    CountSplit([a, b], 0, 8, 16);
    ByteCount([a, b], 0);
    ByteCount([a, b], 1);
  }
}
