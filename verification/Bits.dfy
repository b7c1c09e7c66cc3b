/** Bitwise operations on unbounded naturals, and a string seen as bits, most significant bit of the
    first byte first. Machine widths are written out where they are used. */
module Bits {
  import opened Bytes

  function Pow2(n: nat): (r: nat)
    ensures r >= 1
  {
    if n == 0 then 1 else 2 * Pow2(n - 1)
  }

  /** Bit k of x, the least significant being bit 0. */
  function BitOf(x: nat, k: nat): (r: nat)
    ensures r <= 1
  {
    if k == 0 then x % 2 else BitOf(x / 2, k - 1)
  }

  function And(a: nat, b: nat): nat {
    if a == 0 || b == 0 then 0 else 2 * And(a / 2, b / 2) + (if a % 2 == 1 && b % 2 == 1 then 1 else 0)
  }

  function Or(a: nat, b: nat): nat
    decreases a + b
  {
    if a == 0 then b else if b == 0 then a else 2 * Or(a / 2, b / 2) + (if a % 2 == 1 || b % 2 == 1 then 1 else 0)
  }

  function Xor(a: nat, b: nat): nat
    decreases a + b
  {
    if a == 0 then b else if b == 0 then a else 2 * Xor(a / 2, b / 2) + (if a % 2 != b % 2 then 1 else 0)
  }

  // ---------------------------------------------------------------- bit by bit

  lemma {:induction false} BitOfZero(k: nat)
    ensures BitOf(0, k) == 0
  {
    if k > 0 { BitOfZero(k - 1); }
  }

  lemma {:induction false} AndBit(a: nat, b: nat, k: nat)
    ensures BitOf(And(a, b), k) == if BitOf(a, k) == 1 && BitOf(b, k) == 1 then 1 else 0
    decreases k
  {
    hide And;
    AndHalf(a, b);
    if k > 0 {
      AndBit(a / 2, b / 2, k - 1);
    }
  }

  lemma {:induction false} OrBit(a: nat, b: nat, k: nat)
    ensures BitOf(Or(a, b), k) == if BitOf(a, k) == 1 || BitOf(b, k) == 1 then 1 else 0
    decreases k
  {
    hide Or;
    OrHalf(a, b);
    if k > 0 {
      OrBit(a / 2, b / 2, k - 1);
    }
  }

  lemma {:induction false} XorBit(a: nat, b: nat, k: nat)
    ensures BitOf(Xor(a, b), k) == if BitOf(a, k) != BitOf(b, k) then 1 else 0
    decreases k
  {
    hide Xor;
    XorHalf(a, b);
    if k > 0 {
      XorBit(a / 2, b / 2, k - 1);
    }
  }

  /** Numbers below 2^n with the same n bits are equal. */
  lemma {:induction false} SameBits(a: nat, b: nat, n: nat)
    requires a < Pow2(n) && b < Pow2(n) && forall k :: 0 <= k < n ==> BitOf(a, k) == BitOf(b, k)
    ensures a == b
  {
    if n > 0 {
      assert BitOf(a, 0) == BitOf(b, 0);
      forall k | 0 <= k < n - 1 ensures BitOf(a / 2, k) == BitOf(b / 2, k) {
        assert BitOf(a, k + 1) == BitOf(b, k + 1);
      }
      SameBits(a / 2, b / 2, n - 1);
    }
  }

  lemma {:induction false} AndBound(a: nat, b: nat, n: nat)
    requires a < Pow2(n) || b < Pow2(n)
    ensures And(a, b) < Pow2(n)
  {
    if a != 0 && b != 0 && n > 0 { AndBound(a / 2, b / 2, n - 1); }
  }

  lemma {:induction false} OrBound(a: nat, b: nat, n: nat)
    requires a < Pow2(n) && b < Pow2(n)
    ensures Or(a, b) < Pow2(n)
  {
    if a != 0 && b != 0 && n > 0 { OrBound(a / 2, b / 2, n - 1); }
  }

  lemma {:induction false} XorBound(a: nat, b: nat, n: nat)
    requires a < Pow2(n) && b < Pow2(n)
    ensures Xor(a, b) < Pow2(n)
  {
    if a != 0 && b != 0 && n > 0 { XorBound(a / 2, b / 2, n - 1); }
  }

  /** Complement within n bits. */
  lemma {:induction false} NotBit(a: nat, n: nat, k: nat)
    requires a < Pow2(n) && k < n
    ensures BitOf(Pow2(n) - 1 - a, k) == 1 - BitOf(a, k)
  {
    if k > 0 {
      assert (Pow2(n) - 1 - a) / 2 == Pow2(n - 1) - 1 - a / 2;
      NotBit(a / 2, n - 1, k - 1);
    }
  }

  lemma {:induction false} Pow2Bit(n: nat, k: nat)
    ensures BitOf(Pow2(n), k) == if n == k then 1 else 0
  {
    if k > 0 {
      if n > 0 {
        Pow2Bit(n - 1, k - 1);
      } else {
        BitOfZero(k - 1);
      }
    }
  }

  lemma Pow2s()
    ensures Pow2(0) == 1 && Pow2(1) == 2 && Pow2(2) == 4 && Pow2(3) == 8 && Pow2(4) == 16 && Pow2(5) == 32
    ensures Pow2(6) == 64 && Pow2(7) == 128 && Pow2(8) == 256
  {
    assert Pow2(4) == 2 * Pow2(3);
    assert Pow2(6) == 2 * Pow2(5);
    assert Pow2(8) == 2 * Pow2(7);
  }

  lemma {:induction false} AndPow2(word: nat, k: nat)
    ensures And(Pow2(k), word) == if BitOf(word, k) == 1 then Pow2(k) else 0
  {
    if k > 0 {
      AndHalf(Pow2(k), word);
      AndPow2(word / 2, k - 1);
    }
  }

  lemma {:induction false} Pow2Add(a: nat, b: nat)
    ensures Pow2(a + b) == Pow2(a) * Pow2(b)
  {
    if a > 0 {
      Pow2Add(a - 1, b);
      assert 2 * (Pow2(a - 1) * Pow2(b)) == (2 * Pow2(a - 1)) * Pow2(b);
    }
  }

  lemma {:induction false} Pow2Monotone(a: nat, b: nat)
    requires a <= b
    ensures Pow2(a) <= Pow2(b)
    decreases b
  {
    if a < b { Pow2Monotone(a, b - 1); }
  }

  // ---------------------------------------------------------------- lanes

  /** Bits of a number put together from a high part and n low bits. */
  lemma {:induction false} LaneBit(h: nat, l: nat, n: nat, k: nat)
    requires l < Pow2(n)
    ensures BitOf(Pow2(n) * h + l, k) == if k < n then BitOf(l, k) else BitOf(h, k - n)
  {
    if n > 0 {
      assert Pow2(n) * h == 2 * (Pow2(n - 1) * h);
      assert (Pow2(n) * h + l) / 2 == Pow2(n - 1) * h + l / 2;
      if k > 0 {
        LaneBit(h, l / 2, n - 1, k - 1);
      }
    }
  }

  lemma {:induction false} AndLanes(h: nat, l: nat, h': nat, l': nat, n: nat)
    requires l < Pow2(n) && l' < Pow2(n)
    ensures And(Pow2(n) * h + l, Pow2(n) * h' + l') == Pow2(n) * And(h, h') + And(l, l')
  {
    hide And, Pow2;
    Pow2Step(n);
    AndHalf(l, l');
    if n > 0 {
      Halves(h, l, n);
      Halves(h', l', n);
      AndLanes(h, l / 2, h', l' / 2, n - 1);
      AndHalf(Pow2(n) * h + l, Pow2(n) * h' + l');
      Doubled(Pow2(n), Pow2(n - 1), And(h, h'));
    }
  }

  lemma Pow2Step(n: nat)
    ensures Pow2(n) == if n == 0 then 1 else 2 * Pow2(n - 1)
  {
  }

  lemma Doubled(a: nat, b: nat, x: nat)
    requires a == 2 * b
    ensures a * x == 2 * (b * x)
  {
  }

  lemma Halves(h: nat, l: nat, n: nat)
    requires n > 0 && l < Pow2(n)
    ensures (Pow2(n) * h + l) / 2 == Pow2(n - 1) * h + l / 2 && (Pow2(n) * h + l) % 2 == l % 2
  {
    assert Pow2(n) * h == 2 * (Pow2(n - 1) * h);
  }

  lemma AndHalf(a: nat, b: nat)
    ensures And(a, b) == 2 * And(a / 2, b / 2) + (if a % 2 == 1 && b % 2 == 1 then 1 else 0)
  {
  }

  lemma OrHalf(a: nat, b: nat)
    ensures Or(a, b) == 2 * Or(a / 2, b / 2) + (if a % 2 == 1 || b % 2 == 1 then 1 else 0)
  {
  }

  lemma XorHalf(a: nat, b: nat)
    ensures Xor(a, b) == 2 * Xor(a / 2, b / 2) + (if a % 2 != b % 2 then 1 else 0)
  {
  }

  lemma {:induction false} OrLanes(h: nat, l: nat, h': nat, l': nat, n: nat)
    requires l < Pow2(n) && l' < Pow2(n)
    ensures Or(Pow2(n) * h + l, Pow2(n) * h' + l') == Pow2(n) * Or(h, h') + Or(l, l')
  {
    hide Or, Pow2;
    Pow2Step(n);
    OrHalf(l, l');
    if n > 0 {
      Halves(h, l, n);
      Halves(h', l', n);
      OrLanes(h, l / 2, h', l' / 2, n - 1);
      OrHalf(Pow2(n) * h + l, Pow2(n) * h' + l');
      Doubled(Pow2(n), Pow2(n - 1), Or(h, h'));
    }
  }

  lemma {:induction false} XorLanes(h: nat, l: nat, h': nat, l': nat, n: nat)
    requires l < Pow2(n) && l' < Pow2(n)
    ensures Xor(Pow2(n) * h + l, Pow2(n) * h' + l') == Pow2(n) * Xor(h, h') + Xor(l, l')
  {
    hide Xor, Pow2;
    Pow2Step(n);
    XorHalf(l, l');
    if n > 0 {
      Halves(h, l, n);
      Halves(h', l', n);
      XorLanes(h, l / 2, h', l' / 2, n - 1);
      XorHalf(Pow2(n) * h + l, Pow2(n) * h' + l');
      Doubled(Pow2(n), Pow2(n - 1), Xor(h, h'));
    }
  }

  // ---------------------------------------------------------------- masks

  lemma ModUnique(x: int, m: nat, q: int, r: nat)
    requires m > 0 && x == m * q + r && r < m
    ensures x % m == r && x / m == q
  {
    var d := x / m - q;
    assert x == m * (x / m) + x % m;
    assert m * d == r - x % m;
    assert 0 - m < m * d < m;
  }

  lemma SmallMod(x: nat, m: nat)
    requires x < m
    ensures x % m == x
  {
  }

  /** The n low bits of x, and what is left above them. */
  function Low(x: int, n: nat): nat
    decreases n
  {
    if n == 0 then 0 else 2 * Low(x / 2, n - 1) + x % 2
  }

  function High(x: int, n: nat): (r: int)
    ensures x >= 0 ==> r >= 0
    decreases n
  {
    if n == 0 then x else High(x / 2, n - 1)
  }

  lemma {:induction false} LowBound(x: int, n: nat)
    ensures Low(x, n) < Pow2(n)
    decreases n
  {
    if n > 0 { LowBound(x / 2, n - 1); }
  }

  lemma {:induction false} LowSmall(x: nat, n: nat)
    requires x < Pow2(n)
    ensures Low(x, n) == x && High(x, n) == 0
  {
    if n > 0 { LowSmall(x / 2, n - 1); }
  }

  lemma {:induction false} LowJoin(x: int, n: nat)
    ensures x == Pow2(n) * High(x, n) + Low(x, n)
    decreases n
  {
    hide Pow2;
    Pow2Step(n);
    if n > 0 {
      LowJoin(x / 2, n - 1);
      Distribute(Pow2(n - 1), High(x, n));
    }
  }

  lemma Distribute(m: int, h: int)
    ensures (2 * m) * h == 2 * (m * h)
  {
  }

  /** The low bits are the value modulo a power of two. */
  lemma LowIsMod(x: int, n: nat)
    ensures Low(x, n) == x % Pow2(n)
  {
    hide Pow2, Low, High;
    LowJoin(x, n);
    LowBound(x, n);
    ModUnique(x, Pow2(n), High(x, n), Low(x, n));
  }

  lemma LowUnique(x: int, n: nat, q: int, r: nat)
    requires x == Pow2(n) * q + r && r < Pow2(n)
    ensures Low(x, n) == r
  {
    hide Pow2, Low;
    LowIsMod(x, n);
    ModUnique(x, Pow2(n), q, r);
  }

  /** Shifting by one more. */
  lemma {:induction false} HighHalf(x: nat, n: nat)
    requires n > 0
    ensures High(x, n - 1) / 2 == High(x, n)
  {
    if n > 1 { HighHalf(x / 2, n - 1); }
  }

  lemma {:induction false} HighBit(x: nat, k: nat)
    ensures BitOf(x, k) == High(x, k) % 2
  {
    if k > 0 { HighBit(x / 2, k - 1); }
  }

  lemma {:induction false} AndOnes(x: nat, n: nat)
    ensures And(x, Pow2(n) - 1) == Low(x, n)
  {
    hide And, Pow2;
    Pow2Step(n);
    if n == 0 {
      NoBits(x);
    } else {
      AndHalf(x, Pow2(n) - 1);
      AndOnes(x / 2, n - 1);
    }
  }

  lemma NoBits(x: nat)
    ensures And(x, 0) == 0 && Or(x, 0) == x
  {
  }

  lemma {:induction false} OrOnes(x: nat, n: nat)
    requires x < Pow2(n)
    ensures Or(x, Pow2(n) - 1) == Pow2(n) - 1
  {
    hide Or, Pow2;
    Pow2Step(n);
    if n == 0 {
      NoBits(x);
    } else {
      OrHalf(x, Pow2(n) - 1);
      OrOnes(x / 2, n - 1);
    }
  }

  /** Setting every bit from n up to w. */
  lemma OrHigh(c: nat, n: nat, w: nat)
    requires n <= w && c < Pow2(w)
    ensures Pow2(n) <= Pow2(w) && Or(c, Pow2(w) - Pow2(n)) == Pow2(w) - Pow2(n) + Low(c, n)
  {
    hide Or, Pow2, Low, High;
    var m, k := Pow2(n), Pow2(w - n);
    Pow2Monotone(n, w);
    Pow2Add(n, w - n);
    var h, l := High(c, n), Low(c, n);
    LowJoin(c, n);
    LowBound(c, n);
    HighPart(m, k, h, l);
    OrOnes(h, w - n);
    OrLanes(h, l, k - 1, 0, n);
    NoBits(l);
    Spread(m, k);
  }

  lemma Spread(m: nat, k: nat)
    requires k > 0
    ensures m * (k - 1) == m * k - m
  {
  }

  lemma HighPart(m: nat, k: nat, h: nat, l: nat)
    requires m * h + l < m * k
    ensures h < k
  {
  }

  lemma LowBit(v: nat, n: nat, k: nat)
    requires k < n
    ensures BitOf(Low(v, n), k) == BitOf(v, k)
  {
    hide BitOf, Pow2, Low, High;
    LowJoin(v, n);
    LowBound(v, n);
    LaneBit(High(v, n), Low(v, n), n, k);
  }

  lemma TopBitOfLow(c: nat, n: nat)
    requires n > 0
    ensures BitOf(c, n - 1) == 1 <==> Low(c, n) >= Pow2(n - 1)
  {
    hide BitOf, Pow2, Low;
    Pow2Step(n);
    LowBit(c, n, n - 1);
    LowBound(c, n);
    var x, m := Low(c, n), Pow2(n - 1);
    if x >= m {
      LaneBit(1, x - m, n - 1, n - 1);
    } else {
      LaneBit(0, x, n - 1, n - 1);
    }
    OneBit();
  }

  lemma OneBit()
    ensures BitOf(0, 0) == 0 && BitOf(1, 0) == 1
  {
  }

  // ---------------------------------------------------------------- words in memory

  function LittleEndian(w: bytes): nat {
    if w == [] then 0 else w[0] + 256 * LittleEndian(w[1..])
  }

  // ---------------------------------------------------------------- strings as bits

  /** Bit i of a string. */
  function StringBit(s: bytes, i: nat): (r: nat)
    requires i < 8 * |s|
    ensures r <= 1
  {
    BitOf(s[i / 8], 7 - i % 8)
  }

  // ---------------------------------------------------------------- edge masks

  lemma {:induction false} OnesBit(n: nat, k: nat)
    ensures BitOf(Pow2(n) - 1, k) == if k < n then 1 else 0
  {
    if n == 0 {
      BitOfZero(k);
    } else if k > 0 {
      assert (Pow2(n) - 1) / 2 == Pow2(n - 1) - 1;
      OnesBit(n - 1, k - 1);
    }
  }

  /** The mask of the bits before the first of the range, in its byte. */
  function FirstMask(start: nat): (m: byte) {
    Pow2s();
    Pow2Monotone(8 - start % 8, 8);
    255 - (Pow2(8 - start % 8) - 1)
  }

  /** The mask of the bits after the last of the range, in its byte. */
  function LastMask(end: nat): (m: byte) {
    Pow2s();
    Pow2Monotone(7 - end % 8, 8);
    Pow2(7 - end % 8) - 1
  }

  lemma FirstMaskBit(start: nat, k: nat)
    requires k < 8
    ensures BitOf(FirstMask(start), k) == if 7 - k < start % 8 then 1 else 0
  {
    hide Pow2, BitOf;
    Pow2s();
    var n := 8 - start % 8;
    Pow2Monotone(n, 8);
    NotBit(Pow2(n) - 1, 8, k);
    OnesBit(n, k);
  }

  lemma LastMaskBit(end: nat, k: nat)
    requires k < 8
    ensures BitOf(LastMask(end), k) == if 7 - k > end % 8 then 1 else 0
  {
    OnesBit(7 - end % 8, k);
  }

  lemma MaskZero(start: nat, end: nat)
    ensures FirstMask(start) == 0 <==> start % 8 == 0
    ensures LastMask(end) == 0 <==> end % 8 == 7
  {
    hide Pow2;
    Pow2s();
    if start % 8 != 0 { Pow2Monotone(8 - start % 8, 7); }
    if end % 8 != 7 { Pow2Monotone(1, 7 - end % 8); }
  }
}
