/** BITOP: AND, OR, XOR and NOT of strings, four machine words at a time while every source has data. */
module Bitop {
  import opened Bytes
  import opened Bits
  import opened Bitpos

  datatype BitOp = OpAnd | OpOr | OpXor | OpNot

  // ---------------------------------------------------------------- byte by byte

  /** A source as if padded with zero bytes. */
  function ByteAt(s: bytes, j: nat): byte {
    if j < |s| then s[j] else 0
  }

  function Apply(op: BitOp, a: nat, b: nat): nat
    requires op != OpNot
  {
    match op
    case OpAnd => And(a, b)
    case OpOr => Or(a, b)
    case OpXor => Xor(a, b)
  }

  lemma ApplyBound(op: BitOp, a: nat, b: nat, n: nat)
    requires op != OpNot && a < Pow2(n) && b < Pow2(n)
    ensures Apply(op, a, b) < Pow2(n)
  {
    AndBound(a, b, n);
    OrBound(a, b, n);
    XorBound(a, b, n);
  }

  function ApplyByte(op: BitOp, a: byte, b: byte): (r: byte)
    requires op != OpNot
  {
    Pow2s();
    ApplyBound(op, a, b, 8);
    Apply(op, a, b)
  }

  /** The operation over the first n sources at byte j. */
  function Fold(op: BitOp, src: seq<bytes>, j: nat, n: nat): byte
    requires 1 <= n <= |src| && (op == OpNot ==> |src| == 1)
  {
    if n == 1 then (if op == OpNot then 255 - ByteAt(src[0], j) else ByteAt(src[0], j))
    else ApplyByte(op, Fold(op, src, j, n - 1), ByteAt(src[n - 1], j))
  }

  // ---------------------------------------------------------------- what that means bit by bit

  /** Bit p of a source padded with zeros. */
  function PaddedBit(s: bytes, p: nat): nat {
    if p < 8 * |s| then StringBit(s, p) else 0
  }

  function Ones(src: seq<bytes>, p: nat, n: nat): nat
    requires n <= |src|
  {
    if n == 0 then 0 else Ones(src, p, n - 1) + PaddedBit(src[n - 1], p)
  }

  /** How many sources have the bit set decides the result: all, some, an odd number, or none. */
  predicate OpBit(op: BitOp, ones: nat, n: nat) {
    match op
    case OpAnd => ones == n
    case OpOr => ones > 0
    case OpXor => ones % 2 == 1
    case OpNot => ones == 0
  }

  lemma ByteAtBit(s: bytes, p: nat)
    ensures BitOf(ByteAt(s, p / 8), 7 - p % 8) == PaddedBit(s, p)
  {
    BitOfZero(7 - p % 8);
  }

  lemma {:induction false} OnesBound(src: seq<bytes>, p: nat, n: nat)
    requires n <= |src|
    ensures Ones(src, p, n) <= n
  {
    hide PaddedBit;
    if n > 0 {
      OnesBound(src, p, n - 1);
      ByteAtBit(src[n - 1], p);
    }
  }

  lemma {:induction false} FoldBit(op: BitOp, src: seq<bytes>, p: nat, n: nat)
    requires 1 <= n <= |src| && (op == OpNot ==> |src| == 1)
    ensures BitOf(Fold(op, src, p / 8, n), 7 - p % 8) == if OpBit(op, Ones(src, p, n), n) then 1 else 0
  {
    hide PaddedBit, BitOf, And, Or, Xor, ByteAt;
    var j, k := p / 8, 7 - p % 8;
    OnesBound(src, p, n - 1);
    if n == 1 {
      ByteAtBit(src[0], p);
      Pow2s();
      NotBit(ByteAt(src[0], j), 8, k);
      assert Ones(src, p, 1) == Ones(src, p, 0) + PaddedBit(src[0], p);
    } else {
      FoldBit(op, src, p, n - 1);
      var a, b := Fold(op, src, j, n - 1), ByteAt(src[n - 1], j);
      ByteAtBit(src[n - 1], p);
      AndBit(a, b, k);
      OrBit(a, b, k);
      XorBit(a, b, k);
    }
  }

  // ---------------------------------------------------------------- word by word

  function Zip(op: BitOp, a: bytes, b: bytes): (r: bytes)
    requires |a| == |b| && op != OpNot
    ensures |r| == |a| && forall t :: 0 <= t < |a| ==> r[t] == ApplyByte(op, a[t], b[t])
  {
    if a == [] then [] else [ApplyByte(op, a[0], b[0])] + Zip(op, a[1..], b[1..])
  }

  function Complement(a: bytes): (r: bytes)
    ensures |r| == |a| && forall t :: 0 <= t < |a| ==> r[t] == 255 - a[t]
  {
    if a == [] then [] else [255 - a[0]] + Complement(a[1..])
  }

  /** The bytes of a word as they lie in memory. */
  function Unloaded(w: nat, n: nat): (r: bytes)
    ensures |r| == n
  {
    if n == 0 then [] else [w % 256] + Unloaded(w / 256, n - 1)
  }

  lemma {:induction false} UnloadLoaded(a: bytes)
    ensures Unloaded(LittleEndian(a), |a|) == a
  {
    if a != [] {
      UnloadLoaded(a[1..]);
      assert LittleEndian(a) % 256 == a[0] && LittleEndian(a) / 256 == LittleEndian(a[1..]);
    }
  }

  lemma ApplyLanes(op: BitOp, h: nat, l: byte, h': nat, l': byte)
    requires op != OpNot
    ensures Apply(op, l + 256 * h, l' + 256 * h') == ApplyByte(op, l, l') + 256 * Apply(op, h, h')
  {
    hide And, Or, Xor, Pow2;
    Pow2s();
    AndLanes(h, l, h', l', 8);
    OrLanes(h, l, h', l', 8);
    XorLanes(h, l, h', l', 8);
  }

  /** An operation on words is the operation on their bytes. */
  lemma {:induction false} ApplyWord(op: BitOp, a: bytes, b: bytes)
    requires |a| == |b| && op != OpNot
    ensures Apply(op, LittleEndian(a), LittleEndian(b)) == LittleEndian(Zip(op, a, b))
  {
    hide Apply, ApplyByte;
    if a == [] {
      ApplyZero(op);
    } else {
      ApplyWord(op, a[1..], b[1..]);
      ApplyLanes(op, LittleEndian(a[1..]), a[0], LittleEndian(b[1..]), b[0]);
      assert Zip(op, a, b)[1..] == Zip(op, a[1..], b[1..]);
    }
  }

  lemma ApplyZero(op: BitOp)
    requires op != OpNot
    ensures Apply(op, 0, 0) == 0
  {
  }

  lemma {:induction false} NotWord(a: bytes)
    ensures Pow2(8 * |a|) - 1 - LittleEndian(a) == LittleEndian(Complement(a))
  {
    hide Pow2;
    Pow2s();
    if a != [] {
      NotWord(a[1..]);
      Pow2Add(8, 8 * |a| - 8);
      assert Complement(a)[1..] == Complement(a[1..]);
    }
  }

  /** What one word operation leaves at a byte of the destination. */
  function WordByte(op: BitOp, d: byte, b: byte): byte {
    if op == OpNot then 255 - d else ApplyByte(op, d, b)
  }

  method Store(res: array<byte>, at: nat, out: bytes)
    requires at + |out| <= res.Length
    modifies res
    ensures forall t :: 0 <= t < res.Length ==> res[t] == if at <= t < at + |out| then out[t - at] else old(res[t])
  {
    for i := 0 to |out|
      invariant forall t :: 0 <= t < res.Length ==> res[t] == if at <= t < at + i then out[t - at] else old(res[t])
    {
      res[at + i] := out[i];
    }
  }

  /** lres[k] op= lp[i][k], or lres[k] = ~lres[k]. */
  method WordStep(res: array<byte>, at: nat, op: BitOp, s: bytes)
    requires at + 8 <= res.Length && at + 8 <= |s|
    modifies res
    ensures forall t :: 0 <= t < res.Length ==>
              res[t] == if at <= t < at + 8 then WordByte(op, old(res[t]), s[t]) else old(res[t])
  {
    hide Apply, ApplyByte, LittleEndian, Unloaded, Pow2;
    var d := res[at..at + 8];
    var out: bytes;
    if op == OpNot {
      NotWord(d);
      LittleEndianExtremes(d);
      UnloadLoaded(Complement(d));
      out := Unloaded(ULONG_MAX - LittleEndian(d), 8);
    } else {
      var b := s[at..at + 8];
      ApplyWord(op, d, b);
      UnloadLoaded(Zip(op, d, b));
      out := Unloaded(Apply(op, LittleEndian(d), LittleEndian(b)), 8);
    }
    assert forall t :: at <= t < at + 8 ==> out[t - at] == WordByte(op, res[t], s[t]);
    Store(res, at, out);
  }

  method FourWords(res: array<byte>, at: nat, op: BitOp, s: bytes)
    requires at + 32 <= res.Length && at + 32 <= |s|
    modifies res
    ensures forall t :: 0 <= t < res.Length ==>
              res[t] == if at <= t < at + 32 then WordByte(op, old(res[t]), s[t]) else old(res[t])
  {
    hide WordByte;
    WordStep(res, at, op, s);
    WordStep(res, at + 8, op, s);
    WordStep(res, at + 16, op, s);
    WordStep(res, at + 24, op, s);
  }

  // ---------------------------------------------------------------- BITOP

  /** The sources, a missing key being the empty string. */
  function Strings(keys: seq<Key>): (r: seq<bytes>)
    ensures |r| == |keys| && forall i :: 0 <= i < |keys| ==> r[i] == if keys[i].Str? then keys[i].s else []
  {
    if keys == [] then [] else [if keys[0].Str? then keys[0].s else []] + Strings(keys[1..])
  }

  /** The lookup loop: sources, with a missing key as the empty string, and the lengths to work with. */
  method Sources(keys: seq<Key>) returns (src: seq<bytes>, minlen: nat, maxlen: nat)
    ensures src == Strings(keys)
    ensures forall i :: 0 <= i < |src| ==> minlen <= |src[i]| <= maxlen
    ensures maxlen == 0 || exists i :: 0 <= i < |src| && |src[i]| == maxlen
  {
    src, minlen, maxlen := [], 0, 0;
    for j := 0 to |keys|
      invariant |src| == j && forall i :: 0 <= i < j ==> src[i] == if keys[i].Str? then keys[i].s else []
      invariant forall i :: 0 <= i < j ==> minlen <= |src[i]| <= maxlen
      invariant maxlen == 0 || exists i :: 0 <= i < j && |src[i]| == maxlen
    {
      ghost var before := src;
      if keys[j].Missing? {
        src := src + [[]];
        minlen := 0;
      } else {
        var s := keys[j].s;
        src := src + [s];
        if |s| > maxlen { maxlen := |s|; }
        if j == 0 || |s| < minlen { minlen := |s|; }
      }
      assert forall i :: 0 <= i < j ==> src[i] == before[i];
      assert maxlen == 0 || |src[j]| == maxlen || exists i :: 0 <= i < j && |before[i]| == maxlen;
    }
  }

  /** The fast path: blocks of four words while all sources have data. */
  method FastPath(op: BitOp, src: seq<bytes>, minlen: nat, res: array<byte>) returns (j: nat)
    requires 1 <= |src| && (op == OpNot ==> |src| == 1)
    requires minlen <= res.Length && forall i :: 0 <= i < |src| ==> minlen <= |src[i]|
    modifies res
    ensures j <= minlen && forall t :: 0 <= t < j ==> res[t] == Fold(op, src, t, |src|)
  {
    hide ApplyByte;
    Store(res, 0, src[0][..minlen]);
    j := 0;
    while minlen - j >= 32
      invariant j <= minlen
      invariant forall t :: 0 <= t < j ==> res[t] == Fold(op, src, t, |src|)
      invariant forall t :: j <= t < minlen ==> res[t] == src[0][t]
    {
      Block(op, src, minlen, res, j);
      j := j + 32;
    }
  }

  method Block(op: BitOp, src: seq<bytes>, minlen: nat, res: array<byte>, j: nat)
    requires 1 <= |src| && (op == OpNot ==> |src| == 1) && j + 32 <= minlen
    requires minlen <= res.Length && forall i :: 0 <= i < |src| ==> minlen <= |src[i]|
    requires forall t :: j <= t < j + 32 ==> res[t] == src[0][t]
    modifies res
    ensures forall t :: j <= t < j + 32 ==> res[t] == Fold(op, src, t, |src|)
    ensures forall t :: 0 <= t < res.Length && !(j <= t < j + 32) ==> res[t] == old(res[t])
  {
    hide ApplyByte;
    if op == OpNot {
      FourWords(res, j, op, src[0]);
    } else {
      for i := 1 to |src|
        invariant forall t :: j <= t < j + 32 ==> res[t] == Fold(op, src, t, i)
        invariant forall t :: 0 <= t < res.Length && !(j <= t < j + 32) ==> res[t] == old(res[t])
      {
        ghost var before := res[..];
        FourWords(res, j, op, src[i]);
        forall t | j <= t < j + 32 ensures res[t] == Fold(op, src, t, i + 1) {
          assert before[t] == Fold(op, src, t, i);
        }
      }
    }
  }

  /** The byte loop with its early exit. */
  method SlowByte(op: BitOp, src: seq<bytes>, j: nat) returns (output: byte)
    requires 1 <= |src| && (op == OpNot ==> |src| == 1)
    ensures output == Fold(op, src, j, |src|)
  {
    hide ApplyByte;
    output := if |src[0]| <= j then 0 else src[0][j];
    if op == OpNot {
      output := 255 - output;
    }
    for i := 1 to |src|
      invariant output == Fold(op, src, j, i)
    {
      var b := if |src[i]| <= j then 0 else src[i][j];
      output := ApplyByte(op, output, b);
      if (op == OpAnd && output == 0) || (op == OpOr && output == 255) {
        Absorbed(op, src, j, i + 1, |src|);
        return;
      }
    }
  }

  lemma {:induction false} Absorbed(op: BitOp, src: seq<bytes>, j: nat, n: nat, m: nat)
    requires 1 <= n <= m <= |src|
    requires ((op == OpAnd && Fold(op, src, j, n) == 0) || (op == OpOr && Fold(op, src, j, n) == 255))
    ensures Fold(op, src, j, m) == Fold(op, src, j, n)
    decreases m
  {
    hide And, Or;
    if n < m {
      Absorbed(op, src, j, n, m - 1);
      AbsorbByte(ByteAt(src[m - 1], j));
    }
  }

  lemma AbsorbByte(b: byte)
    ensures And(0, b) == 0 && Or(255, b) == 255
  {
    Pow2s();
    OrOnes(b, 8);
    OrSwap(255, b);
  }

  lemma {:induction false} OrSwap(a: nat, b: nat)
    ensures Or(a, b) == Or(b, a)
    decreases a + b
  {
    if a != 0 && b != 0 { OrSwap(a / 2, b / 2); }
  }

  /** BITOP as a whole: the result is as long as the longest source, and each of its bits is the operation
      on the sources' bits, short and missing sources counting as zeros. */
  method BitopCommand(op: BitOp, keys: seq<Key>, fast: bool) returns (res: array<byte>)
    requires 1 <= |keys| && (op == OpNot ==> |keys| == 1)
    ensures var src := Strings(keys);
            && (forall i :: 0 <= i < |src| ==> |src[i]| <= res.Length)
                && (res.Length == 0 || exists i :: 0 <= i < |src| && |src[i]| == res.Length)
            && forall p :: 0 <= p < 8 * res.Length ==>
                StringBit(res[..], p) == if OpBit(op, Ones(src, p, |src|), |src|) then 1 else 0
  {
    hide OpBit, Ones, BitOf, Fold;
    var strings, minlen, maxlen := Sources(keys);
    res := new byte[maxlen](_ => 0);
    var j := 0;
    if fast && minlen >= 32 && |strings| <= 16 {
      assert minlen <= |strings[0]| <= maxlen;
      j := FastPath(op, strings, minlen, res);
    }
    while j < maxlen
      invariant j <= maxlen && forall t :: 0 <= t < j ==> res[t] == Fold(op, strings, t, |strings|)
    {
      res[j] := SlowByte(op, strings, j);
      j := j + 1;
    }
    forall p | 0 <= p < 8 * res.Length
      ensures StringBit(res[..], p) == if OpBit(op, Ones(strings, p, |strings|), |strings|) then 1 else 0
    {
      FoldBit(op, strings, p, |strings|);
    }
  }
}
