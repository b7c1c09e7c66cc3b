/** BITPOS: the word-skipping search for the first set or clear bit, and the command's range forms. */
module Bitpos {
  import opened Bytes
  import opened Bits

  // ---------------------------------------------------------------- what is searched

  ghost predicate NoMatch(s: bytes, lo: nat, hi: nat, bit: nat)
    requires hi <= 8 * |s|
  {
    forall i :: lo <= i < hi ==> StringBit(s, i) != bit
  }

  /** r is the least position in lo..hi whose bit is `bit`. */
  ghost predicate First(s: bytes, lo: nat, hi: nat, bit: nat, r: int)
    requires hi <= 8 * |s|
  {
    lo <= r < hi && StringBit(s, r) == bit && NoMatch(s, lo, r, bit)
  }

  /** The answer of redisBitpos: the first match, else -1 for a set bit and the end for a clear one. */
  ghost predicate Answer(s: bytes, bit: nat, r: int) {
    First(s, 0, 8 * |s|, bit, r) || (NoMatch(s, 0, 8 * |s|, bit) && r == if bit == 1 then -1 else 8 * |s|)
  }

  /** The byte that cannot hold the bit searched for. */
  function SkipByte(bit: nat): byte {
    if bit == 1 then 0 else 255
  }

  lemma SkipByteBits(bit: nat, k: nat)
    requires bit <= 1 && k < 8
    ensures BitOf(SkipByte(bit), k) != bit
  {
    Pow2s();
    BitOfZero(k);
    NotBit(0, 8, k);
  }

  lemma SkippedByte(s: bytes, c: nat, bit: nat)
    requires bit <= 1 && c < |s| && s[c] == SkipByte(bit)
    ensures NoMatch(s, 8 * c, 8 * c + 8, bit)
  {
    forall i | 8 * c <= i < 8 * c + 8 ensures StringBit(s, i) != bit {
      SkipByteBits(bit, 7 - i % 8);
    }
  }

  lemma NoMatchJoin(s: bytes, lo: nat, mid: nat, hi: nat, bit: nat)
    requires lo <= mid <= hi <= 8 * |s| && NoMatch(s, lo, mid, bit) && NoMatch(s, mid, hi, bit)
    ensures NoMatch(s, lo, hi, bit)
  {
  }

  // ---------------------------------------------------------------- words

  function BigEndian(w: bytes): nat {
    if w == [] then 0 else 256 * BigEndian(w[..|w| - 1]) + w[|w| - 1]
  }

  lemma {:induction false} LittleEndianExtremes(w: bytes)
    ensures LittleEndian(w) <= Pow2(8 * |w|) - 1
    ensures LittleEndian(w) == 0 <==> forall i :: 0 <= i < |w| ==> w[i] == 0
    ensures LittleEndian(w) == Pow2(8 * |w|) - 1 <==> forall i :: 0 <= i < |w| ==> w[i] == 255
  {
    Pow2s();
    if w != [] {
      LittleEndianExtremes(w[1..]);
      Pow2Add(8, 8 * |w| - 8);
      assert forall i :: 0 < i < |w| ==> w[i] == w[1..][i - 1];
      assert (forall i :: 0 <= i < |w| ==> w[i] == 0)
        <==> w[0] == 0 && forall i :: 0 <= i < |w[1..]| ==> w[1..][i] == 0;
      assert (forall i :: 0 <= i < |w| ==> w[i] == 255)
        <==> w[0] == 255 && forall i :: 0 <= i < |w[1..]| ==> w[1..][i] == 255;
    }
  }

  lemma {:induction false} BigEndianBound(w: bytes)
    ensures BigEndian(w) < Pow2(8 * |w|)
  {
    Pow2s();
    if w != [] {
      BigEndianBound(w[..|w| - 1]);
      Pow2Add(8, 8 * |w| - 8);
    }
  }

  /** A big-endian word holds the string's bits in order, the first at the top. */
  lemma {:induction false} BigEndianBit(w: bytes, i: nat)
    requires i < 8 * |w|
    ensures BitOf(BigEndian(w), 8 * |w| - 1 - i) == StringBit(w, i)
    decreases |w|
  {
    var n := |w| - 1;
    Pow2s();
    LaneBit(BigEndian(w[..n]), w[n], 8, 8 * |w| - 1 - i);
    if i < 8 * n {
      BigEndianBit(w[..n], i);
    }
  }

  /** Eight bytes from c on, zero padded past the end. */
  function Window(s: bytes, c: nat): (w: bytes)
    requires c <= |s|
    ensures |w| == 8
    ensures forall i :: 0 <= i < 8 ==> w[i] == if c + i < |s| then s[c + i] else 0
  {
    if c + 8 <= |s| then s[c..c + 8] else s[c..] + Zeros(8 - (|s| - c))
  }

  lemma WindowBit(s: bytes, c: nat, k: nat)
    requires c <= |s| && k < 64
    ensures StringBit(Window(s, c), k) == if 8 * c + k < 8 * |s| then StringBit(s, 8 * c + k) else 0
  {
    BitOfZero(7 - k % 8);
    assert (8 * c + k) / 8 == c + k / 8 && (8 * c + k) % 8 == k % 8;
  }

  const ULONG_MAX := Pow2(64) - 1

  // ---------------------------------------------------------------- the loops of redisBitpos

  /** Byte by byte up to an aligned address. */
  method SkipBytes(s: bytes, align: nat, bit: nat) returns (c: nat, found: bool)
    requires bit <= 1
    ensures c <= |s| && NoMatch(s, 0, 8 * c, bit)
    ensures found ==> c < |s| && s[c] != SkipByte(bit)
  {
    c, found := 0, false;
    while (align + c) % 8 != 0 && c < |s|
      invariant c <= |s| && NoMatch(s, 0, 8 * c, bit)
      decreases |s| - c
    {
      if s[c] != SkipByte(bit) {
        found := true;
        break;
      }
      SkippedByte(s, c, bit);
      c := c + 1;
    }
  }

  /** Word by word while the word cannot hold the bit. */
  method SkipWords(s: bytes, from: nat, bit: nat) returns (c: nat)
    requires bit <= 1 && from <= |s| && NoMatch(s, 0, 8 * from, bit)
    ensures c <= |s| && NoMatch(s, 0, 8 * c, bit)
    ensures c + 8 <= |s| ==> exists i :: c <= i < c + 8 && s[i] != SkipByte(bit)
  {
    c := from;
    var skip := if bit == 1 then 0 else ULONG_MAX;
    while |s| - c >= 8
      invariant c <= |s| && NoMatch(s, 0, 8 * c, bit)
    {
      LittleEndianExtremes(s[c..c + 8]);
      if LittleEndian(s[c..c + 8]) != skip {
        ghost var i :| 0 <= i < 8 && s[c..c + 8][i] != SkipByte(bit);
        assert s[c + i] != SkipByte(bit);
        break;
      }
      SkippedWord(s, c, bit);
      c := c + 8;
    }
  }

  lemma SkippedWord(s: bytes, c: nat, bit: nat)
    requires bit <= 1 && c + 8 <= |s| && LittleEndian(s[c..c + 8]) == if bit == 1 then 0 else ULONG_MAX
    ensures NoMatch(s, 8 * c, 8 * c + 64, bit)
  {
    hide LittleEndian;
    LittleEndianExtremes(s[c..c + 8]);
    forall i | 8 * c <= i < 8 * c + 64 ensures StringBit(s, i) != bit {
      assert s[c..c + 8][i / 8 - c] == SkipByte(bit);
      SkipByteBits(bit, 7 - i % 8);
    }
  }

  /** The bytes left, at most a word of them, as a big-endian word. */
  method LoadWord(s: bytes, c: nat) returns (word: nat)
    requires c <= |s|
    ensures word == BigEndian(Window(s, c))
  {
    hide Window, BigEndian, Pow2, Or;
    ghost var w := Window(s, c);
    word := 0;
    var at := c;
    assert w[..0] == [];
    NoBytes();
    for j := 0 to 8
      invariant word == BigEndian(w[..j]) && at == if c + j <= |s| then c + j else |s|
    {
      LoadStep(w, j);
      word := (word * 256) % (ULONG_MAX + 1);
      if at < |s| {
        word := Or(word, s[at]);
        at := at + 1;
      }
    }
    assert w[..8] == w;
  }

  lemma NoBytes()
    ensures BigEndian([]) == 0
  {
  }

  lemma LoadStep(w: bytes, j: nat)
    requires |w| == 8 && j < 8
    ensures var h := BigEndian(w[..j]); (h * 256) % (ULONG_MAX + 1) == h * 256
    ensures BigEndian(w[..j + 1]) == Or(BigEndian(w[..j]) * 256, w[j]) == 256 * BigEndian(w[..j]) + w[j]
  {
    hide Or, Pow2;
    OrByte(BigEndian(w[..j]), w[j]);
    assert w[..j + 1][..j] == w[..j];
    BigEndianBound(w[..j]);
    ShiftFits(BigEndian(w[..j]), j);
  }

  lemma ShiftFits(h: nat, j: nat)
    requires h < Pow2(8 * j) && j < 8
    ensures (h * 256) % (ULONG_MAX + 1) == h * 256
  {
    hide Pow2;
    Pow2s();
    Pow2Add(8, 8 * j);
    Pow2Monotone(8 * j + 8, 64);
    SmallMod(h * 256, ULONG_MAX + 1);
  }

  lemma OrByte(high: nat, b: byte)
    ensures Or(high * 256, b) == 256 * high + b
  {
    Pow2s();
    OrLanes(high, 0, 0, b, 8);
  }

  /** Bit k of a 64-bit word, counted from the top. */
  function TopBit(word: nat, k: nat): nat
    requires k < 64
  {
    BitOf(word, 63 - k)
  }

  /** Bit by bit from the top of the word; there is a match in it. */
  method ScanWord(word: nat, bit: nat) returns (k: nat)
    requires word <= ULONG_MAX && bit <= 1 && exists k :: 0 <= k < 64 && TopBit(word, k) == bit
    ensures k < 64 && TopBit(word, k) == bit && forall i :: 0 <= i < k ==> TopBit(word, i) != bit
  {
    hide Pow2, And, BitOf;
    var one := Pow2(63);
    k := 0;
    while one != 0
      invariant k <= 64 && one == if k < 64 then Pow2(63 - k) else 0
      invariant forall i :: 0 <= i < k ==> TopBit(word, i) != bit
      decreases 64 - k
    {
      AndPow2(word, 63 - k);
      if (if And(one, word) != 0 then 1 else 0) == bit {
        return;
      }
      Pow2Step(63 - k);
      k := k + 1;
      one := one / 2;
    }
    assert false;
  }

  // ---------------------------------------------------------------- redisBitpos

  /** Where the skipping loops stop: the next eight bytes are not all skippable, or are not all there. */
  ghost predicate Stopped(s: bytes, c: nat, bit: nat) {
    c <= |s| && (c + 8 <= |s| ==> exists i :: c <= i < c + 8 && s[i] != SkipByte(bit))
  }

  lemma WordBits(s: bytes, c: nat, k: nat)
    requires c <= |s| && k < 64
    ensures TopBit(BigEndian(Window(s, c)), k) == if 8 * c + k < 8 * |s| then StringBit(s, 8 * c + k) else 0
  {
    hide Window, BigEndian, StringBit, BitOf;
    BigEndianBit(Window(s, c), k);
    WindowBit(s, c, k);
  }

  lemma NotSkipByte(b: byte, bit: nat) returns (k: nat)
    requires bit <= 1 && b != SkipByte(bit)
    ensures k < 8 && BitOf(b, k) == bit
  {
    hide BitOf;
    Pow2s();
    if forall k :: 0 <= k < 8 ==> BitOf(b, k) != bit {
      forall k | 0 <= k < 8 ensures BitOf(b, k) == BitOf(SkipByte(bit), k) {
        SkipByteBits(bit, k);
      }
      SameBits(b, SkipByte(bit), 8);
      assert false;
    }
    k :| 0 <= k < 8 && BitOf(b, k) == bit;
  }

  lemma WordHasMatch(s: bytes, c: nat, bit: nat)
    requires Stopped(s, c, bit) && bit <= 1 && !(bit == 1 && BigEndian(Window(s, c)) == 0)
    ensures exists k :: 0 <= k < 64 && TopBit(BigEndian(Window(s, c)), k) == bit
  {
    hide Window, BigEndian, BitOf, TopBit;
    var word := BigEndian(Window(s, c));
    if c + 8 <= |s| {
      var i :| c <= i < c + 8 && s[i] != SkipByte(bit);
      var k := NotSkipByte(s[i], bit);
      var p := 8 * (i - c) + 7 - k;
      assert (8 * c + p) / 8 == i && (8 * c + p) % 8 == 7 - k;
      WordBits(s, c, p);
    } else if bit == 0 {
      WordBits(s, c, 8 * (|s| - c));
    } else {
      NonZeroBit(word, s, c);
    }
  }

  lemma NonZeroBit(word: nat, s: bytes, c: nat)
    requires c <= |s| && word == BigEndian(Window(s, c)) != 0
    ensures exists k :: 0 <= k < 64 && TopBit(word, k) == 1
  {
    hide Window, BigEndian, BitOf, Pow2;
    BigEndianBound(Window(s, c));
    if forall k :: 0 <= k < 64 ==> TopBit(word, k) != 1 {
      forall k | 0 <= k < 64 ensures BitOf(word, k) == BitOf(0, k) {
        BitOfZero(k);
        assert TopBit(word, 63 - k) != 1;
      }
      SameBits(word, 0, 64);
      assert false;
    }
  }

  lemma ZeroWord(s: bytes, c: nat)
    requires Stopped(s, c, 1) && BigEndian(Window(s, c)) == 0
    ensures NoMatch(s, 8 * c, 8 * |s|, 1)
  {
    hide Window, BigEndian, BitOf, StringBit;
    if c + 8 <= |s| {
      var i :| c <= i < c + 8 && s[i] != SkipByte(1);
      var k := NotSkipByte(s[i], 1);
      var p := 8 * (i - c) + 7 - k;
      WordBits(s, c, p);
      assert StringBit(s, 8 * c + p) == 1 by { AtByte(s, i, k); }
      BitOfZero(63 - p);
      assert false;
    }
    forall i | 8 * c <= i < 8 * |s| ensures StringBit(s, i) != 1 {
      WordBits(s, c, i - 8 * c);
      BitOfZero(63 - (i - 8 * c));
    }
  }

  lemma AtByte(s: bytes, i: nat, k: nat)
    requires i < |s| && k < 8
    ensures StringBit(s, 8 * i + 7 - k) == BitOf(s[i], k)
  {
  }

  lemma ScanAnswers(s: bytes, c: nat, bit: nat, k: nat)
    requires c <= |s| && NoMatch(s, 0, 8 * c, bit) && k < 64 && bit <= 1 && Stopped(s, c, bit)
    requires var word := BigEndian(Window(s, c));
             TopBit(word, k) == bit && forall i :: 0 <= i < k ==> TopBit(word, i) != bit
    requires !(bit == 1 && BigEndian(Window(s, c)) == 0)
    ensures Answer(s, bit, 8 * c + k)
  {
    hide Window, BigEndian, BitOf, StringBit, TopBit;
    WordBits(s, c, k);
    forall i | 8 * c <= i < 8 * c + k && i < 8 * |s| ensures StringBit(s, i) != bit {
      WordBits(s, c, i - 8 * c);
    }
    if 8 * c + k > 8 * |s| {
      WordBits(s, c, 8 * (|s| - c));
      assert false;
    }
  }

  /** redisBitpos: `align` is the address of the string. */
  method RedisBitpos(s: bytes, align: nat, bit: nat) returns (pos: int)
    requires bit <= 1
    ensures Answer(s, bit, pos)
  {
    hide NoMatch, Window, BigEndian, TopBit, Answer;
    var c, found := SkipBytes(s, align, bit);
    if !found {
      c := SkipWords(s, c, bit);
    }
    assert Stopped(s, c, bit);
    var word := LoadWord(s, c);
    if bit == 1 && word == 0 {
      ZeroWord(s, c);
      NoneAnswers(s, c);
      return -1;
    }
    WordHasMatch(s, c, bit);
    BigEndianBound(Window(s, c));
    var k := ScanWord(word, bit);
    ScanAnswers(s, c, bit, k);
    pos := 8 * c + k;
  }

  lemma NoneAnswers(s: bytes, c: nat)
    requires c <= |s| && NoMatch(s, 0, 8 * c, 1) && NoMatch(s, 8 * c, 8 * |s|, 1)
    ensures Answer(s, 1, -1)
  {
  }

  // ---------------------------------------------------------------- BITPOS

  /** The command's range forms; indices count bytes, or bits in the last one, negative from the end. */
  datatype Range = Whole | StartOnly(start: int) | ByteRange(start: int, end: int) | BitRange(start: int, end: int)
  {
    predicate EndGiven() { ByteRange? || BitRange? }
  }

  function FromEnd(i: int, total: nat): nat {
    if i >= 0 then i else if total + i >= 0 then total + i else 0
  }

  /** The first and last unit of the range; the last is -1 for an empty string. */
  function Ends(total: nat, start: int, end: int): (nat, int) {
    (FromEnd(start, total), if FromEnd(end, total) >= total then total - 1 else FromEnd(end, total))
  }

  /** The range as bit positions, from the first up to but not including the last. */
  function Span(len: nat, range: Range): (r: (nat, nat))
    ensures r.1 <= 8 * len
  {
    match range
    case Whole => (0, 8 * len)
    case StartOnly(start) => (8 * FromEnd(start, len), 8 * len)
    case ByteRange(start, end) => (8 * Ends(len, start, end).0, 8 * (Ends(len, start, end).1 + 1))
    case BitRange(start, end) => (Ends(8 * len, start, end).0, Ends(8 * len, start, end).1 + 1)
  }

  /** Unit `u` of `total` stands at or after the index; a negative index counts -1 for the last unit. */
  predicate AtOrAfter(u: nat, index: int, total: nat) {
    index <= if index >= 0 then u else u - total
  }

  /** The same for the end of a range, which always reaches the first unit when it lies before it. */
  predicate AtOrBefore(u: nat, index: int, total: nat) {
    u == 0 || (if index >= 0 then u else u - total) <= index
  }

  /** Bit `i` belongs to the range as the command documents its indices. */
  predicate Selected(len: nat, range: Range, i: nat) {
    match range
    case Whole => true
    case StartOnly(start) => AtOrAfter(i / 8, start, len)
    case ByteRange(start, end) => AtOrAfter(i / 8, start, len) && AtOrBefore(i / 8, end, len)
    case BitRange(start, end) => AtOrAfter(i, start, 8 * len) && AtOrBefore(i, end, 8 * len)
  }

  /** The bits between the two ends are the bits whose units, counted from the front or from the back as
      each index asks, lie in the range. */
  lemma SpanSelects(len: nat, range: Range, i: nat)
    requires i < 8 * len
    ensures Span(len, range).0 <= i < Span(len, range).1 <==> Selected(len, range, i)
  {
    assert 8 * (i / 8) <= i < 8 * (i / 8) + 8;
  }

  /** An index and the same index less the number of units name the same unit. */
  lemma IndexFromTheBack(len: nat, start: int, end: int)
    ensures 0 <= start < len && 0 <= end < len ==>
              Span(len, ByteRange(start - len, end - len)) == Span(len, ByteRange(start, end))
    ensures 0 <= start < 8 * len && 0 <= end < 8 * len ==>
              Span(len, BitRange(start - 8 * len, end - 8 * len)) == Span(len, BitRange(start, end))
    ensures 0 <= start < len ==> Span(len, StartOnly(start - len)) == Span(len, ByteRange(start, -1))
  {
  }

  /** The byte with the masked bits made unfit for the search. */
  function Masked(b: byte, mask: byte, bit: nat): (r: byte) {
    Pow2s();
    AndBound(b, 255 - mask, 8);
    OrBound(b, mask, 8);
    if bit == 1 then And(b, 255 - mask) else Or(b, mask)
  }

  lemma MaskedBit(b: byte, mask: byte, bit: nat, k: nat)
    requires k < 8 && bit <= 1
    ensures BitOf(Masked(b, mask, bit), k) == if BitOf(mask, k) == 1 then 1 - bit else BitOf(b, k)
  {
    hide BitOf, And, Or, Pow2;
    Pow2s();
    AndBit(b, 255 - mask, k);
    NotBit(mask, 8, k);
    OrBit(b, mask, k);
  }

  /** Searching one masked byte finds the first match among the bits kept, lo..hi of byte q. */
  lemma MaskedAnswer(s: bytes, q: nat, b: byte, lo: nat, hi: nat, bit: nat, pos: int)
    requires q < |s| && lo <= hi <= 8 && bit <= 1 && Answer([b], bit, pos)
    requires forall k :: 0 <= k < 8 ==> BitOf(b, k) == if lo <= 7 - k < hi then BitOf(s[q], k) else 1 - bit
    ensures First(s, 8 * q + lo, 8 * q + hi, bit, 8 * q + pos)
              || (NoMatch(s, 8 * q + lo, 8 * q + hi, bit) && pos == if bit == 1 then -1 else 8)
    ensures NoMatch(s, 8 * q + lo, 8 * q + hi, bit) ==> pos == if bit == 1 then -1 else 8
  {
    forall j | 0 <= j < 8 ensures StringBit([b], j) == if lo <= j < hi then StringBit(s, 8 * q + j) else 1 - bit {
      assert BitOf(b, 7 - j) == if lo <= j < hi then BitOf(s[q], 7 - j) else 1 - bit;
      assert (8 * q + j) / 8 == q && (8 * q + j) % 8 == j;
    }
    hide StringBit;
    forall i | 8 * q + lo <= i < 8 * q + hi && (i < 8 * q + pos || pos == -1 || pos == 8)
      ensures StringBit(s, i) != bit
    {
      assert StringBit([b], i - 8 * q) != bit;
    }
  }

  /** Searching a run of whole bytes. */
  lemma RunAnswer(s: bytes, from: nat, to: nat, bit: nat, pos: int)
    requires from <= to <= |s| && bit <= 1 && Answer(s[from..to], bit, pos)
    ensures First(s, 8 * from, 8 * to, bit, 8 * from + pos)
              || (NoMatch(s, 8 * from, 8 * to, bit) && pos == if bit == 1 then -1 else 8 * (to - from))
    ensures NoMatch(s, 8 * from, 8 * to, bit) ==> pos == if bit == 1 then -1 else 8 * (to - from)
  {
    var t := s[from..to];
    forall j | 0 <= j < 8 * |t| ensures StringBit(t, j) == StringBit(s, 8 * from + j) {
      assert (8 * from + j) / 8 == from + j / 8 && (8 * from + j) % 8 == j % 8;
    }
    hide StringBit;
    forall i | 8 * from <= i < 8 * to && (NoMatch(t, 0, 8 * |t|, bit) || i < 8 * from + pos)
      ensures StringBit(s, i) != bit
    {
      assert StringBit(t, i - 8 * from) != bit;
    }
  }

  /** A search over lo..hi is over: pos counts from byte `at`, and n bytes end the span. */
  ghost predicate Searched(s: bytes, lo: nat, hi: nat, bit: nat, at: nat, n: nat, pos: int)
    requires hi <= 8 * |s|
  {
    || (First(s, lo, hi, bit, 8 * at + pos) && 0 <= pos < 8 * n)
    || (NoMatch(s, lo, hi, bit) && pos == if bit == 1 then -1 else 8 * n)
  }

  /** The span lo..hi starts in byte `start` and ends in byte `end`. */
  predicate SpanBytes(s: bytes, lo: nat, hi: nat, start: nat, end: nat) {
    lo < hi <= 8 * |s| && start == lo / 8 && end == (hi - 1) / 8
  }

  /** Where the span stops inside the byte q. */
  function StopIn(hi: nat, q: nat): nat
    requires 8 * q < hi
  {
    if hi <= 8 * q + 8 then hi - 8 * q else 8
  }

  lemma FirstByteBits(b: byte, lo: nat, hi: nat, bit: nat, k: nat)
    requires k < 8 && bit <= 1 && hi > 0
    ensures BitOf(Masked(b, FirstMask(lo), bit), k) == if lo % 8 <= 7 - k then BitOf(b, k) else 1 - bit
    ensures BitOf(Masked(Masked(b, FirstMask(lo), bit), LastMask(hi - 1), bit), k)
              == if lo % 8 <= 7 - k <= (hi - 1) % 8 then BitOf(b, k) else 1 - bit
    ensures BitOf(Masked(b, LastMask(hi - 1), bit), k) == if 7 - k <= (hi - 1) % 8 then BitOf(b, k) else 1 - bit
  {
    hide BitOf, Masked, FirstMask, LastMask;
    MaskedBit(b, FirstMask(lo), bit, k);
    MaskedBit(Masked(b, FirstMask(lo), bit), LastMask(hi - 1), bit, k);
    MaskedBit(b, LastMask(hi - 1), bit, k);
    FirstMaskBit(lo, k);
    LastMaskBit(hi - 1, k);
  }

  /** The first byte of a span that does not start on a byte boundary. */
  method SearchFirst(s: bytes, lo: nat, hi: nat, start: nat, end: nat, tmpAlign: nat, bit: nat) returns (pos: int)
    requires bit <= 1 && SpanBytes(s, lo, hi, start, end)
    ensures var stop := 8 * start + StopIn(hi, start); lo <= stop <= hi && Searched(s, lo, stop, bit, start, 1, pos)
  {
    hide BitOf, Masked, FirstMask, LastMask, NoMatch, Answer;
    var tmp := Masked(s[start], FirstMask(lo), bit);
    if LastMask(hi - 1) != 0 && end == start {
      tmp := Masked(tmp, LastMask(hi - 1), bit);
    }
    pos := RedisBitpos([tmp], tmpAlign, bit);
    MaskZero(lo, hi - 1);
    forall k | 0 <= k < 8
      ensures BitOf(tmp, k) == if lo % 8 <= 7 - k < StopIn(hi, start) then BitOf(s[start], k) else 1 - bit
    {
      FirstByteBits(s[start], lo, hi, bit, k);
    }
    MaskedAnswer(s, start, tmp, lo % 8, StopIn(hi, start), bit, pos);
    assert 8 * start + lo % 8 == lo;
  }

  /** The last byte of a span, from its first bit on. */
  method SearchLast(s: bytes, hi: nat, end: nat, tmpAlign: nat, bit: nat) returns (pos: int)
    requires bit <= 1 && 0 < hi <= 8 * |s| && end == (hi - 1) / 8
    ensures Searched(s, 8 * end, hi, bit, end, 1, pos)
  {
    hide BitOf, Masked, LastMask, FirstMask, NoMatch, Answer;
    var tmp := Masked(s[end], LastMask(hi - 1), bit);
    pos := RedisBitpos([tmp], tmpAlign, bit);
    forall k | 0 <= k < 8
      ensures BitOf(tmp, k) == if 0 <= 7 - k < hi - 8 * end then BitOf(s[end], k) else 1 - bit
    {
      FirstByteBits(s[end], 0, hi, bit, k);
    }
    MaskedAnswer(s, end, tmp, 0, hi - 8 * end, bit, pos);
  }

  lemma Extend(s: bytes, lo: nat, mid: nat, hi: nat, bit: nat, at: nat, n: nat, m: nat, pos: int)
    requires lo <= mid <= hi <= 8 * |s| && Searched(s, lo, mid, bit, at, n, pos) && n <= m
    ensures First(s, lo, mid, bit, 8 * at + pos) && 0 <= pos < 8 * n ==> Searched(s, lo, hi, bit, at, m, pos)
    ensures mid == hi && n == m ==> Searched(s, lo, hi, bit, at, m, pos)
    ensures bit <= 1 && !(pos != -1 && pos != 8 * n) ==> NoMatch(s, lo, mid, bit)
  {
  }

  lemma Append(s: bytes, lo: nat, mid: nat, hi: nat, bit: nat, at: nat, n: nat, pos: int)
    requires lo <= mid <= hi <= 8 * |s| && NoMatch(s, lo, mid, bit) && Searched(s, mid, hi, bit, at, n, pos)
    ensures Searched(s, lo, hi, bit, at, n, pos)
  {
  }

  /** The three-part search of bitposCommand: masked first byte, whole bytes, masked last byte. */
  method SearchSpan(s: bytes, lo: nat, hi: nat, align: nat, tmpAlign: nat, bit: nat) returns (at: nat, n: nat, pos: int)
    requires bit <= 1 && lo < hi <= 8 * |s|
    ensures at + n == (hi - 1) / 8 + 1 && Searched(s, lo, hi, bit, at, n, pos)
  {
    hide BitOf, Masked, FirstMask, LastMask, NoMatch, Answer, First, Searched;
    var end := (hi - 1) / 8;
    at, n := lo / 8, end - lo / 8 + 1;
    MaskZero(lo, hi - 1);
    ghost var from := lo;
    NothingYet(s, lo, bit);
    if FirstMask(lo) != 0 {
      pos := SearchFirst(s, lo, hi, at, end, tmpAlign, bit);
      ghost var stop := 8 * at + StopIn(hi, at);
      Extend(s, lo, stop, hi, bit, at, 1, n, pos);
      if n == 1 || (pos != -1 && pos != 8) {
        if n != 1 { FoundIsFirst(s, lo, stop, bit, at, 1, pos); }
        return;
      }
      at, n := at + 1, n - 1;
      from := stop;
    }
    assert from == 8 * at;
    var whole := n - (if LastMask(hi - 1) != 0 then 1 else 0);
    if whole > 0 {
      pos := RedisBitpos(s[at..at + whole], align + at, bit);
      RunAnswer(s, at, at + whole, bit, pos);
      RunSearched(s, at, whole, bit, pos);
      Extend(s, from, 8 * (at + whole), hi, bit, at, whole, n, pos);
      if n == whole || (pos != -1 && pos != 8 * whole) {
        if n != whole { FoundIsFirst(s, from, 8 * (at + whole), bit, at, whole, pos); }
        Append(s, lo, from, hi, bit, at, n, pos);
        return;
      }
      NoMatchJoin(s, lo, from, 8 * (at + whole), bit);
      at, n := at + whole, n - whole;
      from := 8 * at;
    }
    pos := SearchLast(s, hi, end, tmpAlign, bit);
    Append(s, lo, from, hi, bit, at, n, pos);
  }

  lemma NothingYet(s: bytes, lo: nat, bit: nat)
    requires lo <= 8 * |s|
    ensures NoMatch(s, lo, lo, bit)
  {
  }

  lemma RunSearched(s: bytes, at: nat, n: nat, bit: nat, pos: int)
    requires at + n <= |s| && bit <= 1
    requires First(s, 8 * at, 8 * (at + n), bit, 8 * at + pos)
               || (NoMatch(s, 8 * at, 8 * (at + n), bit) && pos == if bit == 1 then -1 else 8 * n)
    ensures Searched(s, 8 * at, 8 * (at + n), bit, at, n, pos)
  {
  }

  lemma FoundIsFirst(s: bytes, lo: nat, hi: nat, bit: nat, at: nat, n: nat, pos: int)
    requires hi <= 8 * |s| && Searched(s, lo, hi, bit, at, n, pos) && bit <= 1 && pos != -1 && pos != 8 * n
    ensures First(s, lo, hi, bit, 8 * at + pos) && 0 <= pos < 8 * n
  {
  }

  /** What BITPOS replies: the least match in the range; -1 for an empty range or if there is none, except
      that a clear bit searched with no explicit end is found past the string. */
  ghost predicate Replies(s: bytes, bit: nat, range: Range, r: int) {
    var (lo, hi) := Span(|s|, range);
    if lo >= hi then r == -1 else
      || First(s, lo, hi, bit, r)
      || (NoMatch(s, lo, hi, bit) && r == if bit == 0 && !range.EndGiven() then 8 * |s| else -1)
  }

  datatype Key = Missing | Str(s: bytes)

  /** Negative indices count from the end; both are brought into the string. */
  method ResolveEnds(total: nat, start0: int, end0: int) returns (start: nat, end: int)
    ensures (start, end) == Ends(total, start0, end0)
  {
    var from: int := start0;
    end := end0;
    if from < 0 { from := total + from; }
    if end < 0 { end := total + end; }
    if from < 0 { from := 0; }
    if end < 0 { end := 0; }
    if end >= total { end := total - 1; }
    start := from;
  }

  method BitposCommand(key: Key, bit: nat, range: Range, align: nat, tmpAlign: nat) returns (r: int)
    requires bit <= 1
    ensures key.Missing? ==> r == if bit == 1 then -1 else 0
    ensures key.Str? ==> Replies(key.s, bit, range, r)
  {
    if key.Missing? {
      return if bit == 1 then -1 else 0;
    }
    var s := key.s;
    var start, end: int := 0, |s| - 1;
    if !range.Whole? {
      var total := if range.BitRange? then 8 * |s| else |s|;
      start := range.start;
      end := if range.StartOnly? then |s| - 1 else range.end;
      start, end := ResolveEnds(total, start, end);
    }
    if start > end {
      return -1;
    }
    var lo, hi := if range.BitRange? then start else 8 * start, if range.BitRange? then end + 1 else 8 * end + 8;
    assert (lo, hi) == Span(|s|, range);
    var at, n, pos := SearchSpan(s, lo, hi, align, tmpAlign, bit);
    if range.EndGiven() && bit == 0 && pos == 8 * n {
      return -1;
    }
    r := if pos != -1 then pos + 8 * at else pos;
  }
}
