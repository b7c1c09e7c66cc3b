/** sdscatrepr and sdssplitargs: strings quoted into one line and a line split into strings. */
module SdsSplit {
  import opened Bytes
  import opened Collections

  const QUOTE: byte := 34
  const TICK: byte := 39
  const BACKSLASH: byte := 92
  const SPACE: byte := 32

  predicate IsPrint(b: byte) {
    32 <= b <= 126
  }

  /** sdsneedsrepr: note that the single quote is not among the characters it looks for. */
  predicate NeedsRepr(s: bytes) {
    exists i :: 0 <= i < |s| && Special(s[i])
  }

  predicate Special(b: byte) {
    b == BACKSLASH || b == QUOTE || !IsPrint(b) || IsSpace(b)
  }

  function HexDigit(n: nat): byte
    requires n < 16
  {
    if n < 10 then 48 + n else 87 + n
  }

  predicate IsHex(b: byte) {
    IsDigit(b) || 97 <= b <= 102 || 65 <= b <= 70
  }

  function HexValue(b: byte): nat
    requires IsHex(b)
  {
    if b <= 57 then b - 48 else if b >= 97 then b - 87 else b - 55
  }

  /** One character as sdscatrepr writes it between the quotes. */
  function Escaped(b: byte): bytes {
    if b == BACKSLASH || b == QUOTE then [BACKSLASH, b]
    else if b == 10 then [BACKSLASH, 110]
    else if b == 13 then [BACKSLASH, 114]
    else if b == 9 then [BACKSLASH, 116]
    else if b == 7 then [BACKSLASH, 97]
    else if b == 8 then [BACKSLASH, 98]
    else if IsPrint(b) then [b]
    else [BACKSLASH, 120, HexDigit(b / 16), HexDigit(b % 16)]
  }

  function EscapedAll(s: bytes): bytes {
    if s == [] then [] else Escaped(s[0]) + EscapedAll(s[1..])
  }

  function Repr(s: bytes): bytes {
    [QUOTE] + EscapedAll(s) + [QUOTE]
  }

  datatype Mode = Plain | InQuotes | InTicks

  datatype TokenResult = Token(token: bytes, rest: bytes) | Unbalanced

  predicate AtEnd(s: bytes) {
    s == [] || s[0] == 0
  }

  function Unescape(b: byte): byte {
    if b == 110 then 10 else if b == 114 then 13 else if b == 116 then 9 else if b == 98 then 8 else if b == 97 then 7
        else b
  }

  predicate ClosesToken(rest: bytes) {
    AtEnd(rest) || IsSpace(rest[0])
  }

  /** The inner loop of sdssplitargs. */
  function ReadToken(s: bytes, mode: Mode, acc: bytes): (r: TokenResult)
    ensures r.Token? ==> |r.rest| <= |s| && (!AtEnd(s) ==> |r.rest| < |s|)
    decreases |s|
  {
    match mode
    case Plain =>
      if AtEnd(s) then Token(acc, s)
      else if s[0] in {32, 10, 13, 9} then Token(acc, s[1..])
      else if s[0] == QUOTE then ReadToken(s[1..], InQuotes, acc)
      else if s[0] == TICK then ReadToken(s[1..], InTicks, acc)
      else ReadToken(s[1..], Plain, acc + [s[0]])
    case InQuotes =>
      if AtEnd(s) then Unbalanced
      else if s[0] == BACKSLASH && |s| >= 4 && s[1] == 120 && IsHex(s[2]) && IsHex(s[3]) then
        ReadToken(s[4..], InQuotes, acc + [HexValue(s[2]) * 16 + HexValue(s[3])])
      else if s[0] == BACKSLASH && !AtEnd(s[1..]) then ReadToken(s[2..], InQuotes, acc + [Unescape(s[1])])
      else if s[0] == QUOTE then (if ClosesToken(s[1..]) then Token(acc, s[1..]) else Unbalanced)
      else ReadToken(s[1..], InQuotes, acc + [s[0]])
    case InTicks =>
      if AtEnd(s) then Unbalanced
      else if s[0] == BACKSLASH && |s| >= 2 && s[1] == TICK then ReadToken(s[2..], InTicks, acc + [TICK])
      else if s[0] == TICK then (if ClosesToken(s[1..]) then Token(acc, s[1..]) else Unbalanced)
      else ReadToken(s[1..], InTicks, acc + [s[0]])
  }

  function Prepend(token: bytes, more: Option<seq<bytes>>): Option<seq<bytes>> {
    if more.None? then None else Some([token] + more.value)
  }

  /** sdssplitargs */
  function SplitArgs(s: bytes): Option<seq<bytes>>
    decreases |s|
  {
    var t := SkipBlanks(s);
    if AtEnd(t) then Some([]) else
      match ReadToken(t, Plain, [])
      case Unbalanced => None
      case Token(token, rest) =>
        Prepend(token, SplitArgs(rest))
  }

  function SkipBlanks(s: bytes): (r: bytes)
    ensures |r| <= |s|
    ensures r != [] ==> !IsSpace(r[0])
  {
    if s != [] && IsSpace(s[0]) then SkipBlanks(s[1..]) else s
  }

  // ---------------------------------------------------------------- quoted text

  /** The characters with an escape letter of their own: bell, backspace, tab, newline, return. */
  const NAMED: map<byte, byte> := map[7 := 97, 8 := 98, 9 := 116, 10 := 110, 13 := 114]

  /** What is quoted is printable, and each character takes its shortest form: itself, a backslash with it or with
      its letter, or else two hexadecimal digits. */
  lemma EscapedForms(b: byte)
    ensures forall c :: c in Escaped(b) ==> 32 <= c <= 126
    ensures Escaped(b)
         == if b == QUOTE || b == BACKSLASH then [BACKSLASH, b]
            else if b in NAMED then [BACKSLASH, NAMED[b]]
            else if 32 <= b <= 126 then [b]
            else [BACKSLASH, 120] + Escaped(b)[2..]
    ensures !(32 <= b <= 126) && b !in NAMED ==>
              var e := Escaped(b);
              |e| == 4 && IsHex(e[2]) && IsHex(e[3]) && 16 * HexValue(e[2]) + HexValue(e[3]) == b
  {
  }

  /** Text between single quotes, as a person writes it: only the single quote itself is escaped. */
  function Ticked(s: bytes): bytes {
    if s == [] then [] else (if s[0] == TICK then [BACKSLASH, TICK] else [s[0]]) + Ticked(s[1..])
  }

  /** It is read back unless it ends in a backslash, which would escape the closing quote; and what follows the
      closing quote must be a blank or the end. */
  lemma {:induction false} ReadTickedBack(w: bytes, rest: bytes, acc: bytes)
    requires 0 !in w && (w != [] ==> w[|w| - 1] != BACKSLASH)
    ensures ReadToken(Ticked(w) + ([TICK] + rest), InTicks, acc)
         == if ClosesToken(rest) then Token(acc + w, rest) else Unbalanced
    decreases |w|
  {
    var s := Ticked(w) + ([TICK] + rest);
    if w == [] {
      assert s == [TICK] + rest && s[1..] == rest && acc + w == acc;
    } else {
      var more := Ticked(w[1..]) + ([TICK] + rest);
      ReadTickedBack(w[1..], rest, acc + [w[0]]);
      assert acc + [w[0]] + w[1..] == acc + w;
      if w[0] == TICK {
        assert s == [BACKSLASH, TICK] + more;
        assert s[2..] == more;
      } else {
        assert s == [w[0]] + more && s[1..] == more;
        TickedStart(w[1..], rest);
      }
    }
  }

  /** An escaped quote does not look like one that follows a backslash of the text. */
  lemma TickedStart(w: bytes, rest: bytes)
    ensures w != [] ==> (Ticked(w) + ([TICK] + rest))[0] != TICK
  {
  }

  // ---------------------------------------------------------------- words that need no quotes

  /** Characters that the splitter copies unchanged outside quotes. */
  predicate PlainChar(b: byte) {
    b !in {0, 32, 10, 13, 9, QUOTE, TICK}
  }

  predicate PlainWord(w: bytes) {
    forall i :: 0 <= i < |w| ==> PlainChar(w[i])
  }

  lemma {:induction false} ReadPlain(w: bytes, rest: bytes, acc: bytes)
    requires PlainWord(w)
    ensures ReadToken(w + ([SPACE] + rest), Plain, acc) == Token(acc + w, rest)
    decreases |w|
  {
    var s := w + ([SPACE] + rest);
    if w == [] {
      assert s[0] == SPACE && s[1..] == rest && acc + w == acc;
    } else {
      assert PlainChar(w[0]) && s[0] == w[0];
      assert s[1..] == w[1..] + ([SPACE] + rest);
      ReadPlain(w[1..], rest, acc + [w[0]]);
      assert acc + [w[0]] + w[1..] == acc + w;
    }
  }

  lemma {:induction false} ReadPlainLast(w: bytes, acc: bytes)
    requires PlainWord(w)
    ensures ReadToken(w, Plain, acc) == Token(acc + w, [])
    decreases |w|
  {
    if w == [] {
      assert acc + w == acc;
    } else {
      assert PlainChar(w[0]);
      ReadPlainLast(w[1..], acc + [w[0]]);
      assert acc + [w[0]] + w[1..] == acc + w;
    }
  }

  lemma SplitBlank(rest: bytes)
    ensures SplitArgs([SPACE] + rest) == SplitArgs(rest)
  {
    assert ([SPACE] + rest)[1..] == rest;
  }

  lemma SplitStep(s: bytes, token: bytes, rest: bytes)
    requires s != [] && !IsSpace(s[0]) && s[0] != 0 && ReadToken(s, Plain, []) == Token(token, rest)
    ensures SplitArgs(s) == Prepend(token, SplitArgs(rest))
  {
    hide ReadToken;
  }

  lemma SplitWord(w: bytes, rest: bytes)
    requires w != [] && PlainWord(w) && !IsSpace(w[0])
    ensures SplitArgs(w + ([SPACE] + rest)) == Prepend(w, SplitArgs(rest))
  {
    hide ReadToken, SplitArgs;
    ReadPlain(w, rest, []);
    assert [] + w == w;
    assert PlainChar(w[0]) && (w + ([SPACE] + rest))[0] == w[0];
    SplitStep(w + ([SPACE] + rest), w, rest);
  }

  lemma SplitLastWord(w: bytes)
    requires w != [] && PlainWord(w) && !IsSpace(w[0])
    ensures SplitArgs(w) == Some([w])
  {
    hide ReadToken, SplitArgs;
    ReadPlainLast(w, []);
    assert [] + w == w;
    assert PlainChar(w[0]);
    SplitStep(w, w, []);
    SplitNothing();
    assert [w] + [] == [w];
  }

  lemma SplitNothing()
    ensures SplitArgs([]) == Some([])
  {
  }

  // ---------------------------------------------------------------- what blanks and quotes cost

  /** A token is never longer than what it is read from, and as long only if every byte is copied. */
  lemma {:induction false} TokenLength(s: bytes, mode: Mode, acc: bytes)
    ensures var r := ReadToken(s, mode, acc);
            r.Token? ==> |r.token| <= |acc| + |s| && (|r.token| == |acc| + |s| ==> mode == Plain && PlainWord(s))
    decreases |s|
  {
    hide Unescape;
    if !AtEnd(s) {
      TokenLength(s[1..], Plain, acc + [s[0]]);
      TokenLength(s[1..], InQuotes, acc);
      TokenLength(s[1..], InTicks, acc);
      TokenLength(s[1..], mode, acc + [s[0]]);
      if |s| >= 2 {
        TokenLength(s[2..], InQuotes, acc + [Unescape(s[1])]);
        TokenLength(s[2..], InTicks, acc + [TICK]);
      }
      if |s| >= 4 && IsHex(s[2]) && IsHex(s[3]) {
        TokenLength(s[4..], InQuotes, acc + [HexValue(s[2]) * 16 + HexValue(s[3])]);
      }
      if PlainWord(s[1..]) && PlainChar(s[0]) {
        assert PlainWord(s) by { assert s == [s[0]] + s[1..]; }
      }
    }
  }

  /** No string of a line is longer than the line, and one as long is the line itself, without blanks or quotes. */
  lemma {:induction false} SplitLengths(s: bytes, i: nat)
    requires SplitArgs(s).Some? && i < |SplitArgs(s).value|
    ensures |SplitArgs(s).value[i]| <= |s| && (|SplitArgs(s).value[i]| == |s| ==> PlainWord(s))
    decreases |s|
  {
    hide ReadToken, PlainWord;
    var t := SkipBlanks(s);
    var r := ReadToken(t, Plain, []);
    TokenLength(t, Plain, []);
    SkipLength(s);
    if i > 0 {
      SplitLengths(r.rest, i - 1);
    }
  }

  lemma {:induction false} SkipLength(s: bytes)
    ensures |SkipBlanks(s)| == |s| ==> SkipBlanks(s) == s
  {
  }
}
