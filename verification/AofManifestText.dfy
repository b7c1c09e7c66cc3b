/** The manifest file's text: one line per AOF file, quoted when its name needs it, and the
    strict loader that reads it back. */
module AofManifestText {
  import opened Bytes
  import opened AofManifest
  import opened SdsSplit
  import opened Collections
  import Resp

  // ---------------------------------------------------------------- writer

  const FILE: bytes := [102, 105, 108, 101]
  const SEQ: bytes := [115, 101, 113]
  const TYPE: bytes := [116, 121, 112, 101]

  function Code(k: FileType): byte {
    match k
    case Base => 98
    case History => 104
    case Incr => 105
  }

  function NameText(name: bytes): bytes {
    if NeedsRepr(name) then Repr(name) else name
  }

  function Tail(ai: AofInfo): bytes {
    SEQ + [SPACE] + (Digits(ai.seqno) + [SPACE] + (TYPE + [SPACE] + [Code(ai.kind)]))
  }

  function LineBody(ai: AofInfo): bytes {
    FILE + [SPACE] + (NameText(ai.name) + [SPACE] + Tail(ai))
  }

  /** aofInfoFormat */
  function LineText(ai: AofInfo): bytes {
    LineBody(ai) + [LF]
  }

  function LinesText(infos: seq<AofInfo>): bytes {
    if infos == [] then [] else LineText(infos[0]) + LinesText(infos[1..])
  }

  function Infos(m: Manifest): seq<AofInfo> {
    (if m.base.Some? then [m.base.value] else []) + m.history + m.incr
  }

  /** getAofManifestAsString: BASE first, then HISTORY, then INCR. */
  method ManifestAsString(m: Manifest) returns (text: bytes)
    ensures text == LinesText(Infos(m))
  {
    hide LineText;
    text := [];
    if m.base.Some? {
      text := text + LineText(m.base.value);
    }
    ghost var head: seq<AofInfo> := if m.base.Some? then [m.base.value] else [];
    assert m.base.Some? ==> head[1..] == [];
    for i := 0 to |m.history|
      invariant text == LinesText(head + m.history[..i])
    {
      assert head + m.history[..i + 1] == head + m.history[..i] + [m.history[i]];
      LinesSnoc(head + m.history[..i], m.history[i]);
      text := text + LineText(m.history[i]);
    }
    assert m.history[..|m.history|] == m.history;
    assert head + m.history + m.incr[..0] == head + m.history;
    for i := 0 to |m.incr|
      invariant text == LinesText(head + m.history + m.incr[..i])
    {
      assert head + m.history + m.incr[..i + 1] == head + m.history + m.incr[..i] + [m.incr[i]];
      LinesSnoc(head + m.history + m.incr[..i], m.incr[i]);
      text := text + LineText(m.incr[i]);
    }
    assert m.incr[..|m.incr|] == m.incr;
  }

  lemma {:induction false} LinesSnoc(infos: seq<AofInfo>, ai: AofInfo)
    ensures LinesText(infos + [ai]) == LinesText(infos) + LineText(ai)
  {
    hide LineText;
    if infos == [] {
      assert [ai][1..] == [];
    } else {
      assert (infos + [ai])[1..] == infos[1..] + [ai];
      LinesSnoc(infos[1..], ai);
    }
  }

  // ---------------------------------------------------------------- loader

  /** MANIFEST_MAX_LINE */
  const MAX_LINE := 1024

  datatype LoadResult = Loaded(m: Manifest) | Malformed | NegativeSeq

  /** The fields of one line; zero and None mean "not given". */
  datatype Fields = Fields(name: Option<bytes>, seqno: int, code: byte)

  /** A C function sees a string up to its first zero byte. */
  function UntilNul(s: bytes): (r: bytes)
    ensures |r| <= |s| && 0 !in r
  {
    if s == [] || s[0] == 0 then [] else [s[0]] + UntilNul(s[1..])
  }

  predicate Trimmed(b: byte) {
    b in {32, 9, 13, 10}
  }

  function TrimLeft(s: bytes): bytes {
    if s != [] && Trimmed(s[0]) then TrimLeft(s[1..]) else s
  }

  function TrimRight(s: bytes): bytes {
    if s != [] && Trimmed(s[|s| - 1]) then TrimRight(s[..|s| - 1]) else s
  }

  function LowerBytes(s: bytes): bytes {
    seq(|s|, i requires 0 <= i < |s| => if 65 <= s[i] <= 90 then s[i] + 32 else s[i])
  }

  /** pathIsBaseName */
  predicate IsFileName(s: bytes) {
    47 !in s && BACKSLASH !in s
  }

  function ReadPairs(argv: seq<bytes>, f: Fields): Option<Fields> {
    if |argv| < 2 then Some(f) else
      var key, value := LowerBytes(UntilNul(argv[0])), argv[1];
      if key == FILE then
        var name := UntilNul(value);
        if IsFileName(name) then ReadPairs(argv[2..], f.(name := Some(name))) else None
      else if key == SEQ then ReadPairs(argv[2..], f.(seqno := ParseInt(value)))
      else if key == TYPE then ReadPairs(argv[2..], f.(code := if value == [] then 0 else value[0]))
      else ReadPairs(argv[2..], f)
  }

  function ReadFields(line: bytes): Option<Fields> {
    var argv := SplitArgs(line);
    if argv.None? || |argv.value| < 6 || |argv.value| % 2 == 1 then None
    else ReadPairs(argv.value, Fields(None, 0, 0))
  }

  /** What one complete line adds to the manifest read so far. */
  function AddFields(m: Manifest, f: Fields): LoadResult {
    if f.name.None? || f.seqno == 0 || f.code == 0 then Malformed
    else if f.code == 98 then
      if m.base.Some? then Malformed
      else if f.seqno < 0 then NegativeSeq
      else Loaded(m.(base := Some(AofInfo(f.name.value, f.seqno, Base)), baseSeq := f.seqno))
    else if f.code == 104 then
      if f.seqno < 0 then NegativeSeq
      else Loaded(m.(history := m.history + [AofInfo(f.name.value, f.seqno, History)]))
    else if f.code == 105 then
      if f.seqno <= m.incrSeq then Malformed
      else Loaded(m.(incr := m.incr + [AofInfo(f.name.value, f.seqno, Incr)], incrSeq := f.seqno))
    else Malformed
  }

  function AddLine(m: Manifest, line: bytes): LoadResult {
    var s := UntilNul(line);
    if s != [] && s[0] == 35 then Loaded(m)
    else if LF !in s then Malformed
    else
      var t := TrimRight(TrimLeft(s));
      if t == [] then Malformed else
        var f := ReadFields(t);
        if f.None? then Malformed else AddFields(m, f.value)
  }

  function LoadLines(text: bytes, m: Manifest, linenum: nat): LoadResult
    decreases |text|
  {
    if text == [] then (if linenum == 0 then Malformed else Loaded(m)) else
      var n := Resp.LineLength(text, MAX_LINE);
      var r := AddLine(m, text[..n]);
      if r.Loaded? then LoadLines(text[n..], r.m, linenum + 1) else r
  }

  /** aofLoadManifestFromFile */
  method LoadManifestFromFile(text: bytes) returns (r: LoadResult)
    ensures r == LoadLines(text, EMPTY, 0)
  {
    var rest, m, linenum := text, EMPTY, 0;
    while rest != []
      invariant linenum >= 0
      invariant LoadLines(text, EMPTY, 0) == LoadLines(rest, m, linenum)
      decreases |rest|
    {
      hide AddLine, Resp.LineLength;
      var n := Resp.LineLength(rest, MAX_LINE);
      var a := AddLine(m, rest[..n]);
      if !a.Loaded? { return a; }
      m, rest, linenum := a.m, rest[n..], linenum + 1;
    }
    r := if linenum == 0 then Malformed else Loaded(m);
  }

  // ---------------------------------------------------------------- reading one name back

  lemma HexRoundTrip(b: byte)
    ensures IsHex(HexDigit(b / 16)) && IsHex(HexDigit(b % 16))
    ensures HexValue(HexDigit(b / 16)) * 16 + HexValue(HexDigit(b % 16)) == b
  {
  }

  /** One escaped character is read back inside quotes. */
  lemma ReadEscapedChar(b: byte, rest: bytes, acc: bytes)
    requires rest != []
    ensures ReadToken(Escaped(b) + rest, InQuotes, acc) == ReadToken(rest, InQuotes, acc + [b])
  {
    var e := Escaped(b);
    var s := e + rest;
    if |e| == 1 {
      assert s[1..] == rest;
    } else if |e| == 2 {
      assert s[0] == e[0] && s[1] == e[1];
      assert s[2..] == rest;
      assert s[1..] == [e[1]] + rest;
      assert Unescape(e[1]) == b;
    } else {
      HexRoundTrip(b);
      assert s[0] == e[0] && s[1] == e[1] && s[2] == e[2] && s[3] == e[3];
      assert s[4..] == rest;
    }
  }

  lemma {:induction false} ReadEscaped(name: bytes, rest: bytes, acc: bytes)
    ensures ReadToken(EscapedAll(name) + ([QUOTE, SPACE] + rest), InQuotes, acc) == Token(acc + name, [SPACE] + rest)
    decreases |name|
  {
    hide *;
    if name == [] {
      ReadClosingQuote(name, rest, acc);
    } else {
      ReadEscapedStep(name, [QUOTE, SPACE] + rest, acc);
      ReadEscaped(name[1..], rest, acc + [name[0]]);
      assert acc + [name[0]] + name[1..] == acc + name;
    }
  }

  lemma ReadClosingQuote(name: bytes, rest: bytes, acc: bytes)
    requires name == []
    ensures ReadToken(EscapedAll(name) + ([QUOTE, SPACE] + rest), InQuotes, acc) == Token(acc + name, [SPACE] + rest)
  {
    var end := [QUOTE, SPACE] + rest;
    assert EscapedAll(name) + end == end;
    assert end[1..] == [SPACE] + rest && acc + name == acc;
  }

  lemma ReadEscapedStep(name: bytes, end: bytes, acc: bytes)
    requires name != [] && end != []
    ensures ReadToken(EscapedAll(name) + end, InQuotes, acc)
              == ReadToken(EscapedAll(name[1..]) + end, InQuotes, acc + [name[0]])
  {
    hide ReadToken, Escaped;
    var more := EscapedAll(name[1..]) + end;
    assert EscapedAll(name) + end == Escaped(name[0]) + more;
    ReadEscapedChar(name[0], more, acc);
  }

  lemma SplitQuoted(name: bytes, rest: bytes)
    ensures SplitArgs(Repr(name) + ([SPACE] + rest)) == Prepend(name, SplitArgs(rest))
  {
    hide SplitArgs;
    var s := Repr(name) + ([SPACE] + rest);
    assert s[0] == QUOTE;
    assert s[1..] == EscapedAll(name) + ([QUOTE, SPACE] + rest);
    ReadEscaped(name, rest, []);
    assert [] + name == name;
    SplitStep(s, name, [SPACE] + rest);
    SplitBlank(rest);
  }

  /** Names that survive being written and split again. */
  predicate Splittable(name: bytes) {
    name != [] && (NeedsRepr(name) || TICK !in name)
  }

  lemma SplitName(name: bytes, rest: bytes)
    requires Splittable(name)
    ensures SplitArgs(NameText(name) + ([SPACE] + rest)) == Prepend(name, SplitArgs(rest))
  {
    hide SplitArgs, Repr;
    if NeedsRepr(name) {
      SplitQuoted(name, rest);
    } else {
      forall i | 0 <= i < |name| ensures PlainChar(name[i]) {
        assert !Special(name[i]);
      }
      SplitWord(name, rest);
    }
  }

  lemma DigitsArePlain(n: nat)
    ensures PlainWord(Digits(n))
  {
  }

  lemma SplitTail(ai: AofInfo)
    requires ai.seqno >= 1
    ensures SplitArgs(Tail(ai)) == Some([SEQ, Digits(ai.seqno), TYPE, [Code(ai.kind)]])
  {
    hide SplitArgs, Digits;
    var c := [Code(ai.kind)];
    DigitsArePlain(ai.seqno);
    SplitLastWord(c);
    SplitWord(TYPE, c);
    SplitWord(Digits(ai.seqno), TYPE + ([SPACE] + c));
    assert TYPE + [SPACE] + c == TYPE + ([SPACE] + c);
    var t := TYPE + [SPACE] + c;
    assert Digits(ai.seqno) + [SPACE] + t == Digits(ai.seqno) + ([SPACE] + t);
    SplitWord(SEQ, Digits(ai.seqno) + [SPACE] + t);
    assert SEQ + [SPACE] + (Digits(ai.seqno) + [SPACE] + t) == SEQ + ([SPACE] + (Digits(ai.seqno) + [SPACE] + t));
    assert [SEQ] + ([Digits(ai.seqno)] + ([TYPE] + [c])) == [SEQ, Digits(ai.seqno), TYPE, c];
  }

  // ---------------------------------------------------------------- names with a single quote

  lemma {:induction false} NoClosingTick(s: bytes, acc: bytes)
    requires TICK !in s
    ensures ReadToken(s, InTicks, acc) == Unbalanced
    decreases |s|
  {
    if !AtEnd(s) {
      NoClosingTick(s[1..], acc + [s[0]]);
    }
  }

  /** Inside single quotes the token ends well only at a quote that is the last character of the name. */
  lemma {:induction false} ReadTicked(b: bytes, rest: bytes, acc: bytes)
    requires (forall i :: 0 <= i < |b| ==> !Special(b[i])) && TICK !in rest
    ensures var r := ReadToken(b + ([SPACE] + rest), InTicks, acc);
            r == Unbalanced || (b != [] && r == Token(acc + b[..|b| - 1], [SPACE] + rest))
    decreases |b|
  {
    var s := b + ([SPACE] + rest);
    if b == [] {
      assert s == [SPACE] + rest;
      NoClosingTick(s, acc);
    } else {
      assert !Special(b[0]) && s[0] == b[0];
      assert s[1..] == b[1..] + ([SPACE] + rest);
      if b[0] == TICK {
        if |b| == 1 {
          assert s[1..] == [SPACE] + rest;
          assert acc + b[..0] == acc;
        } else {
          assert !Special(b[1]) && s[1..][0] == b[1];
        }
      } else {
        ReadTicked(b[1..], rest, acc + [b[0]]);
        if |b| > 1 {
          assert acc + [b[0]] + b[1..][..|b| - 2] == acc + b[..|b| - 1];
        }
      }
    }
  }

  /** A plain name holding a single quote is never read back as itself. */
  lemma {:induction false} ReadTickName(name: bytes, rest: bytes, acc: bytes)
    requires (forall i :: 0 <= i < |name| ==> !Special(name[i])) && TICK in name && TICK !in rest
    ensures var r := ReadToken(name + ([SPACE] + rest), Plain, acc);
            r == Unbalanced || (r.Token? && r.rest == [SPACE] + rest && |r.token| == |acc| + |name| - 2)
    decreases |name|
  {
    var s := name + ([SPACE] + rest);
    assert !Special(name[0]) && s[0] == name[0];
    assert s[1..] == name[1..] + ([SPACE] + rest);
    if name[0] == TICK {
      ReadTicked(name[1..], rest, acc);
    } else {
      ReadTickName(name[1..], rest, acc + [name[0]]);
    }
  }

  lemma SplitTickName(name: bytes, rest: bytes)
    requires !NeedsRepr(name) && TICK in name && TICK !in rest
    ensures var r := SplitArgs(NameText(name) + ([SPACE] + rest));
            r == None || exists x :: |x| < |name| && r == Prepend(x, SplitArgs(rest))
  {
    hide SplitArgs, ReadToken;
    var s := name + ([SPACE] + rest);
    assert forall i :: 0 <= i < |name| ==> !Special(name[i]);
    ReadTickName(name, rest, []);
    assert s[0] == name[0] && !Special(name[0]);
    var r := ReadToken(s, Plain, []);
    if r.Token? {
      SplitStep(s, r.token, [SPACE] + rest);
      SplitBlank(rest);
    } else {
      SplitUnbalanced(s);
    }
  }

  lemma SplitUnbalanced(s: bytes)
    requires s != [] && !IsSpace(s[0]) && s[0] != 0 && ReadToken(s, Plain, []) == Unbalanced
    ensures SplitArgs(s) == None
  {
    hide ReadToken;
  }

  // ---------------------------------------------------------------- one line

  ghost predicate GoodName(name: bytes) {
    Splittable(name) && 0 !in name && IsFileName(name)
  }

  lemma NoTickInTail(ai: AofInfo)
    ensures TICK !in Tail(ai)
  {
    hide Digits;
    DigitsArePlain(ai.seqno);
    assert forall i :: 0 <= i < |Digits(ai.seqno)| ==> PlainChar(Digits(ai.seqno)[i]);
  }

  lemma SplitLine(ai: AofInfo)
    ensures SplitArgs(LineBody(ai)) == Prepend(FILE, SplitArgs(NameText(ai.name) + ([SPACE] + Tail(ai))))
  {
    hide SplitArgs, NameText, Tail;
    var more := NameText(ai.name) + ([SPACE] + Tail(ai));
    assert NameText(ai.name) + [SPACE] + Tail(ai) == more;
    assert FILE + [SPACE] + more == FILE + ([SPACE] + more);
    SplitWord(FILE, more);
  }

  lemma {:induction false} UntilNulIs(s: bytes)
    requires 0 !in s
    ensures UntilNul(s) == s
  {
    if s != [] {
      UntilNulIs(s[1..]);
    }
  }

  lemma PairsOf(name: bytes, ai: AofInfo)
    requires ai.seqno >= 1
    ensures ReadPairs([FILE, name, SEQ, Digits(ai.seqno), TYPE, [Code(ai.kind)]], Fields(None, 0, 0))
         == if IsFileName(UntilNul(name)) then Some(Fields(Some(UntilNul(name)), ai.seqno, Code(ai.kind))) else None
  {
    hide Digits, ParseInt, UntilNul;
    UntilNulIs(FILE);
    UntilNulIs(SEQ);
    UntilNulIs(TYPE);
    var d, c := Digits(ai.seqno), [Code(ai.kind)];
    var argv: seq<bytes> := [FILE, name, SEQ, d, TYPE, c];
    assert LowerBytes(FILE) == FILE && LowerBytes(SEQ) == SEQ && LowerBytes(TYPE) == TYPE;
    assert argv[2..] == [SEQ, d, TYPE, c];
    assert argv[2..][2..] == [TYPE, c];
    assert |argv[2..][2..][2..]| == 0;
    ParseIntOfDigits(ai.seqno, []);
    assert d + [] == d;
    if IsFileName(UntilNul(name)) {
      var f1 := Fields(Some(UntilNul(name)), 0, 0);
      assert ReadPairs(argv, Fields(None, 0, 0)) == ReadPairs(argv[2..], f1);
      var f2 := f1.(seqno := ai.seqno);
      assert ReadPairs(argv[2..], f1) == ReadPairs(argv[2..][2..], f2);
      assert ReadPairs(argv[2..][2..], f2) == ReadPairs(argv[2..][2..][2..], f2.(code := Code(ai.kind)));
    }
  }

  lemma NoNameText()
    ensures NameText([]) == []
  {
  }

  /** A line gives back its entry exactly when the name is a good one; otherwise it is refused or
      read with another name. */
  lemma ReadLine(ai: AofInfo)
    requires ai.seqno >= 1
    ensures GoodName(ai.name) ==> ReadFields(LineBody(ai)) == Some(Fields(Some(ai.name), ai.seqno, Code(ai.kind)))
    ensures !GoodName(ai.name) ==>
              var f := ReadFields(LineBody(ai));
              f == None || (f.value.name.Some? && f == Some(Fields(f.value.name, ai.seqno, Code(ai.kind)))
                  && f.value.name != Some(ai.name))
  {
    hide *;
    if ai.name == [] {
      NoNameLine(ai);
      NotGood(ai.name);
    } else if Splittable(ai.name) {
      SplitName(ai.name, Tail(ai));
      LineSays(ai, ai.name);
      GoodIfNoNul(ai.name);
    } else {
      NoTickInTail(ai);
      NotGood(ai.name);
      SplitTickName(ai.name, Tail(ai));
      var r := SplitArgs(NameText(ai.name) + ([SPACE] + Tail(ai)));
      if r == None {
        LineRefused(ai);
      } else {
        var x :| |x| < |ai.name| && r == Prepend(x, SplitArgs(Tail(ai)));
        LineSays(ai, x);
      }
    }
  }

  lemma NotGood(name: bytes)
    ensures name == [] ==> !Splittable(name)
    ensures !Splittable(name) ==> !GoodName(name)
    ensures !Splittable(name) && name != [] ==> !NeedsRepr(name) && TICK in name
  {
  }

  lemma GoodIfNoNul(name: bytes)
    requires Splittable(name)
    ensures GoodName(name) <==> UntilNul(name) == name && IsFileName(UntilNul(name))
  {
    hide UntilNul;
    if 0 !in name { UntilNulIs(name); }
  }

  /** The name the line is split into is the name read, up to a zero byte. */
  lemma LineSays(ai: AofInfo, x: bytes)
    requires ai.seqno >= 1 && SplitArgs(NameText(ai.name) + ([SPACE] + Tail(ai))) == Prepend(x, SplitArgs(Tail(ai)))
    ensures ReadFields(LineBody(ai))
         == if IsFileName(UntilNul(x)) then Some(Fields(Some(UntilNul(x)), ai.seqno, Code(ai.kind))) else None
  {
    hide SplitArgs, ReadPairs, NameText, Tail, Digits, UntilNul, IsFileName, LineBody;
    SplitLine(ai);
    SplitTail(ai);
    PairsOf(x, ai);
    var d, c := Digits(ai.seqno), [Code(ai.kind)];
    assert [FILE] + ([x] + [SEQ, d, TYPE, c]) == [FILE, x, SEQ, d, TYPE, c];
  }

  lemma LineRefused(ai: AofInfo)
    requires SplitArgs(NameText(ai.name) + ([SPACE] + Tail(ai))) == None
    ensures ReadFields(LineBody(ai)) == None
  {
    hide SplitArgs, ReadPairs, NameText, Tail, LineBody;
    SplitLine(ai);
  }

  lemma NoNameLine(ai: AofInfo)
    requires ai.seqno >= 1 && ai.name == []
    ensures ReadFields(LineBody(ai)) == None
  {
    hide SplitArgs, ReadPairs, NameText, Tail, Digits, LineBody;
    SplitLine(ai);
    SplitTail(ai);
    NoNameText();
    SplitBlank(Tail(ai));
    assert [] + ([SPACE] + Tail(ai)) == [SPACE] + Tail(ai);
  }

  // ---------------------------------------------------------------- lines of a file

  ghost predicate Inline(s: bytes) {
    LF !in s && 0 !in s
  }

  lemma {:induction false} EscapedInline(s: bytes)
    ensures Inline(EscapedAll(s))
  {
    if s != [] {
      EscapedInline(s[1..]);
      assert Inline(Escaped(s[0]));
    }
  }

  lemma NameInline(name: bytes)
    ensures Inline(NameText(name))
  {
    if NeedsRepr(name) {
      EscapedInline(name);
    } else {
      assert forall i :: 0 <= i < |name| ==> !Special(name[i]);
    }
  }

  lemma LineInline(ai: AofInfo)
    ensures Inline(LineBody(ai)) && LineBody(ai) != []
    ensures LineBody(ai)[0] == 102 && LineBody(ai)[|LineBody(ai)| - 1] == Code(ai.kind)
  {
    hide NameText, Digits;
    NameInline(ai.name);
    DigitsArePlain(ai.seqno);
    assert forall i :: 0 <= i < |Digits(ai.seqno)| ==> PlainChar(Digits(ai.seqno)[i]);
  }

  lemma AddCompleteLine(m: Manifest, ai: AofInfo)
    ensures AddLine(m, LineText(ai))
         == var f := ReadFields(LineBody(ai)); if f.None? then Malformed else AddFields(m, f.value)
  {
    hide LineBody, ReadFields, AddFields;
    LineInline(ai);
    var s, b := LineText(ai), LineBody(ai);
    UntilNulIs(s);
    assert s[0] == b[0] && s[|s| - 1] == LF;
    assert TrimLeft(s) == s;
    assert s[..|s| - 1] == b;
    assert TrimRight(s) == TrimRight(b);
    assert TrimRight(b) == b;
  }

  lemma AddLongLine(m: Manifest, ai: AofInfo, n: nat)
    requires 0 < n <= |LineBody(ai)|
    ensures AddLine(m, LineBody(ai)[..n]) == Malformed
  {
    hide LineBody, ReadFields;
    LineInline(ai);
    var s := LineBody(ai)[..n];
    UntilNulIs(s);
    assert s[0] == LineBody(ai)[0];
  }

  lemma {:induction false} FullBuffer(s: bytes, k: nat)
    requires k <= |s| && forall i :: 0 <= i < k ==> s[i] != LF
    ensures Resp.LineLength(s, k) == k
  {
    if k > 0 {
      FullBuffer(s[1..], k - 1);
    }
  }

  /** What the loader makes of one entry's line. */
  function Parsed(ai: AofInfo): Option<Fields> {
    if |LineText(ai)| > MAX_LINE then None else ReadFields(LineBody(ai))
  }

  function Absorb(m: Manifest, infos: seq<AofInfo>): LoadResult
    decreases infos
  {
    if infos == [] then Loaded(m) else
      var f := Parsed(infos[0]);
      if f.None? then Malformed else
        var r := AddFields(m, f.value);
        if r.Loaded? then Absorb(r.m, infos[1..]) else r
  }

  lemma {:induction false} LoadIsAbsorb(infos: seq<AofInfo>, m: Manifest, n: nat)
    ensures LoadLines(LinesText(infos), m, n) == if infos == [] && n == 0 then Malformed else Absorb(m, infos)
    decreases infos
  {
    hide Parsed, AddFields, AddLine, Resp.LineLength, LineText;
    if infos == [] {
      assert LinesText(infos) == [];
    } else {
      hide LoadLines, LinesText;
      LoadFirstLine(infos, m, n);
      var f := Parsed(infos[0]);
      if f.Some? {
        var r := AddFields(m, f.value);
        if r.Loaded? {
          LoadIsAbsorb(infos[1..], r.m, n + 1);
        }
      }
    }
  }

  lemma LoadFirstLine(infos: seq<AofInfo>, m: Manifest, n: nat)
    requires infos != []
    ensures var f := Parsed(infos[0]);
            var r := if f.None? then Malformed else AddFields(m, f.value);
            LoadLines(LinesText(infos), m, n) == if r.Loaded? then LoadLines(LinesText(infos[1..]), r.m, n + 1) else r
  {
    hide LineBody, ReadFields, AddFields, AddLine, Resp.LineLength;
    var ai := infos[0];
    var text := LinesText(infos);
    LineInline(ai);
    if |LineText(ai)| <= MAX_LINE {
      assert text == LineBody(ai) + [LF] + LinesText(infos[1..]);
      Resp.LineLengthOf(LineBody(ai), LinesText(infos[1..]), MAX_LINE);
      assert text[..|LineText(ai)|] == LineText(ai);
      assert text[|LineText(ai)|..] == LinesText(infos[1..]);
      AddCompleteLine(m, ai);
    } else {
      assert forall i :: 0 <= i < MAX_LINE ==> text[i] == LineBody(ai)[i];
      FullBuffer(text, MAX_LINE);
      assert text[..MAX_LINE] == LineBody(ai)[..MAX_LINE];
      AddLongLine(m, ai, MAX_LINE);
    }
  }

  // ---------------------------------------------------------------- the whole manifest

  /** Entries the loader gives back unchanged. */
  ghost predicate Loadable(ai: AofInfo) {
    |LineText(ai)| <= MAX_LINE && GoodName(ai.name)
  }

  ghost predicate Numbered(ai: AofInfo) {
    ai.seqno >= 1
  }

  lemma ParsedIs(ai: AofInfo)
    requires Numbered(ai)
    ensures Loadable(ai) ==> Parsed(ai) == Some(Fields(Some(ai.name), ai.seqno, Code(ai.kind)))
    ensures !Loadable(ai) ==>
              var f := Parsed(ai);
              f == None || (f.value.name.Some? && f == Some(Fields(f.value.name, ai.seqno, Code(ai.kind)))
                  && f.value.name != Some(ai.name))
  {
    hide LineBody, ReadFields, GoodName;
    ReadLine(ai);
  }

  /** Lists the invariant of the manifest guarantees: kinds in place, INCR numbers increasing. */
  ghost predicate WellKept(m: Manifest) {
    && (m.base.Some? ==> m.base.value.kind == Base && Numbered(m.base.value))
    && (forall i :: 0 <= i < |m.history| ==> m.history[i].kind == History && Numbered(m.history[i]))
    && (forall i :: 0 <= i < |m.incr| ==> m.incr[i].kind == Incr && Numbered(m.incr[i]))
    && (forall i, j :: 0 <= i < j < |m.incr| ==> m.incr[i].seqno < m.incr[j].seqno)
  }

  lemma {:induction false} AbsorbConcat(m: Manifest, a: seq<AofInfo>, b: seq<AofInfo>)
    ensures Absorb(m, a + b) == var r := Absorb(m, a); if r.Loaded? then Absorb(r.m, b) else r
    decreases a
  {
    hide Parsed, AddFields;
    if a == [] {
      assert a + b == b;
    } else {
      assert (a + b)[1..] == a[1..] + b;
      var f := Parsed(a[0]);
      if f.Some? && AddFields(m, f.value).Loaded? {
        AbsorbConcat(AddFields(m, f.value).m, a[1..], b);
      }
    }
  }

  // ---------------------------------------------------------------- any list of entries

  function OfKind(infos: seq<AofInfo>, k: FileType): seq<AofInfo> {
    if infos == [] then [] else (if infos[0].kind == k then [infos[0]] else []) + OfKind(infos[1..], k)
  }

  /** One BASE entry at most, and INCR numbers that grow from line to line. */
  ghost predicate Consistent(infos: seq<AofInfo>) {
    forall i, j :: 0 <= i < j < |infos| && infos[i].kind == infos[j].kind ==>
      infos[i].kind == History || (infos[i].kind == Incr && infos[i].seqno < infos[j].seqno)
  }

  /** No entry clashes with what has been read before it. */
  ghost predicate FitsAfter(m: Manifest, infos: seq<AofInfo>) {
    forall i :: 0 <= i < |infos| ==>
      && (infos[i].kind == Base ==> m.base.None?)
      && (infos[i].kind == Incr ==> infos[i].seqno > m.incrSeq)
  }

  /** The entries sorted into their lists, behind those already read. */
  function Merged(m: Manifest, infos: seq<AofInfo>): Manifest {
    var base, incr := OfKind(infos, Base), OfKind(infos, Incr);
    m.(base := if base == [] then m.base else Some(base[0]),
       baseSeq := if base == [] then m.baseSeq else base[0].seqno,
       history := m.history + OfKind(infos, History),
       incr := m.incr + incr,
       incrSeq := if incr == [] then m.incrSeq else incr[|incr| - 1].seqno)
  }

  lemma ConsistentFirst(infos: seq<AofInfo>)
    requires infos != []
    ensures Consistent(infos) <==>
              && Consistent(infos[1..])
              && forall j :: 0 < j < |infos| && infos[0].kind == infos[j].kind ==>
                   infos[0].kind == History || (infos[0].kind == Incr && infos[0].seqno < infos[j].seqno)
  {
    assert forall j :: 0 < j < |infos| ==> infos[j] == infos[1..][j - 1];
  }

  lemma {:induction false} NoneOfKind(infos: seq<AofInfo>, k: FileType)
    ensures OfKind(infos, k) == [] <==> forall i :: 0 <= i < |infos| ==> infos[i].kind != k
  {
    if infos != [] {
      NoneOfKind(infos[1..], k);
      assert forall j :: 0 < j < |infos| ==> infos[j] == infos[1..][j - 1];
    }
  }

  lemma AddEntry(m: Manifest, ai: AofInfo)
    requires Numbered(ai)
    ensures AddFields(m, Fields(Some(ai.name), ai.seqno, Code(ai.kind)))
         == if FitsAfter(m, [ai]) then Loaded(Merged(m, [ai])) else Malformed
  {
    assert forall k :: OfKind([ai], k) == if ai.kind == k then [ai] else [];
    if ai.kind == Base || ai.kind == Incr {
      assert [ai][0] == ai;
      assert m.history + [] == m.history && m.incr + [] == m.incr;
    }
  }

  /** Reading entries behind `m`: all of them, sorted into the lists, exactly when none clashes. */
  lemma {:induction false} AbsorbIff(m: Manifest, infos: seq<AofInfo>)
    requires forall i :: 0 <= i < |infos| ==> Numbered(infos[i]) && Loadable(infos[i])
    ensures Absorb(m, infos)
         == if Consistent(infos) && FitsAfter(m, infos) then Loaded(Merged(m, infos)) else Malformed
    decreases infos
  {
    hide Parsed, Loadable, AddFields, Consistent, FitsAfter, Merged;
    if infos == [] {
      AbsorbNone(m);
    } else {
      ParsedIs(infos[0]);
      AddEntry(m, infos[0]);
      FitsFirst(m, infos);
      if FitsAfter(m, [infos[0]]) {
        AbsorbIff(Merged(m, [infos[0]]), infos[1..]);
      }
      if Consistent(infos) && FitsAfter(m, infos) {
        MergedFirst(m, infos);
      }
    }
  }

  lemma AbsorbNone(m: Manifest)
    ensures Consistent([]) && FitsAfter(m, []) && Merged(m, []) == m
  {
  }

  lemma FitsFirst(m: Manifest, infos: seq<AofInfo>)
    requires infos != []
    ensures Consistent(infos) && FitsAfter(m, infos) <==>
              && FitsAfter(m, [infos[0]]) && Consistent(infos[1..]) && FitsAfter(Merged(m, [infos[0]]), infos[1..])
  {
    ConsistentFirst(infos);
    hide Consistent;
    var ai := infos[0];
    assert forall k :: OfKind([ai], k) == if ai.kind == k then [ai] else [];
    assert [ai][0] == ai;
    assert forall j :: 0 < j < |infos| ==> infos[j] == infos[1..][j - 1];
  }

  lemma MergedFirst(m: Manifest, infos: seq<AofInfo>)
    requires infos != [] && FitsAfter(m, [infos[0]]) && FitsAfter(Merged(m, [infos[0]]), infos[1..])
    ensures Merged(Merged(m, [infos[0]]), infos[1..]) == Merged(m, infos)
  {
    hide OfKind;
    OfKindFirst(infos, Base);
    OfKindFirst(infos, History);
    OfKindFirst(infos, Incr);
    var one, more := [infos[0]], infos[1..];
    NoneOfKind(more, Base);
    assert OfKind(one, Base) == [] || OfKind(more, Base) == [];
    Regroup(m.history, OfKind(one, History), OfKind(more, History));
    Regroup(m.incr, OfKind(one, Incr), OfKind(more, Incr));
  }

  lemma OfKindFirst(infos: seq<AofInfo>, k: FileType)
    requires infos != []
    ensures OfKind([infos[0]], k) == if infos[0].kind == k then [infos[0]] else []
    ensures OfKind(infos, k) == OfKind([infos[0]], k) + OfKind(infos[1..], k)
  {
    assert OfKind([infos[0]][1..], k) == [];
  }

  lemma Regroup(a: seq<AofInfo>, b: seq<AofInfo>, c: seq<AofInfo>)
    ensures a + b + c == a + (b + c)
  {
  }

  /** Any list of entries that can be read back one by one: their lines load, each entry in its list and in
      order, if and only if there is one BASE at most and every INCR number exceeds those before it. */
  lemma LinesLoad(infos: seq<AofInfo>)
    requires infos != [] && forall i :: 0 <= i < |infos| ==> Numbered(infos[i]) && Loadable(infos[i])
    ensures LoadLines(LinesText(infos), EMPTY, 0)
         == if Consistent(infos) then Loaded(Merged(EMPTY, infos)) else Malformed
  {
    hide LoadLines, LinesText, Loadable, Absorb, Merged, Consistent;
    LoadIsAbsorb(infos, EMPTY, 0);
    AbsorbIff(EMPTY, infos);
  }

  // ---------------------------------------------------------------- lines no server writes

  /** A comment line adds nothing. */
  lemma CommentSkipped(c: bytes, text: bytes, m: Manifest, n: nat)
    requires LF !in c && |c| < MAX_LINE - 1
    ensures LoadLines([35] + c + [LF] + text, m, n) == LoadLines(text, m, n + 1)
  {
    hide LoadLines;
    var s := [35] + c + [LF] + text;
    Resp.LineLengthOf([35] + c, text, MAX_LINE);
    assert s[..|c| + 2] == [35] + c + [LF] && s[|c| + 2..] == text;
    LoadStep(s, m, n, |c| + 2);
  }

  lemma LoadStep(text: bytes, m: Manifest, linenum: nat, n: nat)
    requires text != [] && Resp.LineLength(text, MAX_LINE) == n
    ensures LoadLines(text, m, linenum)
         == var r := AddLine(m, text[..n]); if r.Loaded? then LoadLines(text[n..], r.m, linenum + 1) else r
  {
    hide AddLine, Resp.LineLength;
  }

  /** An entry's line with the text `x` behind its three fields. */
  function LongerLine(ai: AofInfo, x: bytes): bytes {
    LineBody(ai) + ([SPACE] + x)
  }

  lemma SplitLongerTail(ai: AofInfo, x: bytes)
    requires ai.seqno >= 1 && SplitArgs(x).Some?
    ensures SplitArgs(Tail(ai) + ([SPACE] + x))
         == Some([SEQ, Digits(ai.seqno), TYPE, [Code(ai.kind)]] + SplitArgs(x).value)
  {
    hide SplitArgs, Digits;
    var c, d, w := [Code(ai.kind)], Digits(ai.seqno), SplitArgs(x).value;
    DigitsArePlain(ai.seqno);
    SplitWord(c, x);
    var s1 := c + ([SPACE] + x);
    SplitWord(TYPE, s1);
    var s2 := TYPE + ([SPACE] + s1);
    SplitWord(d, s2);
    var s3 := d + ([SPACE] + s2);
    SplitWord(SEQ, s3);
    assert Tail(ai) + ([SPACE] + x) == SEQ + ([SPACE] + s3);
    assert [SEQ] + ([d] + ([TYPE] + ([c] + w))) == [SEQ, d, TYPE, c] + w;
  }

  lemma SplitLongerLine(ai: AofInfo, x: bytes)
    requires Numbered(ai) && GoodName(ai.name) && SplitArgs(x).Some?
    ensures SplitArgs(LongerLine(ai, x))
         == Some([FILE, ai.name, SEQ, Digits(ai.seqno), TYPE, [Code(ai.kind)]] + SplitArgs(x).value)
  {
    hide SplitArgs, NameText, Tail, Digits;
    var d, c, w := Digits(ai.seqno), [Code(ai.kind)], SplitArgs(x).value;
    SplitLongerTail(ai, x);
    var t := Tail(ai) + ([SPACE] + x);
    SplitName(ai.name, t);
    SplitWord(FILE, NameText(ai.name) + ([SPACE] + t));
    assert LongerLine(ai, x) == FILE + ([SPACE] + (NameText(ai.name) + ([SPACE] + t)));
    assert [FILE] + ([ai.name] + ([SEQ, d, TYPE, c] + w)) == [FILE, ai.name, SEQ, d, TYPE, c] + w;
  }

  /** Keys this version does not know, each with a value. */
  predicate UnknownPairs(argv: seq<bytes>) {
    |argv| < 2 || (LowerBytes(UntilNul(argv[0])) !in {FILE, SEQ, TYPE} && UnknownPairs(argv[2..]))
  }

  lemma {:induction false} ReadUnknown(argv: seq<bytes>, f: Fields)
    requires UnknownPairs(argv)
    ensures ReadPairs(argv, f) == Some(f)
    decreases |argv|
  {
    if |argv| >= 2 {
      hide LowerBytes, UntilNul;
      ReadUnknown(argv[2..], f);
    }
  }

  lemma {:induction false} ReadPairsConcat(a: seq<bytes>, b: seq<bytes>, f: Fields)
    requires |a| % 2 == 0
    ensures ReadPairs(a + b, f) == var r := ReadPairs(a, f); if r.None? then None else ReadPairs(b, r.value)
    decreases |a|
  {
    hide LowerBytes, UntilNul, IsFileName, ParseInt;
    if a == [] {
      assert a + b == b;
    } else {
      assert (a + b)[2..] == a[2..] + b && (a + b)[0] == a[0] && (a + b)[1] == a[1];
      var key, value := LowerBytes(UntilNul(a[0])), a[1];
      var g := if key == FILE then f.(name := Some(UntilNul(value)))
               else if key == SEQ then f.(seqno := ParseInt(value))
               else if key == TYPE then f.(code := if value == [] then 0 else value[0]) else f;
      ReadPairsConcat(a[2..], b, g);
    }
  }

  /** Forward compatibility: behind an entry's fields, pairs with unknown keys are ignored and a key without
      its value is refused. */
  lemma ExtraFields(m: Manifest, ai: AofInfo, x: bytes)
    requires Numbered(ai) && GoodName(ai.name)
    requires Inline(x) && x != [] && !Trimmed(x[|x| - 1]) && SplitArgs(x).Some? && UnknownPairs(SplitArgs(x).value)
    ensures AddLine(m, LongerLine(ai, x) + [LF])
         == if |SplitArgs(x).value| % 2 == 1 then Malformed
            else AddFields(m, Fields(Some(ai.name), ai.seqno, Code(ai.kind)))
  {
    hide SplitArgs, LineBody, ReadPairs, AddFields, UnknownPairs, Digits, GoodName, AddLine;
    var w := SplitArgs(x).value;
    AddWholeLine(m, ai, x);
    SplitLongerLine(ai, x);
    var argv := [FILE, ai.name, SEQ, Digits(ai.seqno), TYPE, [Code(ai.kind)]];
    PairsOf(ai.name, ai);
    GoodParts(ai.name);
    ReadPairsConcat(argv, w, Fields(None, 0, 0));
    ReadUnknown(w, Fields(Some(ai.name), ai.seqno, Code(ai.kind)));
  }

  lemma GoodParts(name: bytes)
    requires GoodName(name)
    ensures UntilNul(name) == name && IsFileName(name)
  {
    UntilNulIs(name);
  }

  lemma AddWholeLine(m: Manifest, ai: AofInfo, x: bytes)
    requires Inline(x) && x != [] && !Trimmed(x[|x| - 1])
    ensures AddLine(m, LongerLine(ai, x) + [LF])
         == var f := ReadFields(LongerLine(ai, x)); if f.None? then Malformed else AddFields(m, f.value)
  {
    hide LineBody, ReadFields, AddFields;
    LineInline(ai);
    var b := LongerLine(ai, x);
    var s := b + [LF];
    UntilNulIs(s);
    assert s[0] == LineBody(ai)[0] && s[|s| - 1] == LF;
    assert TrimLeft(s) == s;
    assert s[..|s| - 1] == b && b[|b| - 1] == x[|x| - 1];
    assert TrimRight(s) == TrimRight(b);
    assert TrimRight(b) == b;
  }

  /** The same letters, in lower or upper case. */
  predicate SameLetters(k: bytes, key: bytes) {
    |k| == |key| && forall i :: 0 <= i < |k| ==> k[i] == key[i] || k[i] as int == key[i] as int - 32
  }

  predicate IsKey(key: bytes) {
    key in {FILE, SEQ, TYPE}
  }

  /** An entry's line as a person may write it: blanks in front, keys in any case, any letter for the type. */
  function HandBody(keys: (bytes, bytes, bytes), name: bytes, n: nat, c: byte): bytes {
    keys.0 + ([SPACE] + (NameText(name) + ([SPACE] + (keys.1 + ([SPACE] + (Digits(n) + ([SPACE] +
    (keys.2 + ([SPACE] + [c])))))))))
  }

  lemma KeyIs(k: bytes, key: bytes)
    requires IsKey(key) && SameLetters(k, key)
    ensures LowerBytes(UntilNul(k)) == key && PlainWord(k) && k != [] && !IsSpace(k[0]) && Inline(k)
    ensures k[0] != 35 && !Trimmed(k[0])
  {
    assert forall i :: 0 <= i < |key| ==> 97 <= key[i] <= 122;
    UntilNulIs(k);
  }

  predicate TypeLetter(c: byte) {
    PlainChar(c) && !IsSpace(c) && !Trimmed(c) && c != 0
  }

  lemma SplitHandBody(keys: (bytes, bytes, bytes), name: bytes, n: nat, c: byte)
    requires SameLetters(keys.0, FILE) && SameLetters(keys.1, SEQ) && SameLetters(keys.2, TYPE)
    requires GoodName(name) && TypeLetter(c)
    ensures SplitArgs(HandBody(keys, name, n, c)) == Some([keys.0, name, keys.1, Digits(n), keys.2, [c]])
  {
    hide SplitArgs, Digits, NameText, PlainWord, Inline, SameLetters;
    KeyIs(keys.0, FILE);
    KeyIs(keys.1, SEQ);
    KeyIs(keys.2, TYPE);
    var d := Digits(n);
    DigitsFirst(n);
    LetterIsWord(c);
    SplitLastWord([c]);
    var s1: bytes := keys.2 + ([SPACE] + [c]);
    SplitWord(keys.2, [c]);
    var s2: bytes := d + ([SPACE] + s1);
    SplitWord(d, s1);
    var s3: bytes := keys.1 + ([SPACE] + s2);
    SplitWord(keys.1, s2);
    SplitName(name, s3);
    SplitWord(keys.0, NameText(name) + ([SPACE] + s3));
    assert [keys.0] + ([name] + ([keys.1] + ([d] + ([keys.2] + [[c]])))) == [keys.0, name, keys.1, d, keys.2, [c]];
  }

  lemma DigitsFirst(n: nat)
    ensures Digits(n) != [] && !IsSpace(Digits(n)[0]) && PlainWord(Digits(n)) && Inline(Digits(n))
  {
    DigitsArePlain(n);
    assert PlainChar(Digits(n)[0]);
  }

  lemma LetterIsWord(c: byte)
    requires TypeLetter(c)
    ensures PlainWord([c])
  {
  }

  lemma PairsOfHand(keys: (bytes, bytes, bytes), name: bytes, n: nat, c: byte)
    requires SameLetters(keys.0, FILE) && SameLetters(keys.1, SEQ) && SameLetters(keys.2, TYPE) && GoodName(name)
    ensures ReadPairs([keys.0, name, keys.1, Digits(n), keys.2, [c]], Fields(None, 0, 0))
         == Some(Fields(Some(name), n, c))
  {
    hide Digits, ParseInt, UntilNul, LowerBytes, SameLetters, Inline, PlainWord, GoodName;
    KeyIs(keys.0, FILE);
    KeyIs(keys.1, SEQ);
    KeyIs(keys.2, TYPE);
    GoodParts(name);
    var d := Digits(n);
    ParseIntOfDigits(n, []);
    assert d + [] == d;
    var argv: seq<bytes> := [keys.0, name, keys.1, d, keys.2, [c]];
    assert argv[2..] == [keys.1, d, keys.2, [c]];
    assert argv[2..][2..] == [keys.2, [c]];
    assert |argv[2..][2..][2..]| == 0;
    var f1 := Fields(Some(name), 0, 0);
    assert ReadPairs(argv, Fields(None, 0, 0)) == ReadPairs(argv[2..], f1);
    var f2 := f1.(seqno := n);
    assert ReadPairs(argv[2..], f1) == ReadPairs(argv[2..][2..], f2);
    assert ReadPairs(argv[2..][2..], f2) == ReadPairs(argv[2..][2..][2..], f2.(code := c));
  }

  predicate Blanks(w: bytes) {
    forall i :: 0 <= i < |w| ==> Trimmed(w[i]) && w[i] != LF
  }

  lemma {:induction false} TrimBlanks(w: bytes, t: bytes)
    requires Blanks(w) && t != [] && !Trimmed(t[0])
    ensures TrimLeft(w + t) == t
  {
    if w == [] {
      assert w + t == t;
    } else {
      assert (w + t)[1..] == w[1..] + t;
      TrimBlanks(w[1..], t);
    }
  }

  /** What a line with blanks around its text `t` adds is what the text says. */
  lemma AddBlankLine(m: Manifest, w: bytes, t: bytes)
    requires Blanks(w) && Inline(t) && t != [] && !Trimmed(t[0]) && t[0] != 35 && !Trimmed(t[|t| - 1])
    ensures AddLine(m, w + (t + [LF])) == var f := ReadFields(t); if f.None? then Malformed else AddFields(m, f.value)
  {
    hide ReadFields, AddFields;
    var s := w + (t + [LF]);
    UntilNulIs(s);
    assert s[|s| - 1] == LF;
    assert s[0] != 35 by {
      if w == [] { assert s == t + [LF]; } else { assert s[0] == w[0]; }
    }
    TrimBlanks(w, t + [LF]);
    assert (t + [LF])[..|t|] == t;
    assert TrimRight(t + [LF]) == TrimRight(t);
    assert TrimRight(t) == t;
  }

  lemma HandBodyShape(keys: (bytes, bytes, bytes), name: bytes, n: nat, c: byte)
    requires SameLetters(keys.0, FILE) && SameLetters(keys.1, SEQ) && SameLetters(keys.2, TYPE) && TypeLetter(c)
    ensures var t := HandBody(keys, name, n, c);
            Inline(t) && t != [] && t[0] == keys.0[0] && !Trimmed(t[0]) && t[0] != 35 && t[|t| - 1] == c
  {
    hide Digits, NameText, SameLetters, LowerBytes, UntilNul, PlainWord;
    KeyIs(keys.0, FILE);
    KeyIs(keys.1, SEQ);
    KeyIs(keys.2, TYPE);
    NameInline(name);
    DigitsFirst(n);
    assert Inline([c]) && Inline([SPACE]);
    var s1 := keys.2 + ([SPACE] + [c]);
    assert Inline(s1);
    var s2 := Digits(n) + ([SPACE] + s1);
    assert Inline(s2);
    var s3 := keys.1 + ([SPACE] + s2);
    assert Inline(s3);
    var s4 := NameText(name) + ([SPACE] + s3);
    assert Inline(s4);
    assert HandBody(keys, name, n, c) == keys.0 + ([SPACE] + s4);
  }

  /** A line written by hand adds its entry: blanks in front and the case of the keys do not matter, a number of zero
      or a type that is no BASE, HISTORY or INCR is refused. */
  lemma HandWrittenLine(m: Manifest, w: bytes, keys: (bytes, bytes, bytes), name: bytes, n: nat, c: byte)
    requires Blanks(w) && SameLetters(keys.0, FILE) && SameLetters(keys.1, SEQ) && SameLetters(keys.2, TYPE)
    requires GoodName(name) && TypeLetter(c)
    ensures var r := AddLine(m, w + (HandBody(keys, name, n, c) + [LF]));
            && (n > 0 ==> forall k :: c == Code(k) ==> r == AddFields(m, Fields(Some(name), n, Code(k))))
            && (n == 0 || (forall k :: c != Code(k)) ==> r == Malformed)
  {
    hide HandBody, SplitArgs, ReadPairs, AddLine, Digits, SameLetters, Blanks, GoodName;
    var t := HandBody(keys, name, n, c);
    HandBodyShape(keys, name, n, c);
    AddBlankLine(m, w, t);
    SplitHandBody(keys, name, n, c);
    PairsOfHand(keys, name, n, c);
    assert Code(Base) == 98 && Code(History) == 104 && Code(Incr) == 105;
  }

  lemma {:induction false} AbsorbHistory(m: Manifest, h: seq<AofInfo>)
    requires forall i :: 0 <= i < |h| ==> h[i].kind == History && Numbered(h[i]) && Loadable(h[i])
    ensures Absorb(m, h) == Loaded(m.(history := m.history + h))
    decreases h
  {
    hide Parsed, Loadable;
    if h == [] {
      assert m.history + h == m.history;
    } else {
      ParsedIs(h[0]);
      AbsorbHistory(m.(history := m.history + [h[0]]), h[1..]);
      assert m.history + [h[0]] + h[1..] == m.history + h;
    }
  }

  lemma {:induction false} AbsorbIncr(m: Manifest, incr: seq<AofInfo>)
    requires forall i :: 0 <= i < |incr| ==> incr[i].kind == Incr && Numbered(incr[i]) && Loadable(incr[i])
    requires forall i, j :: 0 <= i < j < |incr| ==> incr[i].seqno < incr[j].seqno
    requires incr != [] ==> m.incrSeq < incr[0].seqno
    ensures Absorb(m, incr)
         == Loaded(m.(incr := m.incr + incr, incrSeq := if incr == [] then m.incrSeq else incr[|incr| - 1].seqno))
    decreases incr
  {
    hide Parsed, Loadable;
    if incr == [] {
      assert m.incr + incr == m.incr;
    } else {
      ParsedIs(incr[0]);
      AbsorbIncr(m.(incr := m.incr + [incr[0]], incrSeq := incr[0].seqno), incr[1..]);
      assert m.incr + [incr[0]] + incr[1..] == m.incr + incr;
    }
  }

  lemma AbsorbManifest(m: Manifest)
    requires WellKept(m) && forall i :: 0 <= i < |Infos(m)| ==> Loadable(Infos(m)[i])
    ensures Absorb(EMPTY, Infos(m)) == Loaded(Reloaded(m))
  {
    hide Parsed, Loadable, Numbered, Absorb, AddFields;
    LoadableParts(m);
    AbsorbFront(m);
    var front := (if m.base.Some? then [m.base.value] else []) + m.history;
    AbsorbLast(front, EMPTY.(base := m.base, baseSeq := Reloaded(m).baseSeq, history := m.history), m.incr);
  }

  lemma AbsorbLast(front: seq<AofInfo>, m: Manifest, incr: seq<AofInfo>)
    requires forall i :: 0 <= i < |incr| ==> incr[i].kind == Incr && Numbered(incr[i]) && Loadable(incr[i])
    requires forall i, j :: 0 <= i < j < |incr| ==> incr[i].seqno < incr[j].seqno
    requires Absorb(EMPTY, front) == Loaded(m) && m.incr == [] && m.incrSeq == 0
    ensures Absorb(EMPTY, front + incr)
         == Loaded(m.(incr := incr, incrSeq := if incr == [] then 0 else incr[|incr| - 1].seqno))
  {
    hide Parsed, Loadable, Numbered, Absorb, AddFields;
    AbsorbConcat(EMPTY, front, incr);
    if incr != [] { NamedIs(incr[0]); }
    AbsorbIncr(m, incr);
    assert [] + incr == incr;
  }

  lemma AbsorbFront(m: Manifest)
    requires m.base.Some? ==> m.base.value.kind == Base && Numbered(m.base.value) && Loadable(m.base.value)
    requires forall i :: 0 <= i < |m.history| ==>
              m.history[i].kind == History && Numbered(m.history[i]) && Loadable(m.history[i])
    ensures Absorb(EMPTY, (if m.base.Some? then [m.base.value] else []) + m.history)
         == Loaded(EMPTY.(base := m.base, baseSeq := Reloaded(m).baseSeq, history := m.history))
  {
    hide Parsed, Loadable, Numbered, Absorb, AddFields;
    AbsorbHead(m);
    AbsorbConcat(EMPTY, if m.base.Some? then [m.base.value] else [], m.history);
    AbsorbHistory(EMPTY.(base := m.base, baseSeq := Reloaded(m).baseSeq), m.history);
    assert [] + m.history == m.history;
  }

  lemma LoadableParts(m: Manifest)
    requires forall i :: 0 <= i < |Infos(m)| ==> Loadable(Infos(m)[i])
    ensures m.base.Some? ==> Loadable(m.base.value)
    ensures forall i :: 0 <= i < |m.history| ==> Loadable(m.history[i])
    ensures forall i :: 0 <= i < |m.incr| ==> Loadable(m.incr[i])
  {
    hide Loadable;
    var k := if m.base.Some? then 1 else 0;
    var all := Infos(m);
    assert m.base.Some? ==> all[0] == m.base.value;
    forall i | 0 <= i < |m.history| ensures Loadable(m.history[i]) {
      assert all[k + i] == m.history[i];
    }
    forall i | 0 <= i < |m.incr| ensures Loadable(m.incr[i]) {
      assert all[k + |m.history| + i] == m.incr[i];
    }
  }

  lemma NamedIs(ai: AofInfo)
    requires Numbered(ai)
    ensures ai.seqno >= 1
  {
  }

  lemma AbsorbHead(m: Manifest)
    requires m.base.Some? ==> m.base.value.kind == Base && Numbered(m.base.value) && Loadable(m.base.value)
    ensures Absorb(EMPTY, if m.base.Some? then [m.base.value] else [])
              == Loaded(EMPTY.(base := m.base, baseSeq := Reloaded(m).baseSeq))
  {
    hide Parsed, Loadable;
    if m.base.Some? {
      ParsedIs(m.base.value);
      assert [m.base.value][1..] == [];
    }
  }

  /** The order BASE, HISTORY, INCR, as kinds. */
  ghost predicate Ordered(m: Manifest, infos: seq<AofInfo>) {
    && (forall i :: 0 <= i < |infos| ==> Numbered(infos[i]))
    && (forall i :: 0 <= i < |infos| && infos[i].kind == Base ==> i == 0 && m.history == [] && m.incr == [])
    && (forall i :: 0 <= i < |infos| && infos[i].kind == History ==> m.incr == [])
    && (forall i, j :: 0 <= i < j < |infos| && infos[i].kind == Incr ==> infos[j].kind == Incr)
  }

  /** Whatever is loaded lists the lines in order, each with the name it was read with. */
  lemma {:induction false} AbsorbLists(m: Manifest, infos: seq<AofInfo>, i: nat)
    requires Ordered(m, infos) && i < |infos|
    requires Absorb(m, infos).Loaded?
    ensures Parsed(infos[i]).Some?
    ensures var r := Infos(Absorb(m, infos).m);
            && |r| == |Infos(m)| + |infos|
            && (forall k :: 0 <= k < |Infos(m)| ==> r[k] == Infos(m)[k])
            && Parsed(infos[i]).value.name == Some(r[|Infos(m)| + i].name)
    decreases infos
  {
    hide Parsed, Numbered, Loadable, Infos, AddFields;
    var m' := AbsorbOne(m, infos);
    if |infos| > 1 {
      AbsorbLists(m', infos[1..], if i == 0 then 0 else i - 1);
    }
  }

  /** The first line is read, and listed last so far. */
  lemma AbsorbOne(m: Manifest, infos: seq<AofInfo>) returns (m': Manifest)
    requires Ordered(m, infos) && infos != [] && Absorb(m, infos).Loaded?
    ensures Absorb(m, infos) == Absorb(m', infos[1..]) && Ordered(m', infos[1..])
    ensures |infos| == 1 ==> Absorb(m, infos) == Loaded(m')
    ensures Parsed(infos[0]).Some? && Parsed(infos[0]).value.name.Some?
    ensures Infos(m') == Infos(m) + [AofInfo(Parsed(infos[0]).value.name.value, infos[0].seqno, infos[0].kind)]
  {
    hide Parsed, Numbered, Loadable, AddFields, Ordered, Infos;
    assert Numbered(infos[0]) by { OrderedNames(m, infos); }
    ParsedIs(infos[0]);
    var f := Parsed(infos[0]).value;
    m' := AddFields(m, f).m;
    AddedFields(m, infos, f);
    if |infos| == 1 {
      assert infos[1..] == [];
    }
  }

  lemma OrderedNames(m: Manifest, infos: seq<AofInfo>)
    requires Ordered(m, infos) && infos != []
    ensures Numbered(infos[0])
  {
  }

  lemma AddedFields(m: Manifest, infos: seq<AofInfo>, f: Fields)
    requires Ordered(m, infos) && infos != [] && f.name.Some?
    requires f == Fields(f.name, infos[0].seqno, Code(infos[0].kind)) && AddFields(m, f).Loaded?
    ensures Infos(AddFields(m, f).m) == Infos(m) + [AofInfo(f.name.value, infos[0].seqno, infos[0].kind)]
    ensures Ordered(AddFields(m, f).m, infos[1..])
  {
    hide Numbered;
    var rest := infos[1..];
    assert forall i :: 0 <= i < |rest| ==> rest[i] == infos[i + 1];
  }

  /** Manifest round trip: formatting a non-empty manifest and loading the text gives back the same
      lists, with the sequence numbers they imply, if and only if every line fits the loader's
      buffer and every name is a good one: not empty, no path, no zero byte, and no single quote unless it is quoted
      for another reason. */
  lemma ManifestRoundTrip(m: Manifest)
    requires WellKept(m) && Infos(m) != []
    ensures LoadLines(LinesText(Infos(m)), EMPTY, 0) == Loaded(Reloaded(m))
            <==> forall i :: 0 <= i < |Infos(m)| ==> Loadable(Infos(m)[i])
  {
    hide LoadLines, LinesText, Loadable, Numbered, Absorb, Parsed;
    var infos := Infos(m);
    LoadIsAbsorb(infos, EMPTY, 0);
    if forall i :: 0 <= i < |infos| ==> Loadable(infos[i]) {
      AbsorbManifest(m);
    } else {
      var i :| 0 <= i < |infos| && !Loadable(infos[i]);
      if Absorb(EMPTY, infos) == Loaded(Reloaded(m)) {
        assert Ordered(EMPTY, infos);
        assert Infos(Reloaded(m)) == infos;
        AbsorbLists(EMPTY, infos, i);
        ParsedIs(infos[i]);
        assert false;
      }
    }
  }

  /** Any file name with a single quote that needs no quoting for another reason makes the manifest unreadable. */
  lemma SingleQuoteBreaksManifest(m: Manifest, i: nat)
    requires WellKept(m) && i < |Infos(m)| && !NeedsRepr(Infos(m)[i].name) && TICK in Infos(m)[i].name
    ensures LoadLines(LinesText(Infos(m)), EMPTY, 0) != Loaded(Reloaded(m))
  {
    hide LoadLines, LinesText;
    ManifestRoundTrip(m);
    assert !Loadable(Infos(m)[i]);
  }

  /** The manifest of a single BASE file called x' cannot be loaded. */
  lemma SingleQuoteWitness()
    ensures var m := Manifest(Some(AofInfo([120, 39], 1, Base)), [], [], 1, 0, false);
            WellKept(m) && LoadLines(LinesText(Infos(m)), EMPTY, 0) != Loaded(Reloaded(m))
  {
    hide LoadLines, LinesText;
    var m := Manifest(Some(AofInfo([120, 39], 1, Base)), [], [], 1, 0, false);
    assert m.base.value.name[1] == TICK;
    SingleQuoteBreaksManifest(m, 0);
  }

  /** Every manifest the server keeps has the lists the round trip asks for. */
  lemma OkIsWellKept(prefix: bytes, m: Manifest)
    requires Ok(prefix, m)
    ensures WellKept(m)
  {
    forall i | 0 <= i < |m.history| ensures m.history[i].kind == History && Numbered(m.history[i]) {
      assert HistoryEntryOk(prefix, m.history[i], m);
    }
  }
}
