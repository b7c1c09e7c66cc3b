/** The record format of the append-only file: arrays of bulk strings, as written by
    catAppendOnlyGenericCommand and as read back, with stdio semantics, by the loader. */
module Resp {
  import opened Bytes

  type Argv = seq<bytes>

  /** AOF_ANNOTATION_LINE_MAX_LEN */
  const LINE_BUFFER := 1024

  /** What the C types of argc (int) and of a string length (long) allow. */
  ghost predicate WellFormed(argv: Argv) {
    1 <= |argv| < 0x8000_0000 && forall i :: 0 <= i < |argv| ==> |argv[i]| < 0x8000_0000_0000_0000
  }

  // ---------------------------------------------------------------- writer

  function Bulk(a: bytes): bytes {
    [36] + Digits(|a|) + CRLF + a + CRLF
  }

  function Bulks(argv: Argv): bytes {
    if argv == [] then [] else Bulk(argv[0]) + Bulks(argv[1..])
  }

  function Header(n: nat): bytes {
    [42] + Digits(n) + CRLF
  }

  function Encode(argv: Argv): bytes {
    Header(|argv|) + Bulks(argv)
  }

  function EncodeAll(cmds: seq<Argv>): bytes {
    if cmds == [] then [] else Encode(cmds[0]) + EncodeAll(cmds[1..])
  }

  lemma {:induction false} BulksConcat(a: Argv, b: Argv)
    ensures Bulks(a + b) == Bulks(a) + Bulks(b)
  {
    if a == [] {
      assert a + b == b;
    } else {
      assert (a + b)[1..] == a[1..] + b;
      BulksConcat(a[1..], b);
    }
  }

  lemma NoBulks()
    ensures Bulks([]) == []
  {
  }

  lemma BulksSnoc(argv: Argv, j: nat)
    requires j < |argv|
    ensures Bulks(argv[..j + 1]) == Bulks(argv[..j]) + Bulk(argv[j])
  {
    assert argv[..j + 1] == argv[..j] + [argv[j]];
    BulksConcat(argv[..j], [argv[j]]);
    assert Bulks([argv[j]]) == Bulk(argv[j]) + Bulks([]);
  }

  /** A prefix of a concatenation ends in the first part or takes it whole. */
  lemma CutConcat(a: bytes, b: bytes, n: nat)
    requires n <= |a| + |b|
    ensures (a + b)[..n] == if n < |a| then a[..n] else a + b[..n - |a|]
  {
  }

  lemma {:induction false} EncodeAllConcat(a: seq<Argv>, b: seq<Argv>)
    ensures EncodeAll(a + b) == EncodeAll(a) + EncodeAll(b)
  {
    if a == [] {
      assert a + b == b;
    } else {
      assert (a + b)[1..] == a[1..] + b;
      EncodeAllConcat(a[1..], b);
    }
  }

  /** catAppendOnlyGenericCommand: appends the encoding of one command to `dst`. */
  method CatGenericCommand(dst: bytes, argv: Argv) returns (r: bytes)
    ensures r == dst + Encode(argv)
  {
    hide Bulks, Header;
    r := dst + Header(|argv|);
    NoBulks();
    for j := 0 to |argv|
      invariant r == dst + Header(|argv|) + Bulks(argv[..j])
    {
      BulksSnoc(argv, j);
      r := r + ([36] + Digits(|argv[j]|) + CRLF + argv[j] + CRLF);
    }
    assert argv[..|argv|] == argv;
  }

  // ---------------------------------------------------------------- reader

  /** Length of the line fgets() returns when at most `k` bytes fit. */
  function LineLength(s: bytes, k: nat): (n: nat)
    ensures n <= |s| && n <= k
    ensures s != [] && k > 0 ==> n > 0
  {
    if k == 0 || s == [] then 0
    else if s[0] == LF then 1
    else 1 + LineLength(s[1..], k - 1)
  }

  /** fgets(buf, LINE_BUFFER, fp) on the unread bytes `s`; empty means NULL at end of file. */
  function Line(s: bytes): bytes {
    s[..LineLength(s, LINE_BUFFER - 1)]
  }

  function AfterLine(s: bytes): bytes {
    s[LineLength(s, LINE_BUFFER - 1)..]
  }

  /** feof() right after fgets(): the line ended neither at a newline nor at a full buffer. */
  predicate HitEof(s: bytes) {
    var l := Line(s);
    |l| < LINE_BUFFER - 1 && (l == [] || l[|l| - 1] != LF)
  }

  datatype ArgResult = Arg(arg: bytes, rest: bytes) | ArgShort | ArgFormat | ArgOutOfMemory

  /** One "$<len>\r\n<data>\r\n" element. The two bytes after the data are skipped unchecked. */
  function ReadArg(s: bytes): (r: ArgResult)
    ensures r.Arg? ==> |r.rest| < |s|
  {
    var line := Line(s);
    var rest := AfterLine(s);
    if line == [] then ArgShort
    else if line[0] != 36 then ArgFormat
    else
      var len := ParseInt(line[1..]);
      if len < 0 then ArgOutOfMemory
      else if |rest| < len then ArgShort
      else if |rest| < len + 2 then ArgShort
      else Arg(rest[..len], rest[len + 2..])
  }

  datatype ArgsResult = Args(argv: Argv, rest: bytes) | ArgsShort | ArgsFormat | ArgsOutOfMemory

  function ReadArgs(s: bytes, n: nat): (r: ArgsResult)
    ensures r.Args? ==> |r.rest| <= |s| && |r.argv| == n
    decreases n
  {
    if n == 0 then Args([], s) else
      match ReadArg(s)
      case ArgShort => ArgsShort
      case ArgFormat => ArgsFormat
      case ArgOutOfMemory => ArgsOutOfMemory
      case Arg(a, rest) => Push(a, ReadArgs(rest, n - 1))
  }

  function Push(a: bytes, r: ArgsResult): ArgsResult {
    if r.Args? then Args([a] + r.argv, r.rest) else r
  }

  datatype ParseResult =
    | Command(argv: Argv, rest: bytes)
    | Annotation(rest: bytes)
    | Eof            // clean end of file between commands
    | ShortRead      // read error with feof(): unexpected end of file
    | ReadFailed     // read error without feof()
    | BadFormat
    | OutOfMemory    // negative length, read as an unsigned size no allocation can meet

  /** One turn of the loader's reading loop on the unread bytes `s`. */
  function Parse(s: bytes): (r: ParseResult)
    ensures r.Command? || r.Annotation? ==> |r.rest| < |s|
  {
    var line := Line(s);
    if line == [] then Eof
    else if line[0] == 35 then Annotation(AfterLine(s))
    else if line[0] != 42 then BadFormat
    else if |line| == 1 || line[1] == 0 then
      if HitEof(s) then ShortRead else ReadFailed
    else
      var argc := ParseInt(line[1..]);
      if argc < 1 then BadFormat else
        match ReadArgs(AfterLine(s), argc)
        case ArgsShort => ShortRead
        case ArgsFormat => BadFormat
        case ArgsOutOfMemory => OutOfMemory
        case Args(argv, rest) => Command(argv, rest)
  }

  // ---------------------------------------------------------------- lines of printed numbers

  lemma {:induction false} LineLengthOf(l: bytes, rest: bytes, k: nat)
    requires LF !in l && |l| < k
    ensures LineLength(l + [LF] + rest, k) == |l| + 1
  {
    if l != [] {
      assert (l + [LF] + rest)[1..] == l[1..] + [LF] + rest;
      LineLengthOf(l[1..], rest, k - 1);
    }
  }

  lemma {:induction false} LineLengthOfCut(l: bytes, k: nat)
    requires LF !in l && |l| < k
    ensures LineLength(l, k) == |l|
  {
    if l != [] {
      LineLengthOfCut(l[1..], k - 1);
    }
  }

  ghost predicate ShortNumber(n: nat) {
    |Digits(n)| <= 20
  }

  lemma ShortNumbers(n: nat)
    requires n < 0x8000_0000_0000_0000
    ensures ShortNumber(n)
  {
    assert Pow10(5) == 100000;
    assert Pow10(10) == 10000000000;
    assert Pow10(15) == 1000000000000000;
    assert Pow10(20) == 100000000000000000000;
    DigitsLength(n, 20);
  }

  /** A number line `<tag><n>\r\n` is read whole, and whole only when its newline is there. */
  lemma NumberLine(tag: byte, n: nat, rest: bytes)
    requires tag != LF && ShortNumber(n)
    ensures Line([tag] + Digits(n) + CRLF + rest) == [tag] + Digits(n) + CRLF
    ensures AfterLine([tag] + Digits(n) + CRLF + rest) == rest
    ensures ParseInt(([tag] + Digits(n) + CRLF)[1..]) == n
  {
    var l := [tag] + Digits(n) + [CR];
    var s := [tag] + Digits(n) + CRLF + rest;
    assert s == l + [LF] + rest;
    LineLengthOf(l, rest, LINE_BUFFER - 1);
    assert s[..|l| + 1] == [tag] + Digits(n) + CRLF;
    assert s[|l| + 1..] == rest;
    assert ([tag] + Digits(n) + CRLF)[1..] == Digits(n) + CRLF;
    ParseIntOfDigits(n, CRLF);
  }

  lemma CutNumberLine(tag: byte, n: nat, k: nat)
    requires tag != LF && ShortNumber(n) && k < |Digits(n)| + 3
    ensures var s := ([tag] + Digits(n) + CRLF)[..k];
            Line(s) == s && AfterLine(s) == [] && HitEof(s)
  {
    var s := ([tag] + Digits(n) + CRLF)[..k];
    forall i | 0 <= i < |s| ensures s[i] != LF {
      if 1 <= i < 1 + |Digits(n)| {
        assert s[i] == Digits(n)[i - 1];
      }
    }
    LineLengthOfCut(s, LINE_BUFFER - 1);
  }

  // ---------------------------------------------------------------- complete records

  lemma ReadArgComplete(a: bytes, rest: bytes)
    requires |a| < 0x8000_0000_0000_0000
    ensures ReadArg(Bulk(a) + rest) == Arg(a, rest)
  {
    ShortNumbers(|a|);
    var tail := a + CRLF + rest;
    assert Bulk(a) + rest == [36] + Digits(|a|) + CRLF + tail;
    NumberLine(36, |a|, tail);
    assert tail[..|a|] == a && tail[|a| + 2..] == rest;
  }

  lemma {:induction false} ReadArgsComplete(argv: Argv, rest: bytes)
    requires forall i :: 0 <= i < |argv| ==> |argv[i]| < 0x8000_0000_0000_0000
    ensures ReadArgs(Bulks(argv) + rest, |argv|) == Args(argv, rest)
  {
    if argv == [] {
      assert Bulks(argv) + rest == rest;
    } else {
      assert Bulks(argv) + rest == Bulk(argv[0]) + (Bulks(argv[1..]) + rest);
      ReadArgComplete(argv[0], Bulks(argv[1..]) + rest);
      ReadArgsComplete(argv[1..], rest);
      assert [argv[0]] + argv[1..] == argv;
    }
  }

  /** Round trip of one command, whatever bytes its arguments hold and whatever follows it. */
  lemma ParseComplete(argv: Argv, rest: bytes)
    requires WellFormed(argv)
    ensures Parse(Encode(argv) + rest) == Command(argv, rest)
  {
    ShortNumbers(|argv|);
    var tail := Bulks(argv) + rest;
    assert Encode(argv) + rest == [42] + Digits(|argv|) + CRLF + tail;
    NumberLine(42, |argv|, tail);
    assert ([42] + Digits(|argv|) + CRLF)[1] == Digits(|argv|)[0];
    ReadArgsComplete(argv, rest);
  }

  // ---------------------------------------------------------------- records cut short

  lemma ReadArgCut(a: bytes, n: nat)
    requires |a| < 0x8000_0000_0000_0000 && n < |Bulk(a)|
    ensures ReadArg(Bulk(a)[..n]) == ArgShort
  {
    ShortNumbers(|a|);
    var h := [36] + Digits(|a|) + CRLF;
    var s := Bulk(a)[..n];
    if n < |h| {
      assert s == h[..n];
      CutNumberLine(36, |a|, n);
      if n > 0 {
        CutLengthNotNegative(|a|, n);
      }
    } else {
      var tail := (a + CRLF)[..n - |h|];
      assert s == h + tail;
      NumberLine(36, |a|, tail);
    }
  }

  lemma CutLengthNotNegative(n: nat, k: nat)
    requires 0 < k < |Digits(n)| + 3
    ensures ParseInt(([36] + Digits(n) + CRLF)[..k][1..]) >= 0
  {
    var t := ([36] + Digits(n) + CRLF)[..k][1..];
    if t != [] {
      assert t[0] == Digits(n)[0];
    }
  }

  /** How one element decides the rest of the argument loop. */
  lemma ReadArgsStep(s: bytes, n: nat)
    requires n > 0
    ensures ReadArg(s) == ArgShort ==> ReadArgs(s, n) == ArgsShort
    ensures forall a, rest :: ReadArg(s) == Arg(a, rest) ==> ReadArgs(s, n) == Push(a, ReadArgs(rest, n - 1))
  {
  }

  lemma CutInFirst(a: bytes, more: bytes, n: nat, m: nat)
    requires |a| < 0x8000_0000_0000_0000 && n < |Bulk(a)| && m > 0
    ensures ReadArgs((Bulk(a) + more)[..n], m) == ArgsShort
  {
    CutConcat(Bulk(a), more, n);
    ReadArgCut(a, n);
    ReadArgsStep(Bulk(a)[..n], m);
  }

  lemma CutAfterFirst(a: bytes, t: bytes, m: nat)
    requires |a| < 0x8000_0000_0000_0000 && m > 0 && ReadArgs(t, m - 1) == ArgsShort
    ensures ReadArgs(Bulk(a) + t, m) == ArgsShort
  {
    ReadArgComplete(a, t);
    ReadArgsStep(Bulk(a) + t, m);
  }

  lemma {:induction false} ReadArgsCut(argv: Argv, n: nat, m: nat)
    requires forall i :: 0 <= i < |argv| ==> |argv[i]| < 0x8000_0000_0000_0000
    requires n < |Bulks(argv)| && m >= |argv|
    ensures ReadArgs(Bulks(argv)[..n], m) == ArgsShort
  {
    hide Bulk, ReadArgs;
    var b, more := Bulk(argv[0]), Bulks(argv[1..]);
    if n < |b| {
      CutInFirst(argv[0], more, n, m);
    } else {
      ReadArgsCut(argv[1..], n - |b|, m - 1);
      CutConcat(b, more, n);
      CutAfterFirst(argv[0], more[..n - |b|], m);
    }
  }

  /** Any proper, non-empty prefix of a record is recognised as an unexpected end of file. */
  lemma ParseCut(argv: Argv, n: nat)
    requires WellFormed(argv) && 0 < n < |Encode(argv)|
    ensures Parse(Encode(argv)[..n]) == ShortRead
  {
    CutConcat(Header(|argv|), Bulks(argv), n);
    if n < |Header(|argv|)| {
      ParseCutHeader(argv, n);
    } else {
      ParseCutBody(argv, n - |Header(|argv|)|);
    }
  }

  lemma ParseCutHeader(argv: Argv, n: nat)
    requires WellFormed(argv) && 0 < n < |Header(|argv|)|
    ensures Parse(Header(|argv|)[..n]) == ShortRead
  {
    ShortNumbers(|argv|);
    var h := Header(|argv|);
    CutNumberLine(42, |argv|, n);
    if n > 1 {
      assert h[1] == Digits(|argv|)[0];
      assert h == [42] + (Digits(|argv|) + CRLF);
      assert h[..n][1..] == (Digits(|argv|) + CRLF)[..n - 1];
      ParseIntOfCutDigits(|argv|, CRLF, n - 1);
    }
  }

  lemma ParseCutBody(argv: Argv, n: nat)
    requires WellFormed(argv) && n < |Bulks(argv)|
    ensures Parse(Header(|argv|) + Bulks(argv)[..n]) == ShortRead
  {
    ShortNumbers(|argv|);
    NumberLine(42, |argv|, Bulks(argv)[..n]);
    assert Header(|argv|)[1] == Digits(|argv|)[0];
    ReadArgsCut(argv, n, |argv|);
  }
}
