/** What the loader does with a file that is not a prefix of a log: the format errors, the commands
    it does not know, the annotations it skips, and the cuts it may not repair. */
module AofLoadErrors {
  import opened Bytes
  import opened Resp
  import opened AofLoad

  // ---------------------------------------------------------------- records that are no records

  lemma LineStarts(s: bytes)
    requires s != []
    ensures Line(s) != [] && Line(s)[0] == s[0] && Line(s) <= s
    ensures |s| > 1 && s[0] != LF ==> |Line(s)| > 1 && Line(s)[1] == s[1]
  {
    if |s| > 1 && s[0] != LF {
      assert LineLength(s[1..], LINE_BUFFER - 2) > 0;
    }
  }

  lemma ParseJunk(s: bytes)
    requires s != [] && s[0] != 42 && s[0] != 35
    ensures Parse(s) == BadFormat
  {
    LineStarts(s);
  }

  /** `*<n>` with n below one, as atoi() reads it. */
  lemma ParseCount(s: bytes)
    requires |s| > 1 && s[0] == 42 && s[1] != 0 && ParseInt(Line(s)[1..]) < 1
    ensures Parse(s) == BadFormat
  {
    LineStarts(s);
  }

  /** A `*` whose count is a NUL byte, on a line that has its newline. */
  lemma ParseNul(l: bytes, rest: bytes)
    requires LF !in l && |l| < 1021
    ensures Parse([42, 0] + l + [LF] + rest) == ReadFailed
  {
    var s := [42, 0] + l + [LF] + rest;
    LineLengthOf([42, 0] + l, rest, LINE_BUFFER - 1);
    assert s[..|l| + 3] == [42, 0] + l + [LF];
  }

  /** Whole arguments before a broken one change nothing about how it breaks. */
  lemma {:induction false} ReadArgsThrough(argv: Argv, s: bytes, n: nat)
    requires forall i :: 0 <= i < |argv| ==> |argv[i]| < 0x8000_0000_0000_0000
    requires !ReadArgs(s, n).Args?
    ensures ReadArgs(Bulks(argv) + s, |argv| + n) == ReadArgs(s, n)
  {
    hide *;
    NoBulks();
    if argv == [] {
      assert Bulks(argv) + s == s;
    } else {
      ReadArgsThrough(argv[1..], s, n);
      ThroughFirst(argv, s, |argv| - 1 + n);
    }
  }

  lemma ThroughFirst(argv: Argv, s: bytes, n: nat)
    requires argv != [] && |argv[0]| < 0x8000_0000_0000_0000
    requires !ReadArgs(Bulks(argv[1..]) + s, n).Args?
    ensures ReadArgs(Bulks(argv) + s, n + 1) == ReadArgs(Bulks(argv[1..]) + s, n)
  {
    hide ReadArgs, Bulk;
    var more := Bulks(argv[1..]) + s;
    assert Bulks(argv) + s == Bulk(argv[0]) + more;
    ReadArgComplete(argv[0], more);
    ReadArgsStep(Bulk(argv[0]) + more, n + 1);
  }

  lemma ParseHeader(n: nat, s: bytes)
    requires 0 < n < 0x8000_0000
    ensures Parse(Header(n) + s)
         == match ReadArgs(s, n)
            case ArgsShort => ShortRead
            case ArgsFormat => BadFormat
            case ArgsOutOfMemory => OutOfMemory
            case Args(argv, rest) => Command(argv, rest)
  {
    hide ReadArgs;
    ShortNumbers(n);
    NumberLine(42, n, s);
    assert ([42] + Digits(n) + CRLF)[1] == Digits(n)[0];
  }

  /** The count and the arguments before the broken one. */
  function RecordStart(argv: Argv, n: nat): bytes {
    Header(n) + Bulks(argv)
  }

  ghost predicate FewerThan(argv: Argv, n: nat) {
    |argv| < n < 0x8000_0000 && forall i :: 0 <= i < |argv| ==> |argv[i]| < 0x8000_0000_0000_0000
  }

  lemma ParseBrokenArg(argv: Argv, n: nat, s: bytes)
    requires FewerThan(argv, n) && s != []
    ensures s[0] != 36 ==> Parse(RecordStart(argv, n) + s) == BadFormat
    ensures s[0] == 36 && ParseInt(Line(s)[1..]) < 0 ==> Parse(RecordStart(argv, n) + s) == OutOfMemory
  {
    hide Header, Bulks, Parse, Line, ParseInt;
    LineStarts(s);
    assert RecordStart(argv, n) + s == Header(n) + (Bulks(argv) + s);
    ParseHeader(n, Bulks(argv) + s);
    var r := ReadArg(s);
    if r.ArgFormat? || r.ArgOutOfMemory? {
      ReadArgsThrough(argv, s, n - |argv|);
    }
  }

  // ---------------------------------------------------------------- a load that may not truncate

  /** Every outcome of the loader that may truncate, read by one that may not. */
  function Unrepaired(o: Outcome, file: bytes): Outcome {
    if o.status == AofTruncated then Outcome(AofFailed, o.executed, file) else o
  }

  lemma {:induction false} UnrepairedFrom(s: bytes, file: bytes, p: Progress, q: Progress, cfg: Config)
    requires |s| <= |file| && Bounded(p, |file| - |s|) && Bounded(q, |file| - |s|) && p.client == q.client
    requires !(cfg.loadTruncated && cfg.truncateOk)
    ensures LoadFrom(s, file, p, cfg)
         == Unrepaired(LoadFrom(s, file, q, Config(cfg.lookup, true, true)), file)
    decreases |s|
  {
    hide Parse, RunCommand;
    var full := Config(cfg.lookup, true, true);
    match Parse(s)
    case Annotation(rest) => UnrepairedFrom(rest, file, p, q, cfg);
    case Command(argv, rest) =>
      if cfg.lookup(argv) != Unknown {
        var pos := |file| - |rest|;
        UnrepairedFrom(rest, file, Advance(p, argv, pos, cfg), Advance(q, argv, pos, full), cfg);
      }
    case _ =>
  }

  /** aof-load-truncated no, or a truncate(2) that fails: every file gives the same outcome, except that an
      unexpected end of file is a failure that leaves the file as it was. */
  lemma WithoutTruncation(file: bytes, cfg: Config)
    requires !(cfg.loadTruncated && cfg.truncateOk)
    ensures Load(file, cfg) == Unrepaired(Load(file, Config(cfg.lookup, true, true)), file)
  {
    hide LoadFrom;
    if file != [] && !(RDB_SIGNATURE <= file) {
      var p := Progress(FreshClient, 0, 0);
      UnrepairedFrom(file, file, p, p, cfg);
    }
  }

  /** Any byte prefix of a log, when the loader may not truncate: a cut inside a unit fails the load, after
      the whole units have run, and nothing is lost from the file. */
  lemma PrefixWithoutTruncation(units: seq<Unit>, n: nat, cfg: Config)
    requires LogOk(units, cfg.lookup) && n <= |Log(units)| && !(cfg.loadTruncated && cfg.truncateOk)
    ensures var whole := units[..WholeUnits(units, n)];
            Load(Log(units)[..n], cfg)
            == Outcome(if n == 0 then AofEmpty else if n == |Log(whole)| then AofOk else AofFailed,
                       Effects(whole), Log(units)[..n])
  {
    hide Log, Load, LogOk, Effects, WholeUnits, CleanCut;
    WithoutTruncation(Log(units)[..n], cfg);
    PrefixRecovery(units, n, Config(cfg.lookup, true, true));
    LeftWhole(Log(units)[..n], Config(cfg.lookup, true, true));
  }

  /** Only a truncated load changes the file. */
  lemma LeftWhole(file: bytes, cfg: Config)
    ensures Load(file, cfg).status != AofTruncated ==> Load(file, cfg).left == file
  {
    hide LoadFrom;
    if file != [] && !(RDB_SIGNATURE <= file) {
      LeftWholeFrom(file, file, Progress(FreshClient, 0, 0), cfg);
    }
  }

  lemma {:induction false} LeftWholeFrom(s: bytes, file: bytes, p: Progress, cfg: Config)
    requires |s| <= |file| && Bounded(p, |file| - |s|)
    ensures var o := LoadFrom(s, file, p, cfg); o.status != AofTruncated ==> o.left == file
    decreases |s|
  {
    hide Parse, RunCommand;
    match Parse(s)
    case Annotation(rest) => LeftWholeFrom(rest, file, p, cfg);
    case Command(argv, rest) =>
      if cfg.lookup(argv) != Unknown {
        LeftWholeFrom(rest, file, Advance(p, argv, |file| - |rest|, cfg), cfg);
      }
    case _ =>
  }

  // ---------------------------------------------------------------- errors behind whole units

  /** The file is read as a log, not as an RDB preamble; a log that has a unit starts with `*`. */
  ghost predicate ReadAsLog(units: seq<Unit>, tail: bytes) {
    tail != [] && (units == [] ==> !(RDB_SIGNATURE <= tail))
  }

  /** The loader reaches the bytes behind the whole units with exactly these units run. */
  lemma ReachTail(units: seq<Unit>, tail: bytes, lookup: Argv -> Kind) returns (p: Progress)
    requires LogOk(units, lookup) && ReadAsLog(units, tail)
    ensures Bounded(p, |Log(units)|) && p.client == Client(false, [], Effects(units))
    ensures var cfg := Config(lookup, true, true);
            Load(Log(units) + tail, cfg) == LoadFrom(tail, Log(units) + tail, p, cfg)
  {
    hide LoadFrom, EncodeAll, Unit.Ok;
    if units == [] {
      EncodeAllEmpty();
      assert Log(units) + tail == tail;
      p := Progress(FreshClient, 0, 0);
    } else {
      EncodeAllNotEmpty(CommandsOf(units));
      p := LoadWholeUnits(units, tail, Config(lookup, true, true));
    }
  }

  /** A loader that may truncate and one that may not agree on any outcome but a truncation. */
  lemma SameOutcome(file: bytes, o: Outcome, cfg: Config)
    requires o.status != AofTruncated && Load(file, Config(cfg.lookup, true, true)) == o
    ensures Load(file, cfg) == o
  {
    hide Load;
    if cfg.loadTruncated && cfg.truncateOk {
      assert cfg == Config(cfg.lookup, true, true);
    } else {
      WithoutTruncation(file, cfg);
    }
  }

  lemma Refused(units: seq<Unit>, tail: bytes, cfg: Config)
    requires LogOk(units, cfg.lookup) && ReadAsLog(units, tail)
    requires
      var r := Parse(tail);
      r.BadFormat? || r.ReadFailed? || r.OutOfMemory? || (r.Command? && cfg.lookup(r.argv) == Unknown)
    ensures var st := if Parse(tail).OutOfMemory? then Aborted else AofFailed;
            Load(Log(units) + tail, cfg) == Outcome(st, Effects(units), Log(units) + tail)
  {
    hide Log, Load, LogOk, Effects, Parse, ReadAsLog;
    var p := ReachTail(units, tail, cfg.lookup);
    var st := if Parse(tail).OutOfMemory? then Aborted else AofFailed;
    SameOutcome(Log(units) + tail, Outcome(st, Effects(units), Log(units) + tail), cfg);
  }

  /** Bytes that start neither a record nor an annotation fail the load, wherever they stand. */
  lemma JunkFails(units: seq<Unit>, junk: bytes, cfg: Config)
    requires LogOk(units, cfg.lookup) && ReadAsLog(units, junk)
    requires junk[0] != 42 && junk[0] != 35
    ensures Load(Log(units) + junk, cfg) == Outcome(AofFailed, Effects(units), Log(units) + junk)
  {
    hide Log, Load, LogOk, Effects, Parse;
    ParseJunk(junk);
    Refused(units, junk, cfg);
  }

  /** So does an argument count below one. */
  lemma CountBelowOneFails(units: seq<Unit>, tail: bytes, cfg: Config)
    requires LogOk(units, cfg.lookup) && |tail| > 1 && tail[0] == 42 && tail[1] != 0
    requires ParseInt(Line(tail)[1..]) < 1
    ensures Load(Log(units) + tail, cfg) == Outcome(AofFailed, Effects(units), Log(units) + tail)
  {
    hide Log, Load, LogOk, Effects, Parse, Line, ParseInt;
    ParseCount(tail);
    NotRdb(tail);
    Refused(units, tail, cfg);
  }

  /** A count that is a NUL byte is a read error, not an end of file, when its line is whole. */
  lemma NulCountFails(units: seq<Unit>, l: bytes, rest: bytes, cfg: Config)
    requires LogOk(units, cfg.lookup) && LF !in l && |l| < 1021
    ensures var tail := [42, 0] + l + [LF] + rest;
            Load(Log(units) + tail, cfg) == Outcome(AofFailed, Effects(units), Log(units) + tail)
  {
    hide Log, Load, LogOk, Effects, Parse;
    var tail := [42, 0] + l + [LF] + rest;
    ParseNul(l, rest);
    NotRdb(tail);
    Refused(units, tail, cfg);
  }

  /** A record with any number of good arguments and then one that does not start with `$` fails the load;
      one of negative length is an allocation no memory can meet. */
  lemma BrokenArgumentFails(units: seq<Unit>, argv: Argv, n: nat, s: bytes, cfg: Config)
    requires LogOk(units, cfg.lookup) && FewerThan(argv, n) && s != []
    ensures var file := Log(units) + (RecordStart(argv, n) + s);
            && (s[0] != 36 ==> Load(file, cfg) == Outcome(AofFailed, Effects(units), file))
            && (s[0] == 36 && ParseInt(Line(s)[1..]) < 0 ==> Load(file, cfg) == Outcome(Aborted, Effects(units), file))
  {
    hide Log, Load, LogOk, Effects, Parse, Line, ParseInt, FewerThan, Digits, Bulks;
    LineStarts(s);
    ParseBrokenArg(argv, n, s);
    var tail := RecordStart(argv, n) + s;
    assert tail[0] == 42;
    NotRdb(tail);
    if s[0] != 36 || ParseInt(Line(s)[1..]) < 0 {
      Refused(units, tail, cfg);
    }
  }

  /** A whole record of a command the server does not know fails the load, whatever follows it. */
  lemma UnknownCommandFails(units: seq<Unit>, argv: Argv, rest: bytes, cfg: Config)
    requires LogOk(units, cfg.lookup) && WellFormed(argv) && cfg.lookup(argv) == Unknown
    ensures var file := Log(units) + (Encode(argv) + rest);
            Load(file, cfg) == Outcome(AofFailed, Effects(units), file)
  {
    hide Log, Load, LogOk, Effects, Parse, WellFormed, Digits, Bulks;
    ParseComplete(argv, rest);
    NotRdb(Encode(argv) + rest);
    Refused(units, Encode(argv) + rest, cfg);
  }

  // ---------------------------------------------------------------- annotations

  /** A line starting with `#` that fits the line buffer. */
  ghost predicate IsAnnotation(l: bytes) {
    0 < |l| < 1023 && l[0] == 35 && LF !in l
  }

  lemma NotSignature(s: bytes)
    requires s != [] && s[0] == 35
    ensures !(RDB_SIGNATURE <= s)
  {
  }

  lemma ParseAnnotation(l: bytes, rest: bytes)
    requires IsAnnotation(l)
    ensures Parse(l + [LF] + rest) == Annotation(rest)
  {
    var s := l + [LF] + rest;
    LineLengthOf(l, rest, LINE_BUFFER - 1);
    assert s[|l| + 1..] == rest;
  }

  /** An annotation between two units is skipped: it runs nothing, and both sides run in full. */
  lemma AnnotationSkipped(a: seq<Unit>, l: bytes, b: seq<Unit>, cfg: Config)
    requires LogOk(a, cfg.lookup) && LogOk(b, cfg.lookup) && IsAnnotation(l)
    ensures var file := Log(a) + (l + [LF] + Log(b));
            Load(file, cfg) == Outcome(AofOk, Effects(a) + Effects(b), file)
  {
    hide Log, Load, LoadFrom, Effects, Parse, After, Unit.Ok, CommandsOf, EncodeAll, LogOk;
    var full := Config(cfg.lookup, true, true);
    var tail := l + [LF] + Log(b);
    var file := Log(a) + tail;
    NotSignature(tail);
    var p := ReachTail(a, tail, cfg.lookup);
    SkipAnnotation(l, Log(b), file, p, full);
    RunLast(b, file, p, Effects(a), full);
    SameOutcome(file, Outcome(AofOk, Effects(a) + Effects(b), file), cfg);
  }

  lemma SkipAnnotation(l: bytes, rest: bytes, file: bytes, p: Progress, cfg: Config)
    requires IsAnnotation(l) && |l| + 1 + |rest| <= |file| && Bounded(p, |file| - |l| - 1 - |rest|)
    ensures LoadFrom(l + [LF] + rest, file, p, cfg) == LoadFrom(rest, file, p, cfg)
  {
    hide Parse;
    ParseAnnotation(l, rest);
  }

  /** What the client runs does not depend on the offsets kept beside it. */
  lemma {:induction false} AfterClient(p: Progress, q: Progress, cmds: seq<Argv>, pos: nat, cfg: Config)
    requires p.client == q.client
    ensures After(p, cmds, pos, cfg).client == After(q, cmds, pos, cfg).client
    decreases cmds
  {
    if cmds != [] {
      hide Encode, RunCommand;
      var next := pos + |Encode(cmds[0])|;
      AfterClient(Advance(p, cmds[0], next, cfg), Advance(q, cmds[0], next, cfg), cmds[1..], next, cfg);
    }
  }

  lemma RunLast(units: seq<Unit>, file: bytes, p: Progress, executed: seq<Argv>, cfg: Config)
    requires LogOk(units, cfg.lookup) && cfg.loadTruncated && p.client == Client(false, [], executed)
    requires |Log(units)| <= |file| && Bounded(p, |file| - |Log(units)|)
    ensures LoadFrom(Log(units), file, p, cfg) == Outcome(AofOk, executed + Effects(units), file)
  {
    hide LoadFrom, After, Unit.Ok, CommandsOf, EncodeAll, LogOk, Effects;
    AllKnown(units, cfg.lookup);
    var pos := |file| - |Log(units)|;
    LoadThrough(CommandsOf(units), [], file, p, pos, cfg);
    assert Log(units) + [] == Log(units);
    AfterUnits(units, p.(validUpTo := pos), pos, executed, cfg);
    AfterClient(p, p.(validUpTo := pos), CommandsOf(units), pos, cfg);
    LoadEof(file, After(p, CommandsOf(units), pos, cfg), cfg);
  }

  /** A longer annotation is not one line to fgets(): what its first 1023 bytes leave over is read as a record. */
  lemma LongAnnotationFails(units: seq<Unit>, l: bytes, junk: bytes, cfg: Config)
    requires LogOk(units, cfg.lookup) && |l| == 1023 && l[0] == 35 && LF !in l
    requires junk != [] && junk[0] != 42 && junk[0] != 35
    ensures var file := Log(units) + (l + junk);
            Load(file, cfg) == Outcome(AofFailed, Effects(units), file)
  {
    hide Log, Load, Effects, Parse, LogOk;
    var file := Log(units) + (l + junk);
    NotSignature(l + junk);
    var p := ReachTail(units, l + junk, cfg.lookup);
    FullBuffer(l, junk, LINE_BUFFER - 1);
    ParseLong(l, junk);
    ParseJunk(junk);
    SameOutcome(file, Outcome(AofFailed, Effects(units), file), cfg);
  }

  lemma {:induction false} FullBuffer(l: bytes, rest: bytes, k: nat)
    requires LF !in l && |l| == k
    ensures LineLength(l + rest, k) == k
  {
    if l != [] {
      assert (l + rest)[1..] == l[1..] + rest;
      FullBuffer(l[1..], rest, k - 1);
    }
  }

  lemma ParseLong(l: bytes, rest: bytes)
    requires |l| == 1023 && l[0] == 35 && LineLength(l + rest, LINE_BUFFER - 1) == 1023
    ensures Parse(l + rest) == Annotation(rest)
  {
    assert (l + rest)[1023..] == rest;
  }
}
