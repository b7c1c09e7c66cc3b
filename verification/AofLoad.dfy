/** Replaying one append-only file: the command loop of loadSingleAppendOnlyFile with its
    MULTI/EXEC handling and its recovery from a truncated tail. */
module AofLoad {
  import opened Bytes
  import opened Resp

  /** What lookupCommand() says about a command, as far as the loader distinguishes commands. */
  datatype Kind = Unknown | Multi | Exec | Other

  /** The fake client: commands queued since MULTI and commands executed so far. */
  datatype Client = Client(inMulti: bool, queue: seq<Argv>, executed: seq<Argv>)

  const FreshClient := Client(false, [], [])

  function RunCommand(c: Client, argv: Argv, kind: Kind): Client {
    if c.inMulti && kind != Exec then c.(queue := c.queue + [argv])
    else match kind
      case Multi => Client(true, [], c.executed)
      case Exec => if c.inMulti then Client(false, [], c.executed + c.queue) else c
      case _ => c.(executed := c.executed + [argv])
  }

  /** `validUpTo` and `validBeforeMulti` are the offsets the loader may cut the file at. */
  datatype Progress = Progress(client: Client, validUpTo: nat, validBeforeMulti: nat)

  /** Command table, aof-load-truncated, and whether truncate(2) succeeds. */
  datatype Config = Config(lookup: Argv -> Kind, loadTruncated: bool, truncateOk: bool)

  datatype Status = AofOk | AofTruncated | AofFailed | AofEmpty | RdbPreamble | Aborted

  /** Result of a load: status, executed commands, and the bytes the file holds afterwards. */
  datatype Outcome = Outcome(status: Status, executed: seq<Argv>, left: bytes)

  /** State after the command `argv` that ends at file offset `pos`. */
  function Advance(p: Progress, argv: Argv, pos: nat, cfg: Config): (r: Progress)
    ensures p.validUpTo <= pos && p.validBeforeMulti <= pos ==> r.validUpTo <= pos && r.validBeforeMulti <= pos
  {
    var kind := cfg.lookup(argv);
    Progress(RunCommand(p.client, argv, kind),
             if cfg.loadTruncated then pos else p.validUpTo,
             if kind == Multi then p.validUpTo else p.validBeforeMulti)
  }

  function UnexpectedEof(file: bytes, cut: nat, executed: seq<Argv>, cfg: Config): Outcome
    requires cut <= |file|
  {
    if cfg.loadTruncated && cfg.truncateOk then Outcome(AofTruncated, executed, file[..cut])
    else Outcome(AofFailed, executed, file)
  }

  ghost predicate Bounded(p: Progress, pos: nat) {
    p.validUpTo <= pos && p.validBeforeMulti <= pos
  }

  /** The loader on the unread suffix `s` of `file`. */
  function LoadFrom(s: bytes, file: bytes, p: Progress, cfg: Config): Outcome
    requires |s| <= |file| && Bounded(p, |file| - |s|)
    decreases |s|
  {
    match Parse(s)
    case Eof =>
      if p.client.inMulti then UnexpectedEof(file, p.validBeforeMulti, p.client.executed, cfg)
      else Outcome(AofOk, p.client.executed, file)
    case ShortRead => UnexpectedEof(file, p.validUpTo, p.client.executed, cfg)
    case Annotation(rest) => LoadFrom(rest, file, p, cfg)
    case Command(argv, rest) =>
      if cfg.lookup(argv) == Unknown then Outcome(AofFailed, p.client.executed, file)
      else LoadFrom(rest, file, Advance(p, argv, |file| - |rest|, cfg), cfg)
    case OutOfMemory => Outcome(Aborted, p.client.executed, file)
    case _ => Outcome(AofFailed, p.client.executed, file)
  }

  /** "REDIS" */
  const RDB_SIGNATURE: bytes := [82, 69, 68, 73, 83]

  function Load(file: bytes, cfg: Config): Outcome {
    if file == [] then Outcome(AofEmpty, [], file)
    else if RDB_SIGNATURE <= file then Outcome(RdbPreamble, [], file)
    else LoadFrom(file, file, Progress(FreshClient, 0, 0), cfg)
  }

  // ---------------------------------------------------------------- the source's loops

  /** Reads one record with the argument loop of the source. */
  method ReadCommand(s: bytes) returns (r: ParseResult)
    ensures r == Parse(s)
  {
    var line := Line(s);
    if line == [] { return Eof; }
    if line[0] == 35 { return Annotation(AfterLine(s)); }
    if line[0] != 42 { return BadFormat; }
    if |line| == 1 || line[1] == 0 {
      return if HitEof(s) then ShortRead else ReadFailed;
    }
    var argc := ParseInt(line[1..]);
    if argc < 1 { return BadFormat; }
    var rest, argv, j := AfterLine(s), [], 0;
    while j < argc
      invariant 0 <= j <= argc && |argv| == j
      invariant ReadArgs(AfterLine(s), argc) == ReadBefore(argv, ReadArgs(rest, argc - j))
      decreases argc - j
    {
      var a := ReadArg(rest);
      match a {
        case ArgShort => return ShortRead;
        case ArgFormat => return BadFormat;
        case ArgOutOfMemory => return OutOfMemory;
        case Arg(x, more) =>
          PrependPush(argv, x, ReadArgs(more, argc - j - 1));
          argv, rest, j := argv + [x], more, j + 1;
      }
    }
    assert argv + [] == argv;
    r := Command(argv, rest);
  }

  ghost function ReadBefore(a: Argv, r: ArgsResult): ArgsResult {
    if r.Args? then Args(a + r.argv, r.rest) else r
  }

  lemma PrependPush(a: Argv, x: bytes, r: ArgsResult)
    ensures ReadBefore(a, Push(x, r)) == ReadBefore(a + [x], r)
  {
    if r.Args? {
      assert a + ([x] + r.argv) == a + [x] + r.argv;
    }
  }

  /** loadSingleAppendOnlyFile, from the signature check to the return. */
  method LoadSingleFile(file: bytes, cfg: Config) returns (o: Outcome)
    ensures o == Load(file, cfg)
  {
    hide Parse, RunCommand;
    if file == [] { return Outcome(AofEmpty, [], file); }
    if RDB_SIGNATURE <= file { return Outcome(RdbPreamble, [], file); }
    var client := FreshClient;
    var s := file;
    var validUpTo: nat, validBeforeMulti: nat := 0, 0;
    while true
      invariant |s| <= |file| && Bounded(Progress(client, validUpTo, validBeforeMulti), |file| - |s|)
      invariant Load(file, cfg) == LoadFrom(s, file, Progress(client, validUpTo, validBeforeMulti), cfg)
      decreases |s|
    {
      var r := ReadCommand(s);
      match r {
        case Eof => break;
        case Annotation(rest) => s := rest;
        case ShortRead => return UnexpectedEof(file, validUpTo, client.executed, cfg);
        case OutOfMemory => return Outcome(Aborted, client.executed, file);
        case Command(argv, rest) =>
          var kind := cfg.lookup(argv);
          if kind == Unknown { return Outcome(AofFailed, client.executed, file); }
          if kind == Multi { validBeforeMulti := validUpTo; }
          client := RunCommand(client, argv, kind);
          if cfg.loadTruncated { validUpTo := |file| - |rest|; }
          s := rest;
        case _ => return Outcome(AofFailed, client.executed, file);
      }
    }
    if client.inMulti {
      validUpTo := validBeforeMulti;
      return UnexpectedEof(file, validUpTo, client.executed, cfg);
    }
    return Outcome(AofOk, client.executed, file);
  }

  // ---------------------------------------------------------------- what a log means

  /** A log is a sequence of units: commands outside transactions, and whole transactions. */
  datatype Unit =
    | Single(cmd: Argv)
    | Block(multi: Argv, body: seq<Argv>, exec: Argv)
  {
    function Commands(): seq<Argv> {
      if Single? then [cmd] else [multi] + body + [exec]
    }

    function Effect(): seq<Argv> {
      if Single? then [cmd] else body
    }

    ghost predicate Ok(lookup: Argv -> Kind) {
      && (forall c :: c in Commands() ==> WellFormed(c) && lookup(c) != Unknown)
      && (Single? ==> lookup(cmd) == Other)
      && (Block? ==> lookup(multi) == Multi && lookup(exec) == Exec && forall c :: c in body ==> lookup(c) != Exec)
    }
  }

  function CommandsOf(units: seq<Unit>): seq<Argv> {
    if units == [] then [] else units[0].Commands() + CommandsOf(units[1..])
  }

  /** The commands a complete log runs, transactions included, in order. */
  function Effects(units: seq<Unit>): seq<Argv> {
    if units == [] then [] else units[0].Effect() + Effects(units[1..])
  }

  function Log(units: seq<Unit>): bytes {
    EncodeAll(CommandsOf(units))
  }

  ghost predicate LogOk(units: seq<Unit>, lookup: Argv -> Kind) {
    forall i :: 0 <= i < |units| ==> units[i].Ok(lookup)
  }

  lemma {:induction false} CommandsOfConcat(a: seq<Unit>, b: seq<Unit>)
    ensures CommandsOf(a + b) == CommandsOf(a) + CommandsOf(b)
  {
    if a == [] {
      assert a + b == b;
    } else {
      assert (a + b)[1..] == a[1..] + b;
      CommandsOfConcat(a[1..], b);
    }
  }

  lemma LogConcat(a: seq<Unit>, b: seq<Unit>)
    ensures Log(a + b) == Log(a) + Log(b)
  {
    CommandsOfConcat(a, b);
    EncodeAllConcat(CommandsOf(a), CommandsOf(b));
  }

  lemma {:induction false} EffectsConcat(a: seq<Unit>, b: seq<Unit>)
    ensures Effects(a + b) == Effects(a) + Effects(b)
  {
    if a == [] {
      assert a + b == b;
    } else {
      assert (a + b)[1..] == a[1..] + b;
      EffectsConcat(a[1..], b);
    }
  }

  lemma LogOfFirst(units: seq<Unit>)
    requires units != []
    ensures Log(units) == EncodeAll(units[0].Commands()) + Log(units[1..])
  {
    hide EncodeAll;
    EncodeAllConcat(units[0].Commands(), CommandsOf(units[1..]));
  }

  lemma LogOfPrefix(units: seq<Unit>, k: nat)
    requires k < |units|
    ensures Log(units[..k + 1]) == EncodeAll(units[0].Commands()) + Log(units[1..][..k])
  {
    hide EncodeAll;
    LogOfFirst(units[..k + 1]);
    assert units[..k + 1][1..] == units[1..][..k];
  }

  /** How many whole units the first `n` bytes of the log hold. */
  function WholeUnits(units: seq<Unit>, n: nat): (k: nat)
    requires n <= |Log(units)|
    ensures k <= |units| && |Log(units[..k])| <= n
    ensures k < |units| ==> n < |Log(units[..k])| + |EncodeAll(units[k].Commands())|
    ensures k == |units| ==> n == |Log(units)|
  {
    if units == [] then 0 else
      var first := EncodeAll(units[0].Commands());
      LogOfFirst(units);
      if n < |first| then 0 else
        var k := WholeUnits(units[1..], n - |first|);
        LogOfPrefix(units, k);
        k + 1
  }

  /** How many whole commands the first `n` bytes of an encoded command list hold. */
  function WholeCommands(cmds: seq<Argv>, n: nat): (j: nat)
    requires n <= |EncodeAll(cmds)|
    ensures j <= |cmds| && |EncodeAll(cmds[..j])| <= n
    ensures j < |cmds| ==> n - |EncodeAll(cmds[..j])| < |Encode(cmds[j])|
    ensures j == |cmds| ==> n == |EncodeAll(cmds)|
  {
    if cmds == [] then 0 else
      var first := Encode(cmds[0]);
      if n < |first| then 0 else
        var j := WholeCommands(cmds[1..], n - |first|);
        assert cmds[..j + 1] == [cmds[0]] + cmds[1..][..j];
        EncodeAllConcat([cmds[0]], cmds[1..][..j]);
        assert EncodeAll([cmds[0]]) == first + EncodeAll([]);
        j + 1
  }

  // ---------------------------------------------------------------- running whole commands

  /** State after running `cmds`, the first of which starts at offset `pos`. */
  ghost function After(p: Progress, cmds: seq<Argv>, pos: nat, cfg: Config): (r: Progress)
    ensures Bounded(p, pos) ==> Bounded(r, pos + |EncodeAll(cmds)|)
    decreases cmds
  {
    if cmds == [] then p
    else
      var next := pos + |Encode(cmds[0])|;
      After(Advance(p, cmds[0], next, cfg), cmds[1..], next, cfg)
  }

  lemma {:induction false} AfterConcat(p: Progress, a: seq<Argv>, b: seq<Argv>, pos: nat, cfg: Config)
    ensures After(p, a + b, pos, cfg) == After(After(p, a, pos, cfg), b, pos + |EncodeAll(a)|, cfg)
    decreases a
  {
    hide Advance, Encode;
    if a == [] {
      assert a + b == b;
    } else {
      var next := pos + |Encode(a[0])|;
      assert (a + b)[1..] == a[1..] + b;
      AfterConcat(Advance(p, a[0], next, cfg), a[1..], b, next, cfg);
    }
  }

  /** Whole commands are consumed one by one, whatever bytes follow them. */
  lemma {:induction false} LoadThrough(cmds: seq<Argv>, rest: bytes, file: bytes, p: Progress, pos: nat, cfg: Config)
    requires forall i :: 0 <= i < |cmds| ==> WellFormed(cmds[i]) && cfg.lookup(cmds[i]) != Unknown
    requires |file| == pos + |EncodeAll(cmds)| + |rest| && Bounded(p, pos)
    ensures LoadFrom(EncodeAll(cmds) + rest, file, p, cfg)
         == LoadFrom(rest, file, After(p, cmds, pos, cfg), cfg)
    decreases cmds
  {
    hide LoadFrom, Encode, Advance, WellFormed;
    if cmds == [] {
      assert EncodeAll(cmds) + rest == rest;
    } else {
      var more := EncodeAll(cmds[1..]) + rest;
      assert EncodeAll(cmds) + rest == Encode(cmds[0]) + more;
      var next := pos + |Encode(cmds[0])|;
      LoadOne(cmds[0], more, file, p, pos, cfg);
      LoadThrough(cmds[1..], rest, file, Advance(p, cmds[0], next, cfg), next, cfg);
    }
  }

  lemma LoadOne(c: Argv, more: bytes, file: bytes, p: Progress, pos: nat, cfg: Config)
    requires WellFormed(c) && cfg.lookup(c) != Unknown && |file| == pos + |Encode(c)| + |more| && Bounded(p, pos)
    ensures var next := pos + |Encode(c)|;
            && Bounded(Advance(p, c, next, cfg), next)
            && LoadFrom(Encode(c) + more, file, p, cfg) == LoadFrom(more, file, Advance(p, c, next, cfg), cfg)
  {
    hide Encode, WellFormed;
    ParseComplete(c, more);
  }

  /** No transaction open, `executed` run, and the file valid up to `pos`. */
  ghost predicate Idle(p: Progress, pos: nat, executed: seq<Argv>) {
    p.client == Client(false, [], executed) && p.validUpTo == pos
  }

  /** A transaction with `queue` open, entered after `executed`. */
  ghost predicate InBlock(p: Progress, pos: nat, queue: seq<Argv>, executed: seq<Argv>) {
    p.client == Client(true, queue, executed) && p.validUpTo == pos
  }

  /** Outside a transaction, whole units run to completion and leave the client idle. */
  lemma {:induction false} AfterUnits(units: seq<Unit>, p: Progress, pos: nat, executed: seq<Argv>, cfg: Config)
    requires LogOk(units, cfg.lookup) && cfg.loadTruncated && Idle(p, pos, executed)
    ensures Idle(After(p, CommandsOf(units), pos, cfg), pos + |Log(units)|, executed + Effects(units))
    decreases units
  {
    hide *;
    if units == [] {
      AfterNoUnits(p, pos, executed, cfg);
    } else {
      AfterFirstUnit(units, p, pos, executed, cfg);
      var u := units[0];
      var q, mid := After(p, u.Commands(), pos, cfg), pos + |EncodeAll(u.Commands())|;
      AfterUnits(units[1..], q, mid, executed + u.Effect(), cfg);
      EffectsOfFirst(executed, units);
      LogOfFirst(units);
    }
  }

  lemma AfterNoUnits(p: Progress, pos: nat, executed: seq<Argv>, cfg: Config)
    ensures After(p, CommandsOf([]), pos, cfg) == p && |Log([])| == 0 && executed + Effects([]) == executed
  {
  }

  lemma EffectsOfFirst(executed: seq<Argv>, units: seq<Unit>)
    requires units != []
    ensures executed + Effects(units) == executed + units[0].Effect() + Effects(units[1..])
  {
  }

  lemma AfterFirstUnit(units: seq<Unit>, p: Progress, pos: nat, executed: seq<Argv>, cfg: Config)
    requires units != [] && LogOk(units, cfg.lookup) && cfg.loadTruncated && Idle(p, pos, executed)
    ensures LogOk(units[1..], cfg.lookup)
    ensures var u := units[0];
            && Idle(After(p, u.Commands(), pos, cfg), pos + |EncodeAll(u.Commands())|, executed + u.Effect())
            && After(p, CommandsOf(units), pos, cfg)
               == After(After(p, u.Commands(), pos, cfg), CommandsOf(units[1..]), pos + |EncodeAll(u.Commands())|, cfg)
  {
    hide EncodeAll, Encode, After;
    AfterUnit(units[0], p, pos, executed, cfg);
    AfterConcat(p, units[0].Commands(), CommandsOf(units[1..]), pos, cfg);
  }

  lemma Assoc<T>(a: seq<T>, b: seq<T>, c: seq<T>)
    ensures a + b + c == a + (b + c)
  {
  }

  lemma AfterUnit(u: Unit, p: Progress, pos: nat, executed: seq<Argv>, cfg: Config)
    requires u.Ok(cfg.lookup) && cfg.loadTruncated && Idle(p, pos, executed)
    ensures Idle(After(p, u.Commands(), pos, cfg), pos + |EncodeAll(u.Commands())|, executed + u.Effect())
  {
    match u
    case Single(c) => AfterOne(p, c, pos, cfg);
    case Block(_, _, _) => AfterBlock(u, p, pos, executed, cfg);
  }

  lemma AfterBlock(u: Unit, p: Progress, pos: nat, executed: seq<Argv>, cfg: Config)
    requires u.Block? && u.Ok(cfg.lookup) && cfg.loadTruncated && Idle(p, pos, executed)
    ensures Idle(After(p, u.Commands(), pos, cfg), pos + |EncodeAll(u.Commands())|, executed + u.Effect())
  {
    hide EncodeAll, Encode;
    var open := [u.multi] + u.body;
    assert u.body[..|u.body|] == u.body;
    AfterOpenBlock(u, |u.body|, p, pos, executed, cfg);
    var q := After(p, open, pos, cfg);
    AfterConcat(p, open, [u.exec], pos, cfg);
    EncodeAllConcat(open, [u.exec]);
    AfterOne(q, u.exec, pos + |EncodeAll(open)|, cfg);
  }

  lemma AfterOne(p: Progress, c: Argv, pos: nat, cfg: Config)
    ensures After(p, [c], pos, cfg) == Advance(p, c, pos + |Encode(c)|, cfg)
    ensures EncodeAll([c]) == Encode(c)
  {
    assert [c][1..] == [];
  }

  /** Offset before the last MULTI among `cmds`, or `dflt` when there is none. */
  ghost function LastMultiOffset(cmds: seq<Argv>, pos: nat, dflt: nat, lookup: Argv -> Kind): nat {
    if cmds == [] then dflt
    else LastMultiOffset(cmds[1..], pos + |Encode(cmds[0])|, if lookup(cmds[0]) == Multi then pos else dflt, lookup)
  }

  /** Inside a transaction every command but EXEC is only queued. */
  lemma {:induction false} AfterQueued(cmds: seq<Argv>, p: Progress, pos: nat, queue: seq<Argv>, executed: seq<Argv>,
                                       cfg: Config)
    requires forall i :: 0 <= i < |cmds| ==> cfg.lookup(cmds[i]) != Exec
    requires InBlock(p, pos, queue, executed) && cfg.loadTruncated
    ensures var r := After(p, cmds, pos, cfg);
            && InBlock(r, pos + |EncodeAll(cmds)|, queue + cmds, executed)
            && r.validBeforeMulti == LastMultiOffset(cmds, pos, p.validBeforeMulti, cfg.lookup)
    decreases cmds
  {
    if cmds == [] {
      assert queue + cmds == queue;
    } else {
      hide Encode;
      var next := pos + |Encode(cmds[0])|;
      var q := Advance(p, cmds[0], next, cfg);
      AfterQueued(cmds[1..], q, next, queue + [cmds[0]], executed, cfg);
      Assoc(queue, [cmds[0]], cmds[1..]);
      assert [cmds[0]] + cmds[1..] == cmds;
    }
  }

  lemma AfterOpenBlock(u: Unit, i: nat, p: Progress, pos: nat, executed: seq<Argv>, cfg: Config)
    requires u.Block? && u.Ok(cfg.lookup) && cfg.loadTruncated && i <= |u.body| && Idle(p, pos, executed)
    ensures var r := After(p, [u.multi] + u.body[..i], pos, cfg);
            && InBlock(r, pos + |EncodeAll([u.multi] + u.body[..i])|, u.body[..i], executed)
            && r.validBeforeMulti == LastMultiOffset(u.body[..i], pos + |Encode(u.multi)|, pos, cfg.lookup)
  {
    hide EncodeAll, Encode, LastMultiOffset;
    var body := u.body[..i];
    forall j | 0 <= j < |body| ensures cfg.lookup(body[j]) != Exec {
      assert body[j] in u.body;
    }
    var mid := pos + |Encode(u.multi)|;
    AfterOne(p, u.multi, pos, cfg);
    var q := After(p, [u.multi], pos, cfg);
    assert InBlock(q, mid, [], executed) && q.validBeforeMulti == pos;
    AfterQueued(body, q, mid, [], executed, cfg);
    AfterMulti(p, u.multi, body, pos, cfg);
    assert [] + body == body;
  }

  lemma AfterMulti(p: Progress, m: Argv, body: seq<Argv>, pos: nat, cfg: Config)
    ensures After(p, [m] + body, pos, cfg) == After(After(p, [m], pos, cfg), body, pos + |Encode(m)|, cfg)
    ensures |EncodeAll([m] + body)| == |Encode(m)| + |EncodeAll(body)|
  {
    AfterConcat(p, [m], body, pos, cfg);
    EncodeAllConcat([m], body);
    AfterOne(p, m, pos, cfg);
  }

  /** Index of the last MULTI among `cmds`, or -1. */
  function LastMulti(cmds: seq<Argv>, lookup: Argv -> Kind): (r: int)
    ensures -1 <= r < |cmds|
    ensures r == -1 <==> forall i :: 0 <= i < |cmds| ==> lookup(cmds[i]) != Multi
  {
    if cmds == [] then -1 else
      var r := LastMulti(cmds[1..], lookup);
      assert forall i :: 0 < i < |cmds| ==> cmds[i] == cmds[1..][i - 1];
      if r >= 0 then r + 1 else if lookup(cmds[0]) == Multi then 0 else -1
  }

  /** validBeforeMulti after a run of queued commands is the offset of the last MULTI among them. */
  lemma {:induction false} LastMultiOffsetIs(cmds: seq<Argv>, pos: nat, dflt: nat, lookup: Argv -> Kind)
    ensures var i := LastMulti(cmds, lookup);
            LastMultiOffset(cmds, pos, dflt, lookup) == if i < 0 then dflt else pos + |EncodeAll(cmds[..i])|
    decreases cmds
  {
    if cmds != [] {
      hide Encode;
      var i := LastMulti(cmds[1..], lookup);
      LastMultiOffsetIs(cmds[1..], pos + |Encode(cmds[0])|, if lookup(cmds[0]) == Multi then pos else dflt, lookup);
      if i >= 0 {
        assert cmds[..i + 1][1..] == cmds[1..][..i];
      }
    }
  }

  // ---------------------------------------------------------------- prefix recovery

  /** Bytes of `units[WholeUnits..]` that the cut at `n` leaves behind the whole units. */
  function CutLength(units: seq<Unit>, n: nat): nat
    requires n <= |Log(units)|
  {
    n - |Log(units[..WholeUnits(units, n)])|
  }

  /** The cut falls inside a unit, after `CommandsBeforeCut` whole commands of it. */
  function CommandsBeforeCut(units: seq<Unit>, n: nat): (j: nat)
    requires n <= |Log(units)|
    ensures WholeUnits(units, n) < |units| ==> j < |units[WholeUnits(units, n)].Commands()|
  {
    var k := WholeUnits(units, n);
    if k == |units| then 0 else WholeCommands(units[k].Commands(), CutLength(units, n))
  }

  /** The cut is not inside a transaction, or it is exactly between two commands of a
      transaction none of whose queued commands is a nested MULTI. */
  predicate CleanCut(units: seq<Unit>, n: nat, lookup: Argv -> Kind)
    requires n <= |Log(units)|
  {
    var k := WholeUnits(units, n);
    var j := CommandsBeforeCut(units, n);
    j == 0 || (
      && CutLength(units, n) == |EncodeAll(units[k].Commands()[..j])|
      && forall i :: 1 <= i < j ==> lookup(units[k].Commands()[i]) != Multi)
  }

  /** How many commands of the cut unit the loader leaves in the file. */
  function Kept(u: Unit, j: nat, onBoundary: bool, lookup: Argv -> Kind): (r: nat)
    requires j < |u.Commands()|
    ensures r <= j
  {
    if j == 0 then 0
    else if !onBoundary then j
    else LastMulti(u.Commands()[1..j], lookup) + 1
  }

  /** The loader on the bytes of a unit cut short, met with no transaction open. */
  lemma LoadCutUnit(u: Unit, m: nat, file: bytes, p: Progress, executed: seq<Argv>, cfg: Config)
    requires u.Ok(cfg.lookup) && m < |EncodeAll(u.Commands())| && cfg.loadTruncated && cfg.truncateOk
    requires m <= |file| && Idle(p, |file| - m, executed) && Bounded(p, |file| - m)
    ensures var j := WholeCommands(u.Commands(), m);
            var kept := Kept(u, j, m == |EncodeAll(u.Commands()[..j])|, cfg.lookup);
            var cut := |file| - m + |EncodeAll(u.Commands()[..kept])|;
            && cut <= |file|
            && LoadFrom(EncodeAll(u.Commands())[..m], file, p, cfg)
               == if m == 0 then Outcome(AofOk, executed, file) else Outcome(AofTruncated, executed, file[..cut])
  {
    hide Encode, EncodeAll, LoadFrom, WholeCommands;
    var cmds := u.Commands();
    var j := WholeCommands(cmds, m);
    var pos := |file| - m;
    CutCommands(cmds, m);
    var l := m - |EncodeAll(cmds[..j])|;
    assert forall i :: 0 <= i < j ==> cmds[..j][i] in cmds;
    LoadThrough(cmds[..j], Encode(cmds[j])[..l], file, p, pos, cfg);
    assert cmds[j] in cmds;
    LoadPart(cmds[j], l, file, After(p, cmds[..j], pos, cfg), cfg);
    EncodeAllEmpty();
    if j == 0 {
      assert cmds[..0] == [];
      assert file[..|file|] == file;
    } else {
      OpenBlockAfter(u, j, p, pos, executed, cfg);
      EncodeAllNotEmpty(cmds[..j]);
    }
  }

  /** Met at the end of the file: nothing, or a proper prefix of a command. */
  lemma LoadPart(c: Argv, l: nat, file: bytes, p: Progress, cfg: Config)
    requires WellFormed(c) && l < |Encode(c)| && l <= |file| && Bounded(p, |file| - l)
    ensures LoadFrom(Encode(c)[..l], file, p, cfg)
         == if l > 0 then UnexpectedEof(file, p.validUpTo, p.client.executed, cfg)
            else if p.client.inMulti then UnexpectedEof(file, p.validBeforeMulti, p.client.executed, cfg)
            else Outcome(AofOk, p.client.executed, file)
  {
    hide Encode;
    if l > 0 {
      hide Parse;
      ParseCut(c, l);
    }
  }

  /** Bytes of a command list cut at `m`: whole commands, then a proper prefix of the next one. */
  lemma CutCommands(cmds: seq<Argv>, m: nat)
    requires m < |EncodeAll(cmds)|
    ensures var j := WholeCommands(cmds, m);
            j < |cmds| && EncodeAll(cmds)[..m] == EncodeAll(cmds[..j]) + Encode(cmds[j])[..m - |EncodeAll(cmds[..j])|]
  {
    hide Encode;
    var j := WholeCommands(cmds, m);
    EncodeAllConcat(cmds[..j], cmds[j..]);
    assert cmds == cmds[..j] + cmds[j..];
    CutConcat(EncodeAll(cmds[..j]), EncodeAll(cmds[j..]), m);
    CutConcat(Encode(cmds[j]), EncodeAll(cmds[j..][1..]), m - |EncodeAll(cmds[..j])|);
  }

  lemma OpenBlockAfter(u: Unit, j: nat, p: Progress, pos: nat, executed: seq<Argv>, cfg: Config)
    requires u.Ok(cfg.lookup) && 0 < j < |u.Commands()| && cfg.loadTruncated && Idle(p, pos, executed)
    ensures var q := After(p, u.Commands()[..j], pos, cfg);
            && q.client.inMulti && q.client.executed == executed
            && q.validUpTo == pos + |EncodeAll(u.Commands()[..j])|
            && q.validBeforeMulti == pos + |EncodeAll(u.Commands()[..LastMulti(u.Commands()[1..j], cfg.lookup) + 1])|
  {
    hide Encode, EncodeAll, LastMultiOffset, LastMulti;
    var cmds := u.Commands();
    var body := u.body[..j - 1];
    assert cmds[..j] == [u.multi] + body;
    assert cmds[1..j] == body;
    AfterOpenBlock(u, j - 1, p, pos, executed, cfg);
    LastMultiOffsetIs(body, pos + |Encode(u.multi)|, pos, cfg.lookup);
    var i := LastMulti(body, cfg.lookup);
    if i < 0 {
      assert cmds[..0] == [];
      EncodeAllEmpty();
    } else {
      assert cmds[..i + 1] == [u.multi] + body[..i];
      AfterMulti(p, u.multi, body[..i], pos, cfg);
    }
  }

  lemma EncodeAllNotEmpty(cmds: seq<Argv>)
    requires cmds != []
    ensures |EncodeAll(cmds)| > 0 && EncodeAll(cmds)[0] == 42
  {
  }

  lemma EncodeAllEmpty()
    ensures EncodeAll([]) == []
  {
  }

  lemma LogPrefix(units: seq<Unit>, k: nat)
    requires k <= |units|
    ensures |Log(units[..k])| <= |Log(units)| && Log(units)[..|Log(units[..k])|] == Log(units[..k])
    ensures k < |units| ==> Log(units[k..]) == EncodeAll(units[k].Commands()) + Log(units[k..][1..])
    ensures Log(units) == Log(units[..k]) + Log(units[k..])
  {
    hide Log;
    LogConcat(units[..k], units[k..]);
    assert units == units[..k] + units[k..];
    if k < |units| {
      LogOfFirst(units[k..]);
    }
  }

  /** The surviving bytes are the whole units followed by the beginning of the next one. */
  lemma CutLog(units: seq<Unit>, n: nat)
    requires n <= |Log(units)|
    ensures var k, m := WholeUnits(units, n), CutLength(units, n);
            && (k < |units| ==> m < |EncodeAll(units[k].Commands())|)
            && (k < |units| ==> Log(units)[..n] == Log(units[..k]) + EncodeAll(units[k].Commands())[..m])
            && (k == |units| ==> m == 0 && Log(units)[..n] == Log(units[..k]))
  {
    hide Log, EncodeAll;
    var k, m := WholeUnits(units, n), CutLength(units, n);
    LogPrefix(units, k);
    if k < |units| {
      CutConcat(Log(units[..k]), Log(units[k..]), n);
      CutConcat(EncodeAll(units[k].Commands()), Log(units[k..][1..]), m);
    } else {
      assert units[..k] == units;
    }
  }

  lemma NotRdb(file: bytes)
    requires file != [] && file[0] == 42
    ensures !(RDB_SIGNATURE <= file)
  {
  }

  lemma LogStart(units: seq<Unit>)
    ensures Log(units) != [] ==> Log(units)[0] == 42
  {
    EncodeAllEmpty();
    if CommandsOf(units) != [] {
      EncodeAllNotEmpty(CommandsOf(units));
    }
  }

  /** Whole units at the front of a file are executed first, whatever follows. */
  lemma LoadWholeUnits(units: seq<Unit>, tail: bytes, cfg: Config) returns (p: Progress)
    requires LogOk(units, cfg.lookup) && cfg.loadTruncated
    requires Log(units) + tail != [] && (Log(units) + tail)[0] == 42
    ensures Idle(p, |Log(units)|, Effects(units)) && Bounded(p, |Log(units)|)
    ensures Load(Log(units) + tail, cfg) == LoadFrom(tail, Log(units) + tail, p, cfg)
  {
    hide EncodeAll, LoadFrom, After;
    var file := Log(units) + tail;
    NotRdb(file);
    AllKnown(units, cfg.lookup);
    var p0 := Progress(FreshClient, 0, 0);
    LoadThrough(CommandsOf(units), tail, file, p0, 0, cfg);
    p := After(p0, CommandsOf(units), 0, cfg);
    AfterUnits(units, p0, 0, [], cfg);
    assert [] + Effects(units) == Effects(units);
  }

  lemma {:induction false} AllKnown(units: seq<Unit>, lookup: Argv -> Kind)
    requires LogOk(units, lookup)
    ensures forall i :: 0 <= i < |CommandsOf(units)| ==>
              WellFormed(CommandsOf(units)[i]) && lookup(CommandsOf(units)[i]) != Unknown
  {
    if units != [] {
      hide WellFormed;
      AllKnown(units[1..], lookup);
      var a, b := units[0].Commands(), CommandsOf(units[1..]);
      assert units[0].Ok(lookup);
      forall i | 0 <= i < |a + b| ensures WellFormed((a + b)[i]) && lookup((a + b)[i]) != Unknown {
        if i < |a| {
          assert a[i] in a;
        } else {
          assert (a + b)[i] == b[i - |a|];
        }
      }
    }
  }

  function KeptAt(units: seq<Unit>, n: nat, lookup: Argv -> Kind): (r: nat)
    requires n <= |Log(units)|
    ensures WholeUnits(units, n) < |units| ==> r <= CommandsBeforeCut(units, n)
  {
    var k, j := WholeUnits(units, n), CommandsBeforeCut(units, n);
    if k == |units| then 0
    else Kept(units[k], j, CutLength(units, n) == |EncodeAll(units[k].Commands()[..j])|, lookup)
  }

  lemma EncodeAllPrefix(cmds: seq<Argv>, i: nat, j: nat)
    requires i <= j <= |cmds|
    ensures |EncodeAll(cmds[..i])| <= |EncodeAll(cmds[..j])| <= |EncodeAll(cmds)|
    ensures EncodeAll(cmds)[..|EncodeAll(cmds[..i])|] == EncodeAll(cmds[..i])
  {
    hide EncodeAll;
    EncodeAllConcat(cmds[..i], cmds[i..j]);
    assert cmds[..j] == cmds[..i] + cmds[i..j];
    EncodeAllConcat(cmds[..j], cmds[j..]);
    assert cmds == cmds[..j] + cmds[j..];
  }

  lemma CutAgain(head: bytes, x: bytes, m: nat, l: nat)
    requires l <= m <= |x|
    ensures (head + x[..m])[..|head| + l] == head + x[..l]
  {
  }

  lemma LoadNothing(units: seq<Unit>, cfg: Config)
    ensures WholeUnits(units, 0) == 0 && CutLength(units, 0) == 0 && CommandsBeforeCut(units, 0) == 0
    ensures Log(units[..0]) == [] && Effects(units[..0]) == []
    ensures Load([], cfg) == Outcome(AofEmpty, [], [])
  {
    if units != [] {
      EncodeAllNotEmpty(units[0].Commands());
    }
  }

  lemma LoadEof(file: bytes, p: Progress, cfg: Config)
    requires !p.client.inMulti && Bounded(p, |file|)
    ensures LoadFrom([], file, p, cfg) == Outcome(AofOk, p.client.executed, file)
  {
  }

  /** Loading any byte prefix of a log: what runs, what is reported and what stays in the file. */
  lemma LoadPrefix(units: seq<Unit>, n: nat, cfg: Config)
    requires LogOk(units, cfg.lookup) && n <= |Log(units)| && cfg.loadTruncated && cfg.truncateOk
    ensures var k, m := WholeUnits(units, n), CutLength(units, n);
            var o := Load(Log(units)[..n], cfg);
            && o.executed == Effects(units[..k])
            && o.status == (if n == 0 then AofEmpty else if m == 0 then AofOk else AofTruncated)
            && (k == |units| ==> o.left == Log(units))
            && (k < |units| ==>
                  o.left == Log(units[..k]) + EncodeAll(units[k].Commands()[..KeptAt(units, n, cfg.lookup)]))
  {
    hide Log, EncodeAll, LoadFrom, Unit.Ok, Load, WholeUnits, WholeCommands, LastMulti;
    var k := WholeUnits(units, n);
    CutLog(units, n);
    LogStart(units);
    EncodeAllEmpty();
    if n == 0 {
      LoadNothing(units, cfg);
      assert Log(units)[..0] == [];
    } else if k == |units| {
      assert units[..k] == units && Log(units)[..n] == Log(units) + [];
      var p := LoadWholeUnits(units, [], cfg);
      LoadEof(Log(units), p, cfg);
    } else {
      LoadPrefixInUnit(units, n, cfg);
    }
  }

  lemma LoadPrefixInUnit(units: seq<Unit>, n: nat, cfg: Config)
    requires LogOk(units, cfg.lookup) && 0 < n <= |Log(units)| && cfg.loadTruncated && cfg.truncateOk
    requires WholeUnits(units, n) < |units|
    ensures var k, m := WholeUnits(units, n), CutLength(units, n);
            Load(Log(units)[..n], cfg)
            == Outcome(if m == 0 then AofOk else AofTruncated, Effects(units[..k]),
                       Log(units[..k]) + EncodeAll(units[k].Commands()[..KeptAt(units, n, cfg.lookup)]))
  {
    hide Log, EncodeAll, LoadFrom, Unit.Ok, Load, WholeUnits, WholeCommands, LastMulti;
    var k, m, j := WholeUnits(units, n), CutLength(units, n), CommandsBeforeCut(units, n);
    var file, head, cmds := Log(units)[..n], Log(units[..k]), units[k].Commands();
    CutLog(units, n);
    LogStart(units);
    var p := LoadWholeUnits(units[..k], EncodeAll(cmds)[..m], cfg);
    LoadCutUnit(units[k], m, file, p, Effects(units[..k]), cfg);
    var kept := KeptAt(units, n, cfg.lookup);
    EncodeAllPrefix(cmds, kept, j);
    CutAgain(head, EncodeAll(cmds), m, |EncodeAll(cmds[..kept])|);
  }

  // ---------------------------------------------------------------- main results

  /** Everything but an open transaction's dangling start is cut away exactly at a clean cut. */
  lemma KeptNothing(units: seq<Unit>, n: nat, lookup: Argv -> Kind)
    requires n <= |Log(units)|
    ensures KeptAt(units, n, lookup) == 0 <==> CleanCut(units, n, lookup)
  {
    var k, j := WholeUnits(units, n), CommandsBeforeCut(units, n);
    if k < |units| && j > 0 {
      hide EncodeAll, WholeUnits, WholeCommands, LastMulti;
      var cmds := units[k].Commands();
      assert forall i :: 1 <= i < j ==> cmds[i] == cmds[1..j][i - 1];
      assert forall i :: 0 <= i < j - 1 ==> cmds[1..j][i] == cmds[i + 1];
    }
  }

  /** For every byte prefix of a log, the loader runs exactly the whole commands and whole
      transactions it holds. The file it leaves holds exactly these too if and only if the cut is clean. */
  lemma PrefixRecovery(units: seq<Unit>, n: nat, cfg: Config)
    requires LogOk(units, cfg.lookup) && n <= |Log(units)| && cfg.loadTruncated && cfg.truncateOk
    ensures var whole := units[..WholeUnits(units, n)];
            var o := Load(Log(units)[..n], cfg);
            && o.executed == Effects(whole)
            && (o.left == Log(whole) <==> CleanCut(units, n, cfg.lookup))
            && o.status == (if n == 0 then AofEmpty else if n == |Log(whole)| then AofOk else AofTruncated)
  {
    hide Log, EncodeAll, Load, WholeUnits, KeptAt, CleanCut, Effects, LogOk;
    var k := WholeUnits(units, n);
    LoadPrefix(units, n, cfg);
    KeptNothing(units, n, cfg.lookup);
    EncodeAllEmpty();
    if k < |units| {
      var kept := KeptAt(units, n, cfg.lookup);
      if kept > 0 {
        EncodeAllNotEmpty(units[k].Commands()[..kept]);
      } else {
        assert units[k].Commands()[..0] == [];
      }
    } else {
      assert units[..k] == units;
      NothingCut(units, n, cfg.lookup);
    }
  }

  lemma NothingCut(units: seq<Unit>, n: nat, lookup: Argv -> Kind)
    requires n <= |Log(units)| && WholeUnits(units, n) == |units|
    ensures CleanCut(units, n, lookup)
  {
  }

  lemma WholeUnitsUnique(units: seq<Unit>, n: nat, k: nat)
    requires n <= |Log(units)| && k < |units|
    requires |Log(units[..k])| <= n < |Log(units[..k])| + |EncodeAll(units[k].Commands())|
    ensures WholeUnits(units, n) == k
  {
    hide Log, EncodeAll, WholeUnits;
    var w := WholeUnits(units, n);
    LogGrows(units, k);
    if w < k {
      LogGrows(units, w);
      LogMonotone(units, w + 1, k);
    } else if k < w {
      LogMonotone(units, k + 1, w);
    }
  }

  lemma LogGrows(units: seq<Unit>, k: nat)
    requires k < |units|
    ensures |Log(units[..k + 1])| == |Log(units[..k])| + |EncodeAll(units[k].Commands())|
  {
    hide EncodeAll;
    assert units[..k + 1] == units[..k] + [units[k]];
    LogConcat(units[..k], [units[k]]);
    LogOfFirst([units[k]]);
    EncodeAllEmpty();
  }

  lemma LogMonotone(units: seq<Unit>, i: nat, j: nat)
    requires i <= j <= |units|
    ensures |Log(units[..i])| <= |Log(units[..j])|
  {
    hide Log;
    assert units[..j] == units[..i] + units[i..j];
    LogConcat(units[..i], units[i..j]);
  }

  /** The file left by a load is again a prefix of the log, cut at `m` within the same unit. */
  lemma LeftIsPrefix(units: seq<Unit>, n: nat, cfg: Config)
    requires LogOk(units, cfg.lookup) && n <= |Log(units)| && cfg.loadTruncated && cfg.truncateOk
    ensures var m := |Load(Log(units)[..n], cfg).left|;
            && m <= n && Load(Log(units)[..n], cfg).left == Log(units)[..m]
            && WholeUnits(units, m) == WholeUnits(units, n)
  {
    hide Log, EncodeAll, Load, WholeUnits, KeptAt, Effects, LogOk;
    var k := WholeUnits(units, n);
    LoadPrefix(units, n, cfg);
    CutLog(units, n);
    if k == |units| {
      assert units[..k] == units;
      assert Log(units)[..n] == Log(units);
    } else {
      var cmds, kept := units[k].Commands(), KeptAt(units, n, cfg.lookup);
      var l := |EncodeAll(cmds[..kept])|;
      EncodeAllPrefix(cmds, kept, CommandsBeforeCut(units, n));
      WholeCommandsFit(units, n);
      CutAgain(Log(units[..k]), EncodeAll(cmds), CutLength(units, n), l);
      var m := |Log(units[..k])| + l;
      assert Log(units)[..n][..m] == Log(units)[..m];
      WholeUnitsUnique(units, m, k);
    }
  }

  lemma WholeCommandsFit(units: seq<Unit>, n: nat)
    requires n <= |Log(units)| && WholeUnits(units, n) < |units|
    ensures |EncodeAll(units[WholeUnits(units, n)].Commands()[..CommandsBeforeCut(units, n)])| <= CutLength(units, n)
  {
  }

  /** Loading the file a load left behind executes the same commands again. */
  lemma ReloadIsSame(units: seq<Unit>, n: nat, cfg: Config)
    requires LogOk(units, cfg.lookup) && n <= |Log(units)| && cfg.loadTruncated && cfg.truncateOk
    ensures var o := Load(Log(units)[..n], cfg);
            Load(o.left, cfg).executed == o.executed
  {
    hide *;
    LeftIsPrefix(units, n, cfg);
    LoadPrefix(units, n, cfg);
    LoadPrefix(units, |Load(Log(units)[..n], cfg).left|, cfg);
  }

  /** Commands appended to the file that recovery left. After a clean cut all of them are
      executed by the next load; otherwise the dangling transaction swallows them. */
  lemma AppendAfterRecovery(units: seq<Unit>, n: nat, more: seq<Unit>, cfg: Config)
    requires LogOk(units, cfg.lookup) && n <= |Log(units)| && cfg.loadTruncated && cfg.truncateOk
    requires LogOk(more, cfg.lookup) && CleanCut(units, n, cfg.lookup)
    ensures Load(Load(Log(units)[..n], cfg).left + Log(more), cfg).executed
         == Effects(units[..WholeUnits(units, n)]) + Effects(more)
  {
    hide Log, Load, WholeUnits, CleanCut, Effects;
    PrefixRecovery(units, n, cfg);
    var whole := units[..WholeUnits(units, n)];
    LogConcat(whole, more);
    EffectsConcat(whole, more);
    LoadWhole(whole + more, cfg);
  }

  lemma LoadWhole(units: seq<Unit>, cfg: Config)
    requires LogOk(units, cfg.lookup) && cfg.loadTruncated && cfg.truncateOk
    ensures Load(Log(units), cfg) == Outcome(if Log(units) == [] then AofEmpty else AofOk, Effects(units), Log(units))
  {
    hide *;
    LogStart(units);
    assert Log(units) + [] == Log(units);
    if Log(units) == [] {
      LoadNothing(units, cfg);
      NoUnits(units);
    } else {
      var p := LoadWholeUnits(units, [], cfg);
      IdleIs(p, |Log(units)|, Effects(units));
      LoadEof(Log(units), p, cfg);
    }
  }

  lemma NoUnits(units: seq<Unit>)
    requires Log(units) == []
    ensures Effects(units) == []
  {
    if units != [] {
      LogOfFirst(units);
      EncodeAllNotEmpty(units[0].Commands());
    }
  }

  lemma IdleIs(p: Progress, pos: nat, executed: seq<Argv>)
    requires Idle(p, pos, executed)
    ensures !p.client.inMulti && p.client.executed == executed
  {
  }

  lemma AppendToDanglingBlock(units: seq<Unit>, n: nat, c: Argv, cfg: Config)
    requires LogOk(units, cfg.lookup) && n <= |Log(units)| && cfg.loadTruncated && cfg.truncateOk
    requires Single(c).Ok(cfg.lookup) && !CleanCut(units, n, cfg.lookup)
    ensures Load(Load(Log(units)[..n], cfg).left + Encode(c), cfg).executed == Effects(units[..WholeUnits(units, n)])
  {
    hide Log, EncodeAll, Encode, Load, WholeUnits, KeptAt, CleanCut, Effects;
    var k, kept := WholeUnits(units, n), KeptAt(units, n, cfg.lookup);
    LoadPrefix(units, n, cfg);
    KeptNothing(units, n, cfg.lookup);
    if k == |units| {
      NothingCut(units, n, cfg.lookup);
    } else {
      DanglingBlock(units[..k], units[k], kept, c, cfg);
      Assoc(Log(units[..k]), EncodeAll(units[k].Commands()[..kept]), Encode(c));
    }
  }

  lemma DanglingBlock(whole: seq<Unit>, u: Unit, i: nat, c: Argv, cfg: Config)
    requires LogOk(whole, cfg.lookup) && u.Ok(cfg.lookup) && cfg.loadTruncated && cfg.truncateOk
    requires 0 < i < |u.Commands()| && Single(c).Ok(cfg.lookup)
    ensures Load(Log(whole) + (EncodeAll(u.Commands()[..i]) + Encode(c)), cfg).executed == Effects(whole)
  {
    hide Log, EncodeAll, Encode, Load, LoadFrom, After, LastMulti;
    var cmds := u.Commands()[..i];
    var tail := EncodeAll(cmds) + Encode(c);
    var file := Log(whole) + tail;
    EncodeAllNotEmpty(cmds);
    LogStart(whole);
    var p := LoadWholeUnits(whole, tail, cfg);
    assert forall x :: 0 <= x < |cmds| ==> cmds[x] in u.Commands();
    assert c in Single(c).Commands();
    LoadThrough(cmds, Encode(c), file, p, |Log(whole)|, cfg);
    var q := After(p, cmds, |Log(whole)|, cfg);
    OpenBlockAfter(u, i, p, |Log(whole)|, Effects(whole), cfg);
    LoadQueuedLast(c, file, q, cfg);
  }

  lemma LoadQueuedLast(c: Argv, file: bytes, p: Progress, cfg: Config)
    requires WellFormed(c) && cfg.lookup(c) == Other && p.client.inMulti
    requires |Encode(c)| <= |file| && Bounded(p, |file| - |Encode(c)|)
    ensures LoadFrom(Encode(c), file, p, cfg).executed == p.client.executed
  {
    hide Encode, Parse;
    assert Encode(c) + [] == Encode(c);
    ParseComplete(c, []);
    var q := Advance(p, c, |file|, cfg);
    assert q.client.inMulti && q.client.executed == p.client.executed;
    ParseEmpty();
  }

  lemma ParseEmpty()
    ensures Parse([]) == Eof
  {
  }

  /** What recovery leaves can be appended to, for every continuation, exactly after a clean cut. */
  lemma AppendableIffClean(units: seq<Unit>, n: nat, c: Argv, cfg: Config)
    requires LogOk(units, cfg.lookup) && n <= |Log(units)| && cfg.loadTruncated && cfg.truncateOk
    requires Single(c).Ok(cfg.lookup)
    ensures CleanCut(units, n, cfg.lookup) <==>
            forall more | LogOk(more, cfg.lookup) ::
              Load(Load(Log(units)[..n], cfg).left + Log(more), cfg).executed
              == Effects(units[..WholeUnits(units, n)]) + Effects(more)
  {
    hide Log, Load, WholeUnits, CleanCut, Effects, Encode;
    if CleanCut(units, n, cfg.lookup) {
      forall more | LogOk(more, cfg.lookup)
        ensures Load(Load(Log(units)[..n], cfg).left + Log(more), cfg).executed
             == Effects(units[..WholeUnits(units, n)]) + Effects(more)
      {
        AppendAfterRecovery(units, n, more, cfg);
      }
    } else {
      AppendToDanglingBlock(units, n, c, cfg);
      OneCommandLog(c);
      assert LogOk([Single(c)], cfg.lookup);
    }
  }

  lemma OneCommandLog(c: Argv)
    ensures Log([Single(c)]) == Encode(c) && Effects([Single(c)]) == [c]
  {
    hide Encode;
    LogOfFirst([Single(c)]);
    assert EncodeAll([c]) == Encode(c) + EncodeAll([c][1..]);
  }

  /** A transaction cut one byte before its end is not a clean cut: recovery leaves it dangling. */
  lemma TransactionCutInExec(u: Unit, lookup: Argv -> Kind)
    requires u.Block?
    ensures |Log([u])| > 0 && !CleanCut([u], |Log([u])| - 1, lookup)
  {
    hide Encode, EncodeAll, WholeUnits, WholeCommands;
    var cmds, n := u.Commands(), |Log([u])| - 1;
    LogOfFirst([u]);
    EncodeAllEmpty();
    EncodeAllNotEmpty(cmds);
    var k := WholeUnits([u], n);
    assert k == 0;
    assert [u][..0] == [];
    var j := WholeCommands(cmds, n);
    assert cmds[..|cmds|] == cmds;
    assert j < |cmds|;
    LastCommandLength(cmds, j);
    assert cmds[..0] == [];
  }

  lemma LastCommandLength(cmds: seq<Argv>, j: nat)
    requires j < |cmds| && |cmds| >= 2
    ensures |EncodeAll(cmds)| >= |EncodeAll(cmds[..j])| + |Encode(cmds[j])|
    ensures |Encode(cmds[j])| >= 4
    ensures j == 0 ==> |EncodeAll(cmds)| >= |Encode(cmds[0])| + 4
  {
    hide EncodeAll;
    EncodeAllConcat(cmds[..j], cmds[j..]);
    assert cmds == cmds[..j] + cmds[j..];
    EncodeFirst(cmds[j..]);
    if j == 0 {
      EncodeFirst(cmds[j..][1..]);
    }
  }

  lemma EncodeFirst(cmds: seq<Argv>)
    requires cmds != []
    ensures |EncodeAll(cmds)| == |Encode(cmds[0])| + |EncodeAll(cmds[1..])| && |Encode(cmds[0])| >= 4
  {
  }

  // ---------------------------------------------------------------- all files of a manifest

  /** Per file: the commands it executed and the bytes it holds afterwards. */
  datatype FilesOutcome = FilesOutcome(status: Status, executed: seq<seq<Argv>>, left: seq<bytes>)

  function FileStatus(s: Status, lastFile: bool): Status {
    if s == AofEmpty then AofOk
    else if s == AofTruncated && !lastFile then AofFailed
    else s
  }

  predicate Stops(s: Status) {
    s == AofFailed || s == Aborted || s == RdbPreamble
  }

  function LoadFilesFrom(files: seq<bytes>, cfg: Config): FilesOutcome
    decreases files
  {
    if files == [] then FilesOutcome(AofOk, [], []) else
      var o := Load(files[0], cfg);
      var st := FileStatus(o.status, |files| == 1);
      if Stops(st) || |files| == 1 then FilesOutcome(st, [o.executed], [o.left] + files[1..])
      else
        var r := LoadFilesFrom(files[1..], cfg);
        FilesOutcome(r.status, [o.executed] + r.executed, [o.left] + r.left)
  }

  function TotalSize(files: seq<bytes>): nat {
    if files == [] then 0 else |files[0]| + TotalSize(files[1..])
  }

  /** BASE file first, then the INCR files in manifest order, each read by a fresh client. */
  function LoadFiles(files: seq<bytes>, cfg: Config): FilesOutcome {
    if TotalSize(files) == 0 then FilesOutcome(AofEmpty, [], files) else LoadFilesFrom(files, cfg)
  }

  /** loadAppendOnlyFiles on the files that a manifest names. */
  method LoadAppendOnlyFiles(files: seq<bytes>, cfg: Config) returns (o: FilesOutcome)
    ensures o == LoadFiles(files, cfg)
  {
    var total := 0;
    for i := 0 to |files|
      invariant TotalSize(files) == total + TotalSize(files[i..])
    {
      total := total + |files[i]|;
      assert files[i..][1..] == files[i + 1..];
    }
    if total == 0 { return FilesOutcome(AofEmpty, [], files); }
    var executed, left, n := [], [], 0;
    assert files[0..] == files;
    while n < |files|
      invariant n <= |files|
      invariant LoadFilesFrom(files, cfg) == Following(executed, left, LoadFilesFrom(files[n..], cfg))
    {
      hide Load;
      var r := LoadSingleFile(files[n], cfg);
      var st := FileStatus(r.status, n + 1 == |files|);
      assert files[n..][1..] == files[n + 1..];
      if Stops(st) || n + 1 == |files| {
        return FilesOutcome(st, executed + [r.executed], left + ([r.left] + files[n + 1..]));
      }
      PutFirst(executed, left, r.executed, r.left, LoadFilesFrom(files[n + 1..], cfg));
      executed, left, n := executed + [r.executed], left + [r.left], n + 1;
    }
    o := FilesOutcome(AofOk, executed, left);
    assert executed + [] == executed && left + [] == left;
  }

  ghost function Following(executed: seq<seq<Argv>>, left: seq<bytes>, r: FilesOutcome): FilesOutcome {
    FilesOutcome(r.status, executed + r.executed, left + r.left)
  }

  lemma PutFirst(executed: seq<seq<Argv>>, left: seq<bytes>, e: seq<Argv>, l: bytes, r: FilesOutcome)
    ensures Following(executed, left, FilesOutcome(r.status, [e] + r.executed, [l] + r.left))
         == Following(executed + [e], left + [l], r)
  {
    Assoc(executed, [e], r.executed);
    Assoc(left, [l], r.left);
  }

  function LogFiles(logs: seq<seq<Unit>>): seq<bytes> {
    if logs == [] then [] else [Log(logs[0])] + LogFiles(logs[1..])
  }

  function EffectsPerFile(logs: seq<seq<Unit>>): seq<seq<Argv>> {
    if logs == [] then [] else [Effects(logs[0])] + EffectsPerFile(logs[1..])
  }

  ghost predicate LogsOk(logs: seq<seq<Unit>>, lookup: Argv -> Kind) {
    forall i :: 0 <= i < |logs| ==> LogOk(logs[i], lookup)
  }

  /** With the last file cut anywhere, all earlier files and the whole units of the last are executed;
      with any other file cut inside a unit, the load fails. */
  lemma {:induction false} FilesRecovery(logs: seq<seq<Unit>>, units: seq<Unit>, n: nat, rest: seq<bytes>, cfg: Config)
    requires LogsOk(logs, cfg.lookup) && LogOk(units, cfg.lookup) && n <= |Log(units)|
    requires cfg.loadTruncated && cfg.truncateOk
    ensures var whole := units[..WholeUnits(units, n)];
            var r := LoadFilesFrom(LogFiles(logs) + ([Log(units)[..n]] + rest), cfg);
            && (rest == [] ==>
                  && r.executed == EffectsPerFile(logs) + [Effects(whole)]
                  && r.status == (if n == |Log(whole)| then AofOk else AofTruncated))
            && (rest != [] && n != |Log(whole)| ==> r.status == AofFailed)
    decreases logs
  {
    hide *;
    if logs == [] {
      FilesRecoveryLast(logs, units, n, rest, cfg);
    } else {
      FilesRecoveryStep(logs, [Log(units)[..n]] + rest, cfg);
      FilesRecovery(logs[1..], units, n, rest, cfg);
    }
  }

  lemma FilesRecoveryLast(logs: seq<seq<Unit>>, units: seq<Unit>, n: nat, rest: seq<bytes>, cfg: Config)
    requires logs == [] && LogOk(units, cfg.lookup) && n <= |Log(units)|
    requires cfg.loadTruncated && cfg.truncateOk
    ensures var whole := units[..WholeUnits(units, n)];
            var r := LoadFilesFrom(LogFiles(logs) + ([Log(units)[..n]] + rest), cfg);
            && (rest == [] ==>
                  && r.executed == EffectsPerFile(logs) + [Effects(whole)]
                  && r.status == (if n == |Log(whole)| then AofOk else AofTruncated))
            && (rest != [] && n != |Log(whole)| ==> r.status == AofFailed)
  {
    hide Log, Load, LogOk, Effects, WholeUnits;
    var files := [Log(units)[..n]] + rest;
    assert LogFiles(logs) + files == files;
    assert files[0] == Log(units)[..n] && files[1..] == rest;
    PrefixRecovery(units, n, cfg);
    assert n == 0 ==> Log(units[..WholeUnits(units, n)]) == [];
  }

  lemma FilesRecoveryStep(logs: seq<seq<Unit>>, tail: seq<bytes>, cfg: Config)
    requires logs != [] && tail != [] && LogsOk(logs, cfg.lookup) && cfg.loadTruncated && cfg.truncateOk
    ensures LogsOk(logs[1..], cfg.lookup)
    ensures var r, q := LoadFilesFrom(LogFiles(logs) + tail, cfg), LoadFilesFrom(LogFiles(logs[1..]) + tail, cfg);
            && r.status == q.status
            && forall x :: q.executed == EffectsPerFile(logs[1..]) + x ==> r.executed == EffectsPerFile(logs) + x
  {
    hide Log, Load, LogOk, Effects;
    var files := LogFiles(logs) + tail;
    LoadWhole(logs[0], cfg);
    assert files[0] == Log(logs[0]) && files[1..] == LogFiles(logs[1..]) + tail;
    forall x | LoadFilesFrom(files[1..], cfg).executed == EffectsPerFile(logs[1..]) + x
      ensures LoadFilesFrom(files, cfg).executed == EffectsPerFile(logs) + x
    {
      Assoc([Effects(logs[0])], EffectsPerFile(logs[1..]), x);
    }
  }
}
