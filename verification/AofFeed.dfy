/** Feeding commands to the append-only file: SELECT insertion per database, and the
    split of the command stream into INCR files at every rewrite. */
module AofFeed {
  import opened Bytes
  import opened Resp

  /** What happens to the stream: a command is fed for a database (-1: none), a SELECT is forced
      for the next command, or a new INCR file becomes the one written to. */
  datatype Event = Feed(db: int, argv: Argv) | Reselect | NewFile

  /** Commands written to each INCR file, the last file being open, and aof_selected_db. */
  datatype Stream = Stream(files: seq<seq<Argv>>, selected: int)

  const SELECT: bytes := [83, 69, 76, 69, 67, 84]

  function SelectCommand(db: nat): Argv {
    [SELECT, Digits(db)]
  }

  function Upper(s: bytes): bytes {
    seq(|s|, i requires 0 <= i < |s| => if 97 <= s[i] <= 122 then s[i] - 32 else s[i])
  }

  predicate IsSelect(argv: Argv) {
    |argv| == 2 && Upper(argv[0]) == SELECT
  }

  /** The commands feedAppendOnlyFile writes for one fed command. */
  function FeedCommands(selected: int, db: int, argv: Argv): seq<Argv>
    requires db >= -1
  {
    (if db != -1 && db != selected then [SelectCommand(db)] else []) + [argv]
  }

  function SelectedAfter(selected: int, db: int): int {
    if db != -1 then db else selected
  }

  ghost predicate Feedable(e: Event) {
    e.Feed? ==> -1 <= e.db < 0x8000_0000 && WellFormed(e.argv) && !IsSelect(e.argv)
  }

  function Apply(s: Stream, e: Event): (r: Stream)
    requires s.files != [] && (e.Feed? ==> e.db >= -1)
    ensures r.files != []
  {
    match e
    case Feed(db, argv) =>
      var last := |s.files| - 1;
      Stream(s.files[last := s.files[last] + FeedCommands(s.selected, db, argv)], SelectedAfter(s.selected, db))
    case Reselect => s.(selected := -1)
    case NewFile => Stream(s.files + [[]], -1)
  }

  /** The stream after a run of events on a server that just opened its INCR file. */
  ghost function Run(events: seq<Event>): (r: Stream)
    requires forall i :: 0 <= i < |events| ==> Feedable(events[i])
    ensures r.files != []
  {
    if events == [] then Stream([[]], -1)
    else
      var n := |events| - 1;
      assert Feedable(events[n]);
      Apply(Run(events[..n]), events[n])
  }

  /** The fed commands, per INCR file they fall into. */
  ghost function Fed(events: seq<Event>): (r: seq<seq<Event>>)
    ensures r != []
  {
    if events == [] then [[]] else
      var n := |events| - 1;
      var r := Fed(events[..n]);
      match events[n]
      case Feed(_, _) => r[|r| - 1 := r[|r| - 1] + [events[n]]]
      case Reselect => r
      case NewFile => r + [[]]
  }

  // ---------------------------------------------------------------- replay

  datatype Replayed = Replayed(db: int, argv: Argv)

  /** The database a client starting in database 0 is in after `cmds`. */
  function DbAfter(cmds: seq<Argv>): int {
    if cmds == [] then 0 else
      var n := |cmds| - 1;
      if IsSelect(cmds[n]) then ParseInt(cmds[n][1]) else DbAfter(cmds[..n])
  }

  /** The commands other than SELECT, each with the database it runs in. */
  function Replay(cmds: seq<Argv>): seq<Replayed> {
    if cmds == [] then [] else
      var n := |cmds| - 1;
      Replay(cmds[..n]) + (if IsSelect(cmds[n]) then [] else [Replayed(DbAfter(cmds[..n]), cmds[n])])
  }

  /** The same commands in the same order, each in its intended database. */
  ghost predicate Faithful(fed: seq<Event>, replayed: seq<Replayed>) {
    && |fed| == |replayed|
    && forall i :: 0 <= i < |fed| ==>
         && fed[i].Feed?
         && replayed[i].argv == fed[i].argv
         && (fed[i].db != -1 ==> replayed[i].db == fed[i].db)
  }

  /** The loader's reader applied again and again until the file is used up or stops parsing. */
  function ReadAll(s: bytes): seq<Argv>
    decreases |s|
  {
    match Parse(s)
    case Command(argv, rest) => [argv] + ReadAll(rest)
    case Annotation(rest) => ReadAll(rest)
    case _ => []
  }

  lemma {:induction false} ReadAllOfEncoded(cmds: seq<Argv>)
    requires forall i :: 0 <= i < |cmds| ==> WellFormed(cmds[i])
    ensures ReadAll(EncodeAll(cmds)) == cmds
  {
    if cmds != [] {
      hide Encode, Parse, WellFormed;
      ParseComplete(cmds[0], EncodeAll(cmds[1..]));
      ReadAllOfEncoded(cmds[1..]);
      assert [cmds[0]] + cmds[1..] == cmds;
    }
  }

  lemma SelectIsWellFormed(db: nat)
    requires db < 0x8000_0000
    ensures WellFormed(SelectCommand(db)) && IsSelect(SelectCommand(db)) && ParseInt(SelectCommand(db)[1]) == db
  {
    ShortNumbers(db);
    ParseIntOfDigits(db, []);
    assert Digits(db) + [] == Digits(db);
    assert Upper(SELECT) == SELECT;
  }

  lemma ReplaySnoc(cmds: seq<Argv>, c: Argv)
    ensures IsSelect(c) ==> Replay(cmds + [c]) == Replay(cmds) && DbAfter(cmds + [c]) == ParseInt(c[1])
    ensures !IsSelect(c) ==> Replay(cmds + [c]) == Replay(cmds) + [Replayed(DbAfter(cmds), c)]
    ensures !IsSelect(c) ==> DbAfter(cmds + [c]) == DbAfter(cmds)
  {
    hide IsSelect, ParseInt;
    assert (cmds + [c])[..|cmds|] == cmds;
    assert Replay(cmds) + [] == Replay(cmds);
  }

  /** One file of the stream while it is being written. */
  ghost predicate FileOk(cmds: seq<Argv>, fed: seq<Event>) {
    && Faithful(fed, Replay(cmds))
    && forall i :: 0 <= i < |cmds| ==> WellFormed(cmds[i])
  }

  ghost predicate SelectedOk(cmds: seq<Argv>, selected: int) {
    selected == -1 || DbAfter(cmds) == selected
  }

  /** Feeding one command keeps the open file faithful and aof_selected_db truthful. */
  lemma FeedKeeps(cmds: seq<Argv>, fed: seq<Event>, selected: int, e: Event)
    requires FileOk(cmds, fed) && SelectedOk(cmds, selected) && e.Feed? && Feedable(e)
    ensures var after := cmds + FeedCommands(selected, e.db, e.argv);
            FileOk(after, fed + [e]) && SelectedOk(after, SelectedAfter(selected, e.db))
  {
    hide WellFormed, Replay, DbAfter, SelectCommand, ParseInt, IsSelect;
    var mid := cmds;
    if e.db != -1 && e.db != selected {
      SelectIsWellFormed(e.db);
      ReplaySnoc(cmds, SelectCommand(e.db));
      mid := cmds + [SelectCommand(e.db)];
      assert cmds + ([SelectCommand(e.db)] + [e.argv]) == mid + [e.argv];
    } else {
      assert [] + [e.argv] == [e.argv];
    }
    ReplaySnoc(mid, e.argv);
  }

  ghost predicate StreamOk(s: Stream, fed: seq<seq<Event>>) {
    && |s.files| == |fed| > 0
    && (forall i :: 0 <= i < |fed| ==> FileOk(s.files[i], fed[i]))
    && SelectedOk(s.files[|fed| - 1], s.selected)
  }

  lemma {:induction false} RunIsOk(events: seq<Event>)
    requires forall i :: 0 <= i < |events| ==> Feedable(events[i])
    ensures StreamOk(Run(events), Fed(events))
  {
    if events != [] {
      hide FileOk, SelectedOk, FeedCommands;
      var n := |events| - 1;
      var e := events[n];
      assert Feedable(e);
      RunIsOk(events[..n]);
      var s, fed := Run(events[..n]), Fed(events[..n]);
      match e {
        case Feed(_, _) => FeedKeeps(s.files[|fed| - 1], fed[|fed| - 1], s.selected, e);
        case Reselect => NothingSelected(s.files[|fed| - 1]);
        case NewFile => NewFileOk();
      }
    } else {
      NewFileOk();
    }
  }

  lemma NothingSelected(cmds: seq<Argv>)
    ensures SelectedOk(cmds, -1)
  {
  }

  lemma NewFileOk()
    ensures FileOk([], []) && SelectedOk([], -1)
  {
  }

  /** For every run of feeds split anywhere into INCR files, reading each file's bytes with a fresh
      client recovers exactly the commands fed while it was open, each in its intended database. */
  lemma FeedLoadRoundTrip(events: seq<Event>, i: nat)
    requires forall j :: 0 <= j < |events| ==> Feedable(events[j])
    requires i < |Run(events).files|
    ensures |Fed(events)| == |Run(events).files|
    ensures Faithful(Fed(events)[i], Replay(ReadAll(EncodeAll(Run(events).files[i]))))
  {
    hide Run, Fed, Replay, EncodeAll, ReadAll, WellFormed, Feedable, Faithful;
    RunIsOk(events);
    assert FileOk(Run(events).files[i], Fed(events)[i]);
    ReadAllOfEncoded(Run(events).files[i]);
  }

  // ---------------------------------------------------------------- the server's fields

  lemma EncodeAllSnoc(cmds: seq<Argv>, c: Argv)
    ensures EncodeAll(cmds + [c]) == EncodeAll(cmds) + Encode(c)
  {
    hide Encode;
    EncodeAllConcat(cmds, [c]);
    assert EncodeAll([c]) == Encode(c) + EncodeAll([c][1..]);
  }

  /** "*2\r\n$6\r\nSELECT\r\n" */
  const SELECT_HEAD: bytes := [42, 50, 13, 10, 36, 54, 13, 10, 83, 69, 76, 69, 67, 84, 13, 10]

  lemma SelectText(db: nat)
    ensures Encode(SelectCommand(db)) == SELECT_HEAD + Bulk(Digits(db))
  {
    hide *;
    SelectHead();
    EncodePair(SELECT, Digits(db));
    assert SelectCommand(db) == [SELECT, Digits(db)] by { SelectIs(db); }
  }

  lemma SelectIs(db: nat)
    ensures SelectCommand(db) == [SELECT, Digits(db)]
  {
  }

  lemma SelectHead()
    ensures Header(2) + Bulk(SELECT) == SELECT_HEAD
  {
    assert Digits(2) == [50] && Digits(6) == [54];
  }

  lemma EncodePair(a: bytes, b: bytes)
    ensures Encode([a, b]) == Header(2) + Bulk(a) + Bulk(b)
  {
    hide Bulk, Header;
    var ab := [a, b];
    assert ab[1..] == [b];
    assert [b][1..] == ab[2..];
    assert Bulks(ab) == Bulk(a) + Bulks([b]);
  }

  /** The text feedAppendOnlyFile appends: a SELECT if the database changes, then the command. */
  method FormatCommand(selected: int, dictid: int, argv: Argv) returns (local: bytes)
    requires Feedable(Feed(dictid, argv))
    ensures local == EncodeAll(FeedCommands(selected, dictid, argv))
  {
    hide Encode, EncodeAll, Digits, WellFormed;
    local := [];
    if dictid != -1 && dictid != selected {
      var seldb := Digits(dictid);
      local := local + (SELECT_HEAD + ([36] + Digits(|seldb|) + CRLF + seldb + CRLF));
      SelectText(dictid);
      EncodeTwo(SelectCommand(dictid), argv);
    } else {
      EncodeOne(argv);
    }
    local := CatGenericCommand(local, argv);
  }

  /** aof_buf, aof_selected_db and the INCR files of a server whose AOF is on. */
  class AofStream {
    var closed: seq<bytes>
    var current: bytes
    var buf: bytes
    var selectedDb: int
    ghost var events: seq<Event>

    /** Each INCR file, together with the buffer for the open one, holds the stream's commands. */
    ghost predicate Valid()
      reads this
    {
      && (forall i :: 0 <= i < |events| ==> Feedable(events[i]))
      && var s := Run(events);
      && |s.files| == |closed| + 1
      && (forall i :: 0 <= i < |closed| ==> closed[i] == EncodeAll(s.files[i]))
      && current + buf == EncodeAll(s.files[|closed|])
      && selectedDb == s.selected
    }

    constructor ()
      ensures Valid() && events == [] && closed == [] && current == [] && buf == [] && selectedDb == -1
    {
      closed, current, buf, selectedDb := [], [], [], -1;
      events := [];
    }

    /** feedAppendOnlyFile */
    method FeedCommand(dictid: int, argv: Argv)
      requires Valid() && Feedable(Feed(dictid, argv))
      modifies this
      ensures Valid() && events == old(events) + [Feed(dictid, argv)]
      ensures closed == old(closed) && current == old(current)
      ensures selectedDb == SelectedAfter(old(selectedDb), dictid)
      ensures buf == old(buf) + EncodeAll(FeedCommands(old(selectedDb), dictid, argv))
    {
      hide EncodeAll, FeedCommands, WellFormed, IsSelect, Run;
      ghost var e := Feed(dictid, argv);
      ghost var s := Run(events);
      ghost var cmds := FeedCommands(selectedDb, dictid, argv);
      var local := FormatCommand(selectedDb, dictid, argv);
      if dictid != -1 && dictid != selectedDb {
        selectedDb := dictid;
      }
      Appended(current, buf, local);
      buf := buf + local;
      RunSnoc(events, e);
      events := events + [e];
      EncodeAllConcat(s.files[|closed|], cmds);
    }

    /** rewriteAppendOnlyFileBackground up to the fork: force a SELECT, write the whole buffer out
        and, when the new file can be opened and recorded, switch to it. */
    method StartRewrite(switched: bool)
      requires Valid()
      modifies this
      ensures Valid() && events == old(events) + [if switched then NewFile else Reselect]
      ensures buf == [] && selectedDb == -1
      ensures switched ==> closed == old(closed) + [old(current) + old(buf)] && current == []
      ensures !switched ==> closed == old(closed) && current == old(current) + old(buf)
    {
      hide EncodeAll, WellFormed, Run;
      RunSnoc(events, if switched then NewFile else Reselect);
      selectedDb := -1;
      current, buf := current + buf, [];
      if switched {
        closed, current := closed + [current], [];
        EncodeAllNone();
      }
      events := events + [if switched then NewFile else Reselect];
      assert current + buf == current;
    }

    /** flushAppendOnlyFile when the write succeeds. */
    method Flush()
      requires Valid()
      modifies this
      ensures Valid() && buf == [] && current == old(current) + old(buf)
      ensures closed == old(closed) && selectedDb == old(selectedDb) && events == old(events)
    {
      current, buf := current + buf, [];
      assert current + buf == current;
    }

    /** The part of a successful backgroundRewriteDoneHandler that concerns the stream. */
    method RewriteDone()
      requires Valid()
      modifies this
      ensures Valid() && events == old(events) + [Reselect] && selectedDb == -1
      ensures closed == old(closed) && current == old(current) && buf == old(buf)
    {
      hide EncodeAll, WellFormed, Run;
      RunSnoc(events, Reselect);
      selectedDb := -1;
      events := events + [Reselect];
    }

    /** In every state, every INCR file (the open one with its buffer) reads back as what was fed. */
    lemma FilesReadBack(i: nat)
      requires Valid() && i <= |closed|
      ensures |Fed(events)| == |closed| + 1
      ensures Faithful(Fed(events)[i], Replay(ReadAll(if i < |closed| then closed[i] else current + buf)))
    {
      hide EncodeAll, WellFormed, Run, Fed, Faithful, Replay, ReadAll;
      FeedLoadRoundTrip(events, i);
    }
  }

  lemma EncodeOne(c: Argv)
    ensures EncodeAll([] + [c]) == [] + Encode(c)
  {
    hide Encode;
    EncodeAllSnoc([], c);
  }

  lemma EncodeTwo(a: Argv, b: Argv)
    ensures EncodeAll([a] + [b]) == [] + Encode(a) + Encode(b)
  {
    hide Encode;
    EncodeAllSnoc([a], b);
    EncodeAllSnoc([], a);
    assert [] + [a] == [a];
  }

  lemma EncodeAllNone()
    ensures EncodeAll([]) == []
  {
  }

  lemma Appended(a: bytes, b: bytes, c: bytes)
    ensures a + (b + c) == (a + b) + c
  {
  }

  lemma RunSnoc(events: seq<Event>, e: Event)
    requires forall i :: 0 <= i < |events| ==> Feedable(events[i])
    requires Feedable(e)
    ensures forall i :: 0 <= i < |events + [e]| ==> Feedable((events + [e])[i])
    ensures Run(events + [e]) == Apply(Run(events), e)
  {
    assert (events + [e])[..|events|] == events;
  }
}
