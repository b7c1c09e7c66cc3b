/** Crash safety of the background rewrite: the files on disk, the durable manifest and the server
    that changes them system call by system call. */
module AofRewrite {
  import opened Bytes
  import opened AofManifest
  import opened Collections

  /** Content of an AOF file: a dataset snapshot (BASE) or a log of commands (INCR). */
  datatype File<+D, +C> = Snapshot(data: D) | Log(cmds: seq<C>)

  /** A file in the AOF directory, or the rewrite child's temporary file. */
  datatype Path = InDir(name: bytes) | Temp(pid: nat)

  /** Applying commands in order. */
  function Fold<D, C>(apply: (D, C) -> D, d: D, cmds: seq<C>): D {
    if cmds == [] then d else apply(Fold(apply, d, cmds[..|cmds| - 1]), cmds[|cmds| - 1])
  }

  lemma {:induction false} FoldConcat<D, C>(apply: (D, C) -> D, d: D, a: seq<C>, b: seq<C>)
    ensures Fold(apply, d, a + b) == Fold(apply, Fold(apply, d, a), b)
  {
    if b == [] {
      assert a + b == a;
    } else {
      var n := |b| - 1;
      assert (a + b)[..|a + b| - 1] == a + b[..n];
      FoldConcat(apply, d, a, b[..n]);
    }
  }

  // ---------------------------------------------------------------- what a restart loads

  function LoadBase<D, C>(files: map<Path, File<D, C>>, base: Option<AofInfo>, empty: D): Option<D> {
    if base.None? then Some(empty)
    else
      var p := InDir(base.value.name);
      if p in files && files[p].Snapshot? then Some(files[p].data) else None
  }

  function LoadIncrs<D, C>(files: map<Path, File<D, C>>, incr: seq<AofInfo>, start: Option<D>,
                           apply: (D, C) -> D): Option<D> {
    if incr == [] then start else
      var n := |incr| - 1;
      var d := LoadIncrs(files, incr[..n], start, apply);
      var p := InDir(incr[n].name);
      if d.Some? && p in files && files[p].Log? then Some(Fold(apply, d.value, files[p].cmds)) else None
  }

  /** The dataset obtained by loading the BASE and then the INCR files of a manifest. */
  function Recover<D, C>(files: map<Path, File<D, C>>, m: Manifest, empty: D, apply: (D, C) -> D): Option<D> {
    LoadIncrs(files, m.incr, LoadBase(files, m.base, empty), apply)
  }

  /** The files a load of this manifest reads. */
  predicate Live(m: Manifest, p: Path) {
    || (m.base.Some? && p == InDir(m.base.value.name))
    || exists i :: 0 <= i < |m.incr| && p == InDir(m.incr[i].name)
  }

  lemma {:induction false} LoadIncrsFrame<D, C>(files: map<Path, File<D, C>>, other: map<Path, File<D, C>>,
                                                incr: seq<AofInfo>, start: Option<D>, apply: (D, C) -> D)
    requires forall i :: 0 <= i < |incr| ==>
               var p := InDir(incr[i].name);
               (p in files <==> p in other) && (p in files ==> files[p] == other[p])
    ensures LoadIncrs(files, incr, start, apply) == LoadIncrs(other, incr, start, apply)
  {
    if incr != [] {
      LoadIncrsFrame(files, other, incr[..|incr| - 1], start, apply);
    }
  }

  /** Changing files that are not live does not change what a restart loads. */
  lemma RecoverFrame<D, C>(files: map<Path, File<D, C>>, other: map<Path, File<D, C>>, m: Manifest, empty: D,
                           apply: (D, C) -> D)
    requires forall p :: Live(m, p) ==> (p in files <==> p in other) && (p in files ==> files[p] == other[p])
    ensures Recover(files, m, empty, apply) == Recover(other, m, empty, apply)
  {
    assert m.base.Some? ==> Live(m, InDir(m.base.value.name));
    forall i | 0 <= i < |m.incr|
      ensures var p := InDir(m.incr[i].name);
              (p in files <==> p in other) && (p in files ==> files[p] == other[p])
    {
      assert Live(m, InDir(m.incr[i].name));
    }
    LoadIncrsFrame(files, other, m.incr, LoadBase(files, m.base, empty), apply);
  }

  /** A disk that recovers has every live file, each of the right kind. */
  lemma {:induction false} LoadedFilesExist<D, C>(files: map<Path, File<D, C>>, incr: seq<AofInfo>, start: Option<D>,
                                                  apply: (D, C) -> D, i: nat)
    requires LoadIncrs(files, incr, start, apply).Some? && i < |incr|
    ensures start.Some? && InDir(incr[i].name) in files && files[InDir(incr[i].name)].Log?
    decreases |incr|
  {
    if i < |incr| - 1 {
      LoadedFilesExist(files, incr[..|incr| - 1], start, apply, i);
    } else if |incr| > 1 {
      LoadedFilesExist(files, incr[..|incr| - 1], start, apply, 0);
    }
  }

  // ---------------------------------------------------------------- the disk

  /** The disk at one instant, with the commands flushed until then and their dataset. */
  datatype Instant<D, C> = Instant(files: map<Path, File<D, C>>, durable: Manifest, flushed: D, log: seq<C>)

  /** A crash at this instant loses nothing that was flushed, and the server can start again. */
  ghost predicate InstantSafe<D, C>(t: Instant<D, C>, prefix: bytes, empty: D, apply: (D, C) -> D) {
    && Recover(t.files, t.durable, empty, apply) == Some(t.flushed)
    && Ok(prefix, t.durable) && t.durable.incr != []
  }

  /** All instants are safe, and the commands flushed become more and more, all applied to the same first dataset. */
  ghost predicate TraceOk<D, C>(trace: seq<Instant<D, C>>, prefix: bytes, empty: D, apply: (D, C) -> D, start: D) {
    && (forall i :: 0 <= i < |trace| ==> InstantSafe(trace[i], prefix, empty, apply))
    && (forall i :: 0 <= i < |trace| ==> trace[i].flushed == Fold(apply, start, trace[i].log))
    && (forall i, j :: 0 <= i < j < |trace| ==> trace[i].log <= trace[j].log)
  }

  lemma TraceLast<D, C>(trace: seq<Instant<D, C>>, prefix: bytes, empty: D, apply: (D, C) -> D, start: D)
    requires TraceOk(trace, prefix, empty, apply, start) && trace != []
    ensures var t := trace[|trace| - 1]; InstantSafe(t, prefix, empty, apply) && t.flushed == Fold(apply, start, t.log)
  {
  }

  lemma TraceMeans<D, C>(trace: seq<Instant<D, C>>, prefix: bytes, empty: D, apply: (D, C) -> D, start: D)
    requires TraceOk(trace, prefix, empty, apply, start) && trace != []
    ensures forall i :: 0 <= i < |trace| ==>
              && InstantSafe(trace[i], prefix, empty, apply)
              && trace[i].log <= trace[|trace| - 1].log && trace[i].flushed == Fold(apply, start, trace[i].log)
    ensures forall i, j :: 0 <= i < j < |trace| ==> trace[i].log <= trace[j].log
  {
    hide InstantSafe, Fold;
  }

  lemma TraceSnoc<D, C>(trace: seq<Instant<D, C>>, t: Instant<D, C>, prefix: bytes, empty: D, apply: (D, C) -> D,
                        start: D)
    requires TraceOk(trace, prefix, empty, apply, start) && trace != [] && trace[|trace| - 1].log <= t.log
    requires InstantSafe(t, prefix, empty, apply) && t.flushed == Fold(apply, start, t.log)
    ensures TraceOk(trace + [t], prefix, empty, apply, start)
  {
    hide InstantSafe, Fold;
    var all, n := trace + [t], |trace|;
    forall i, j | 0 <= i < j < |all| ensures all[i].log <= all[j].log {
      assert i < n && all[i] == trace[i];
      if i < n - 1 { assert trace[i].log <= trace[n - 1].log; }
    }
  }

  /** Every change of the disk goes through one of these methods, one per system call. A crash may
      happen after any of them, so each records the instant it leaves behind. */
  class Disk<D(!new), C(!new)> {
    var files: map<Path, File<D, C>>
    var durable: Manifest
    const prefix: bytes
    const empty: D
    const apply: (D, C) -> D
    /** The dataset at first, all commands flushed since, and what they made of it. */
    ghost const start: D
    ghost var log: seq<C>
    ghost var flushed: D
    ghost var trace: seq<Instant<D, C>>

    ghost function Now(): Instant<D, C>
      reads this
    {
      Instant(files, durable, flushed, log)
    }

    ghost predicate Valid()
      reads this
    {
      trace != [] && trace[|trace| - 1] == Now() && TraceOk(trace, prefix, empty, apply, start)
    }

    constructor (files: map<Path, File<D, C>>, durable: Manifest, prefix: bytes, empty: D, apply: (D, C) -> D,
                 ghost flushed: D)
      requires InstantSafe(Instant(files, durable, flushed, []), prefix, empty, apply)
      ensures Valid() && this.files == files && this.durable == durable && this.prefix == prefix
      ensures this.empty == empty && this.apply == apply && this.flushed == flushed && this.start == flushed
      ensures log == []
    {
      this.files, this.durable, this.prefix, this.empty, this.apply := files, durable, prefix, empty, apply;
      this.start, this.flushed, log := flushed, flushed, [];
      trace := [Instant(files, durable, flushed, [])];
    }

    /** Notes the instant after a system call that leaves something safe behind. */
    ghost method Note()
      requires trace != [] && TraceOk(trace, prefix, empty, apply, start) && trace[|trace| - 1].log <= log
      requires InstantSafe(Now(), prefix, empty, apply) && flushed == Fold(apply, start, log)
      modifies `trace
      ensures Valid() && trace == old(trace) + [Now()]
    {
      hide InstantSafe, Fold, TraceOk;
      TraceSnoc(trace, Now(), prefix, empty, apply, start);
      trace := trace + [Now()];
    }

    /** Writing a file from scratch: open(2) with O_TRUNC|O_CREAT, or the child's output. */
    method Put(p: Path, content: File<D, C>)
      requires Valid() && !Live(durable, p)
      modifies this
      ensures Valid() && files == old(files)[p := content]
      ensures durable == old(durable) && flushed == old(flushed) && log == old(log) && trace == old(trace) + [Now()]
    {
      hide TraceOk, Fold, Ok, Recover;
      TraceLast(trace, prefix, empty, apply, start);
      RecoverFrame(files, files[p := content], durable, empty, apply);
      files := files[p := content];
      Note();
    }

    /** rename(2) */
    method Rename(from: Path, to: Path)
      requires Valid() && from in files && !Live(durable, from) && !Live(durable, to)
      modifies this
      ensures Valid() && files == (old(files) - {from})[to := old(files)[from]]
      ensures durable == old(durable) && flushed == old(flushed) && log == old(log) && trace == old(trace) + [Now()]
    {
      hide TraceOk, Fold, Ok, Recover;
      TraceLast(trace, prefix, empty, apply, start);
      var after := (files - {from})[to := files[from]];
      RecoverFrame(files, after, durable, empty, apply);
      files := after;
      Note();
    }

    /** unlink(2); a missing file is left missing. */
    method Unlink(p: Path)
      requires Valid() && !Live(durable, p)
      modifies this
      ensures Valid() && files == old(files) - {p}
      ensures durable == old(durable) && flushed == old(flushed) && log == old(log) && trace == old(trace) + [Now()]
    {
      hide TraceOk, Fold, Ok, Recover;
      TraceLast(trace, prefix, empty, apply, start);
      RecoverFrame(files, files - {p}, durable, empty, apply);
      files := files - {p};
      Note();
    }

    /** write(2) of whole commands to the open INCR file, the last one of the manifest. */
    method Append(cmds: seq<C>)
      requires Valid() && durable.incr != []
      requires forall i :: 0 <= i < |durable.incr| - 1 ==> durable.incr[i].name != durable.incr[|durable.incr| - 1].name
      requires durable.base.Some? ==> durable.base.value.name != durable.incr[|durable.incr| - 1].name
      modifies this
      ensures Valid() && durable == old(durable) && flushed == Fold(apply, old(flushed), cmds)
      ensures var p := InDir(durable.incr[|durable.incr| - 1].name);
              && p in old(files) && old(files)[p].Log? && files == old(files)[p := Log(old(files)[p].cmds + cmds)]
      ensures log == old(log) + cmds && trace == old(trace) + [Now()]
    {
      hide TraceOk, Fold, Ok;
      TraceLast(trace, prefix, empty, apply, start);
      var n := |durable.incr| - 1;
      var p := InDir(durable.incr[n].name);
      LoadedFilesExist(files, durable.incr, LoadBase(files, durable.base, empty), apply, n);
      RecoverAppended(files, durable, cmds, empty, apply);
      FoldConcat(apply, start, log, cmds);
      files := files[p := Log(files[p].cmds + cmds)];
      flushed, log := Fold(apply, flushed, cmds), log + cmds;
      Note();
    }

    /** persistAofManifest when it succeeds. */
    method Install(m: Manifest)
      requires Valid() && Recover(files, m, empty, apply) == Some(flushed) && Ok(prefix, m) && m.incr != []
      modifies this
      ensures Valid() && durable == m
      ensures files == old(files) && flushed == old(flushed) && log == old(log) && trace == old(trace) + [Now()]
    {
      hide TraceOk, Fold, Ok, Recover;
      TraceLast(trace, prefix, empty, apply, start);
      durable := m;
      Note();
    }
  }

  lemma RecoverAppended<D, C>(files: map<Path, File<D, C>>, m: Manifest, cmds: seq<C>, empty: D, apply: (D, C) -> D)
    requires m.incr != [] && Recover(files, m, empty, apply).Some?
    requires forall i :: 0 <= i < |m.incr| - 1 ==> m.incr[i].name != m.incr[|m.incr| - 1].name
    requires m.base.Some? ==> m.base.value.name != m.incr[|m.incr| - 1].name
    ensures var p := InDir(m.incr[|m.incr| - 1].name);
            && p in files && files[p].Log?
            && Recover(files[p := Log(files[p].cmds + cmds)], m, empty, apply)
                == Some(Fold(apply, Recover(files, m, empty, apply).value, cmds))
  {
    hide Fold;
    var n := |m.incr| - 1;
    var p := InDir(m.incr[n].name);
    var start := LoadBase(files, m.base, empty);
    LoadedFilesExist(files, m.incr, start, apply, n);
    var after := files[p := Log(files[p].cmds + cmds)];
    LoadIncrsFrame(files, after, m.incr[..n], start, apply);
    FoldConcat(apply, LoadIncrs(files, m.incr[..n], start, apply).value, files[p].cmds, cmds);
  }

  // ---------------------------------------------------------------- facts about manifest updates

  lemma NewNamesNotLive(prefix: bytes, m: Manifest, rdb: bool)
    requires Ok(prefix, m)
    ensures !Live(m, InDir(IncrName(prefix, m.incrSeq + 1)))
    ensures !Live(m, InDir(BaseName(prefix, m.baseSeq + 1, rdb)))
  {
    hide IncrName, BaseName;
    if m.base.Some? {
      NamesApart(prefix, m.incrSeq + 1, m.base.value.seqno);
      NamesApart(prefix, m.baseSeq + 1, m.base.value.seqno);
    }
    forall i | 0 <= i < |m.incr|
      ensures m.incr[i].name != IncrName(prefix, m.incrSeq + 1)
      ensures m.incr[i].name != BaseName(prefix, m.baseSeq + 1, rdb)
    {
      NamesApart(prefix, m.incr[i].seqno, m.incrSeq + 1);
      NamesApart(prefix, m.incr[i].seqno, m.baseSeq + 1);
    }
  }

  lemma RecoverWithNewIncr<D, C>(files: map<Path, File<D, C>>, prefix: bytes, m: Manifest, empty: D, apply: (D, C) -> D)
    requires var p := InDir(IncrName(prefix, m.incrSeq + 1)); p in files && files[p] == Log([])
    requires Recover(files, m, empty, apply).Some?
    ensures Recover(files, WithNewIncr(m, prefix), empty, apply) == Recover(files, m, empty, apply)
  {
    hide IncrName;
    var r := WithNewIncr(m, prefix);
    assert r.incr[..|r.incr| - 1] == m.incr;
  }

  /** The manifest a finished rewrite installs. */
  function Rewritten(m: Manifest, prefix: bytes, rdb: bool): Manifest {
    WithRewrittenAsHistory(WithNewBase(m, prefix, rdb), true).(dirty := false)
  }

  lemma RewrittenFacts(prefix: bytes, m: Manifest, rdb: bool)
    requires Ok(prefix, m) && m.incr != []
    ensures Ok(prefix, Rewritten(m, prefix, rdb))
    ensures Rewritten(m, prefix, rdb).base == Some(AofInfo(BaseName(prefix, m.baseSeq + 1, rdb), m.baseSeq + 1, Base))
    ensures Rewritten(m, prefix, rdb).incr == m.incr[|m.incr| - 1..]
  {
    hide Ok, BaseName;
    NewBaseOk(prefix, m, rdb);
    RewrittenOk(prefix, WithNewBase(m, prefix, rdb), true);
    DirtyIrrelevant(prefix, WithRewrittenAsHistory(WithNewBase(m, prefix, rdb), true), false);
  }

  /** After a rewrite only the new BASE and the INCR opened at the fork are loaded. */
  lemma RecoverRewritten<D, C>(files: map<Path, File<D, C>>, m: Manifest, b: Path, l: Path, empty: D,
                               apply: (D, C) -> D)
    requires m.base.Some? && b == InDir(m.base.value.name) && |m.incr| == 1 && l == InDir(m.incr[0].name)
    requires b in files && files[b].Snapshot? && l in files && files[l].Log?
    ensures Recover(files, m, empty, apply) == Some(Fold(apply, files[b].data, files[l].cmds))
  {
    assert m.incr[..0] == [];
    assert LoadIncrs(files, m.incr[..0], LoadBase(files, m.base, empty), apply) == LoadBase(files, m.base, empty);
  }

  lemma DirtyIrrelevant(prefix: bytes, m: Manifest, d: bool)
    requires Ok(prefix, m)
    ensures Ok(prefix, m.(dirty := d))
  {
    var r := m.(dirty := d);
    forall i | 0 <= i < |r.history| ensures HistoryEntryOk(prefix, r.history[i], r) {
      assert HistoryEntryOk(prefix, m.history[i], m);
    }
  }

  lemma SameLive(m: Manifest, n: Manifest, p: Path)
    requires m.base == n.base && m.incr == n.incr
    ensures Live(m, p) == Live(n, p)
  {
  }

  // ---------------------------------------------------------------- the server

  /** The rewrite child: its pid, the dataset it inherited, and whether its output is complete. */
  datatype Child<+D> = Child(pid: nat, snapshot: D, finished: bool)

  class AofServer<D(!new), C(!new)> {
    const rdbPreamble: bool
    const disk: Disk<D, C>
    var manifest: ManifestState
    var data: D
    var buf: seq<C>
    var child: Option<Child<D>>

    ghost predicate Valid()
      reads this, disk, manifest
    {
      var m := manifest.View();
      && disk.Valid()
      && Ok(disk.prefix, m)
      && m.incr != [] && disk.durable.base == m.base && disk.durable.incr == m.incr
      && data == Fold(disk.apply, disk.flushed, buf)
      && (child.Some? ==> ChildOk(child.value))
    }

    /** The child's snapshot and the log written since the fork make up all flushed commands. */
    ghost predicate ChildOk(c: Child<D>)
      reads this, disk, manifest
    {
      && manifest.incr != []
      && var l := InDir(manifest.incr[|manifest.incr| - 1].name);
      && l in disk.files && disk.files[l].Log?
      && disk.flushed == Fold(disk.apply, c.snapshot, disk.files[l].cmds)
      && (c.finished ==> Temp(c.pid) in disk.files && disk.files[Temp(c.pid)] == Snapshot(c.snapshot))
    }

    /** Start of a process: everything is read back from the disk. */
    constructor (rdbPreamble: bool, disk: Disk<D, C>)
      requires disk.Valid()
      ensures Valid() && this.disk == disk && this.rdbPreamble == rdbPreamble && fresh(manifest)
      ensures buf == [] && child == None && data == disk.flushed
    {
      this.rdbPreamble, this.disk := rdbPreamble, disk;
      manifest := new ManifestState(Reloaded(disk.durable));
      buf, child := [], None;
      var d := Recover(disk.files, disk.durable, disk.empty, disk.apply);
      assert InstantSafe(disk.trace[|disk.trace| - 1], disk.prefix, disk.empty, disk.apply);
      data := d.value;
      ReloadedOk(disk.prefix, disk.durable);
    }

    /** A write command: executed in memory and fed to the AOF buffer. */
    method Execute(c: C)
      requires Valid()
      modifies this
      ensures Valid() && data == disk.apply(old(data), c) && buf == old(buf) + [c]
      ensures manifest == old(manifest) && child == old(child)
    {
      hide TraceOk;
      FoldConcat(disk.apply, disk.flushed, buf, [c]);
      assert [c][..0] == [];
      data := disk.apply(data, c);
      buf := buf + [c];
    }

    /** flushAppendOnlyFile: the first `k` buffered commands reach the file. */
    method Flush(k: nat)
      requires Valid() && k <= |buf|
      modifies this, disk
      ensures Valid() && disk.flushed == Fold(disk.apply, old(disk.flushed), old(buf)[..k]) && buf == old(buf)[k..]
      ensures disk.log == old(disk.log) + old(buf)[..k]
      ensures var l := InDir(manifest.incr[|manifest.incr| - 1].name);
              && l in old(disk.files) && old(disk.files)[l].Log?
              && disk.files == old(disk.files)[l := Log(old(disk.files)[l].cmds + old(buf)[..k])]
      ensures data == old(data) && manifest == old(manifest) && child == old(child) && disk.durable == old(disk.durable)
      ensures old(disk.trace) <= disk.trace
    {
      hide TraceOk, Fold, Recover, Live, Ok;
      TraceLast(disk.trace, disk.prefix, disk.empty, disk.apply, disk.start);
      BaseNotIncr(disk.prefix, disk.durable);
      FoldConcat(disk.apply, disk.flushed, buf[..k], buf[k..]);
      assert buf[..k] + buf[k..] == buf;
      ghost var l := InDir(manifest.incr[|manifest.incr| - 1].name);
      if child.Some? {
        FoldConcat(disk.apply, child.value.snapshot, disk.files[l].cmds, buf[..k]);
      }
      disk.Append(buf[..k]);
      buf := buf[k..];
    }

    /** openNewIncrAofForAppend */
    method OpenNewIncrForAppend(openOk: bool, persistOk: bool) returns (ok: bool)
      requires Valid() && child.None?
      modifies this, disk
      ensures Valid() && (manifest == old(manifest) || fresh(manifest)) && ok == (openOk && persistOk)
      ensures data == old(data) && buf == old(buf) && child == None && disk.flushed == old(disk.flushed)
      ensures disk.log == old(disk.log)
      ensures ok ==> manifest.View() == WithNewIncr(old(manifest.View()), disk.prefix).(dirty := false)
      ensures ok ==> disk.durable == manifest.View()
      ensures !ok ==> manifest == old(manifest) && disk.durable == old(disk.durable)
      ensures ok ==>
                var l := InDir(manifest.incr[|manifest.incr| - 1].name); l in disk.files && disk.files[l] == Log([])
      ensures var l := InDir(IncrName(disk.prefix, old(manifest.incrSeq) + 1));
              disk.files == if openOk then old(disk.files)[l := Log([])] else old(disk.files)
      ensures old(disk.trace) <= disk.trace
    {
      hide TraceOk, Ok, IncrName, Fold, LoadIncrs, LoadBase, Live;
      var temp := manifest.Dup();
      ghost var m := manifest.View();
      var name := temp.NewIncrAofName(disk.prefix);
      if !openOk { return false; }
      NewNamesNotLive(disk.prefix, m, rdbPreamble);
      SameLive(m, disk.durable, InDir(name));
      disk.Put(InDir(name), Log([]));
      if !persistOk { return false; }
      TraceLast(disk.trace, disk.prefix, disk.empty, disk.apply, disk.start);
      NewIncrOk(disk.prefix, m);
      DirtyIrrelevant(disk.prefix, temp.View(), false);
      temp.dirty := false;
      RecoverWithNewIncr(disk.files, disk.prefix, m, disk.empty, disk.apply);
      disk.Install(Manifest(temp.base, temp.incr, temp.history, temp.baseSeq, temp.incrSeq, temp.dirty));
      manifest := temp;
      return true;
    }

    /** rewriteAppendOnlyFileBackground: write the buffer out, switch to a new INCR file and fork. */
    method RewriteBackground(openOk: bool, persistOk: bool, forked: Option<nat>) returns (ok: bool)
      requires Valid()
      modifies this, disk
      ensures Valid() && (manifest == old(manifest) || fresh(manifest)) && data == old(data)
      ensures ok == (old(child).None? && openOk && persistOk && forked.Some?)
      ensures old(child).Some? ==> child == old(child) && buf == old(buf) && disk.trace == old(disk.trace)
      ensures disk.log == if old(child).Some? then old(disk.log) else old(disk.log) + old(buf)
      ensures old(child).None? ==>
                buf == [] && disk.flushed == data
                    && child == (if ok then Some(Child(forked.value, data, false)) else None)
      ensures old(disk.trace) <= disk.trace
    {
      hide TraceOk, Ok, IncrName, LoadIncrs, LoadBase, Live, Fold;
      if child.Some? { return false; }
      FlushAll();
      ok := OpenNewIncrForAppend(openOk, persistOk);
      if !ok { return false; }
      if forked.None? { return false; }
      child := Some(Child(forked.value, data, false));
      return true;
    }

    method FlushAll()
      requires Valid()
      modifies this, disk
      ensures Valid() && buf == [] && disk.flushed == data && disk.log == old(disk.log) + old(buf)
      ensures data == old(data) && manifest == old(manifest) && child == old(child) && old(disk.trace) <= disk.trace
    {
      hide TraceOk, Ok, LoadIncrs, LoadBase, Live;
      assert buf[..|buf|] == buf;
      Flush(|buf|);
    }

    /** The child writing to its temporary file; it finishes with a complete snapshot. */
    method ChildWrites(content: File<D, C>, finishes: bool)
      requires Valid() && child.Some? && (finishes ==> content == Snapshot(child.value.snapshot))
      modifies this, disk
      ensures Valid() && child == Some(old(child).value.(finished := finishes))
      ensures data == old(data) && buf == old(buf) && manifest == old(manifest)
      ensures disk.flushed == old(disk.flushed) && disk.log == old(disk.log) && disk.durable == old(disk.durable)
      ensures disk.files == old(disk.files)[Temp(old(child).value.pid) := content] && old(disk.trace) <= disk.trace
    {
      hide TraceOk, Ok, LoadIncrs, LoadBase, Fold;
      disk.Put(Temp(child.value.pid), content);
      child := Some(child.value.(finished := finishes));
    }

    /** aofDelHistoryFiles; `stuck` are the names whose unlink fails. */
    method DelHistoryFiles(gcDisabled: bool, stuck: set<bytes>, persistOk: bool)
      requires Valid()
      modifies manifest, disk
      ensures Valid() && disk.flushed == old(disk.flushed) && disk.log == old(disk.log)
      ensures data == old(data) && buf == old(buf) && child == old(child)
      ensures !gcDisabled ==> manifest.history == []
      ensures manifest.base == old(manifest.base) && manifest.incr == old(manifest.incr)
      ensures disk.files ==
              if gcDisabled then old(disk.files) else old(disk.files) - Paths(old(manifest.history), stuck)
      ensures disk.durable == if !gcDisabled && old(manifest.history) != [] && persistOk then manifest.View()
                              else old(disk.durable)
      ensures old(disk.trace) <= disk.trace
    {
      hide TraceOk, Ok, LoadIncrs, LoadBase, Fold, Live, Paths;
      NoPaths(stuck);
      if gcDisabled || manifest.history == [] { return; }
      while manifest.history != []
        invariant disk.durable == old(disk.durable)
        invariant disk.files - Paths(manifest.history, stuck) == old(disk.files) - Paths(old(manifest.history), stuck)
        invariant Valid() && manifest == old(manifest)
        invariant data == old(data) && buf == old(buf) && child == old(child)
        invariant disk.flushed == old(disk.flushed) && disk.log == old(disk.log)
        invariant manifest.base == old(manifest.base) && manifest.incr == old(manifest.incr)
        invariant old(disk.trace) <= disk.trace
        decreases |manifest.history|
      {
        PathsFirst(disk.files, manifest.history, stuck);
        DelFirstHistoryFile(stuck);
      }
      DirtyIrrelevant(disk.prefix, manifest.View(), true);
      manifest.dirty := true;
      PersistUnchangedFiles(persistOk);
    }

    method DelFirstHistoryFile(stuck: set<bytes>)
      requires Valid() && manifest.history != []
      modifies manifest, disk
      ensures Valid() && disk.flushed == old(disk.flushed) && disk.log == old(disk.log) && old(disk.trace) <= disk.trace
      ensures manifest.View() == old(manifest.View()).(history := old(manifest.history)[1..])
      ensures disk.durable == old(disk.durable)
      ensures var h := old(manifest.history)[0];
              disk.files == if h.name in stuck then old(disk.files) else old(disk.files) - {InDir(h.name)}
    {
      hide TraceOk, Ok, LoadIncrs, LoadBase, Fold, Live;
      var h := manifest.history[0];
      ghost var m := manifest.View();
      HistoryIsNotLive(disk.prefix, m, disk.durable);
      HistoryNotLive(disk.prefix, m, 0);
      if h.name !in stuck {
        disk.Unlink(InDir(h.name));
      }
      DropHistoryOk(disk.prefix, m);
      manifest.history := manifest.history[1..];
    }

    /** persistAofManifest of the server's own manifest, whose BASE and INCR files are the durable ones. */
    method PersistUnchangedFiles(persistOk: bool)
      requires Valid() && manifest.dirty
      modifies manifest, disk
      ensures Valid() && disk.flushed == old(disk.flushed) && disk.log == old(disk.log) && old(disk.trace) <= disk.trace
      ensures manifest.View() == old(manifest.View()).(dirty := !persistOk)
      ensures disk.durable == (if persistOk then manifest.View() else old(disk.durable))
      ensures disk.files == old(disk.files)
    {
      hide TraceOk, Ok, LoadIncrs, LoadBase, Fold;
      if persistOk {
        TraceLast(disk.trace, disk.prefix, disk.empty, disk.apply, disk.start);
        DirtyIrrelevant(disk.prefix, manifest.View(), false);
        manifest.dirty := false;
        disk.Install(Manifest(manifest.base, manifest.incr, manifest.history, manifest.baseSeq, manifest.incrSeq,
            manifest.dirty));
      }
    }

    /** The success branch of backgroundRewriteDoneHandler, up to the switch of manifests. */
    method SwitchToNewBase(renameOk: bool, persistOk: bool, unlinkOk: bool) returns (ok: bool)
      requires Valid() && child.Some? && child.value.finished
      modifies this, disk
      ensures Valid() && (manifest == old(manifest) || fresh(manifest)) && ok == (renameOk && persistOk)
      ensures data == old(data) && buf == old(buf) && child == None && disk.flushed == old(disk.flushed)
      ensures disk.log == old(disk.log)
      ensures ok ==> manifest.View() == Rewritten(old(manifest.View()), disk.prefix, rdbPreamble)
      ensures ok ==> disk.durable == manifest.View()
      ensures !ok ==> manifest == old(manifest) && disk.durable == old(disk.durable)
      ensures !renameOk ==> disk.files == old(disk.files)
      ensures renameOk ==>
                var t := Temp(old(child).value.pid);
                var b := InDir(BaseName(disk.prefix, old(manifest.baseSeq) + 1, rdbPreamble));
                && t in old(disk.files)
                && var renamed := (old(disk.files) - {t})[b := old(disk.files)[t]];
                disk.files == if !persistOk && unlinkOk then renamed - {b} else renamed
      ensures old(disk.trace) <= disk.trace
    {
      hide TraceOk, Ok, BaseName, IncrName, Fold, Recover, Live, WithNewBase, WithRewrittenAsHistory;
      ghost var m := manifest.View();
      ghost var last := InDir(manifest.incr[|manifest.incr| - 1].name);
      var pid := child.value.pid;
      child := None;
      var temp := manifest.Dup();
      var name := temp.NewBaseFileName(disk.prefix, rdbPreamble);
      if !renameOk { return false; }
      NewBaseApart(disk.prefix, m, disk.durable, rdbPreamble, pid);
      RewrittenFacts(disk.prefix, m, rdbPreamble);
      assert name == BaseName(disk.prefix, m.baseSeq + 1, rdbPreamble) by { NewBaseSeq(m, disk.prefix, rdbPreamble); }
      disk.Rename(Temp(pid), InDir(name));
      temp.MarkRewrittenIncrAofAsHistory(true);
      if !persistOk {
        if unlinkOk {
          disk.Unlink(InDir(name));
        }
        return false;
      }
      temp.dirty := false;
      RecoverRewritten(disk.files, temp.View(), InDir(name), last, disk.empty, disk.apply);
      disk.Install(Manifest(temp.base, temp.incr, temp.history, temp.baseSeq, temp.incrSeq, temp.dirty));
      manifest := temp;
      return true;
    }

    /** backgroundRewriteDoneHandler with the AOF on. */
    method RewriteDone(success: bool, renameOk: bool, persistOk: bool, unlinkOk: bool,
                       gcDisabled: bool, stuck: set<bytes>, gcPersistOk: bool)
      requires Valid() && child.Some? && (success ==> child.value.finished)
      modifies this, manifest, disk
      ensures Valid() && data == old(data) && buf == old(buf) && child == None && disk.flushed == old(disk.flushed)
      ensures disk.log == old(disk.log)
      ensures manifest == old(manifest) || fresh(manifest)
      ensures success && renameOk && persistOk ==>
                && manifest.base == Some(AofInfo(BaseName(disk.prefix, old(manifest.baseSeq) + 1, rdbPreamble),
                    old(manifest.baseSeq) + 1, Base))
                && manifest.incr == old(manifest.incr)[|old(manifest.incr)| - 1..]
                && (!gcDisabled ==> manifest.history == [])
      ensures !(success && renameOk && persistOk) ==> manifest == old(manifest) && disk.durable == old(disk.durable)
      ensures success && renameOk && persistOk && !gcDisabled ==>
                && (old(manifest.base).Some? && old(manifest.base).value.name !in stuck ==>
                      InDir(old(manifest.base).value.name) !in disk.files)
                && (forall i :: 0 <= i < |old(manifest.incr)| - 1 && old(manifest.incr)[i].name !in stuck ==>
                      InDir(old(manifest.incr)[i].name) !in disk.files)
      ensures Temp(old(child).value.pid) !in disk.files
      ensures old(disk.trace) <= disk.trace
    {
      hide TraceOk, Ok, BaseName, IncrName, Fold, LoadIncrs, LoadBase;
      var pid := child.value.pid;
      var switched := false;
      if success {
        switched := SwitchToNewBase(renameOk, persistOk, unlinkOk);
      } else {
        child := None;
      }
      if switched {
        RewrittenHistory(old(manifest.View()), disk.prefix, rdbPreamble, stuck);
        DelHistoryFiles(gcDisabled, stuck, gcPersistOk);
      }
      disk.Unlink(Temp(pid));
    }
  }

  /** The paths of history entries whose unlink succeeds. */
  ghost function Paths(history: seq<AofInfo>, stuck: set<bytes>): set<Path> {
    set i | 0 <= i < |history| && history[i].name !in stuck :: InDir(history[i].name)
  }

  lemma NoPaths(stuck: set<bytes>)
    ensures Paths([], stuck) == {}
  {
  }

  lemma PathsFirst<D, C>(files: map<Path, File<D, C>>, history: seq<AofInfo>, stuck: set<bytes>)
    requires history != []
    ensures files - Paths(history, stuck)
         == (if history[0].name in stuck then files else files - {InDir(history[0].name)}) - Paths(history[1..], stuck)
  {
    var h, rest := history[0], history[1..];
    assert forall i :: 0 <= i < |rest| ==> rest[i] == history[i + 1];
    forall p | p in Paths(history, stuck) ensures p in Paths(rest, stuck) || (h.name !in stuck && p == InDir(h.name)) {
      var i :| 0 <= i < |history| && history[i].name !in stuck && p == InDir(history[i].name);
      if i > 0 { assert rest[i - 1] == history[i]; }
    }
  }

  /** The replaced BASE and every INCR but the open one are in the history of the manifest a rewrite installs. */
  lemma RewrittenHistory(m: Manifest, prefix: bytes, rdb: bool, stuck: set<bytes>)
    requires m.incr != []
    ensures var paths := Paths(Rewritten(m, prefix, rdb).history, stuck);
            && (m.base.Some? && m.base.value.name !in stuck ==> InDir(m.base.value.name) in paths)
            && (forall i :: 0 <= i < |m.incr| - 1 && m.incr[i].name !in stuck ==> InDir(m.incr[i].name) in paths)
  {
    hide BaseName;
    var h, n := Rewritten(m, prefix, rdb).history, |m.incr| - 1;
    forall i | 0 <= i < n && m.incr[i].name !in stuck ensures InDir(m.incr[i].name) in Paths(h, stuck) {
      assert h[i].name == m.incr[i].name;
    }
    if m.base.Some? { assert h[n].name == m.base.value.name; }
  }

  lemma NewBaseSeq(m: Manifest, prefix: bytes, rdb: bool)
    ensures WithNewBase(m, prefix, rdb).baseSeq == m.baseSeq + 1
  {
  }

  lemma NewBaseApart(prefix: bytes, m: Manifest, durable: Manifest, rdb: bool, pid: nat)
    requires Ok(prefix, m) && m.base == durable.base && m.incr == durable.incr && m.incr != []
    ensures !Live(durable, InDir(BaseName(prefix, m.baseSeq + 1, rdb))) && !Live(durable, Temp(pid))
    ensures BaseName(prefix, m.baseSeq + 1, rdb) != m.incr[|m.incr| - 1].name
  {
    NewNamesNotLive(prefix, m, rdb);
    assert Live(m, InDir(m.incr[|m.incr| - 1].name));
  }

  lemma HistoryIsNotLive(prefix: bytes, m: Manifest, durable: Manifest)
    requires Ok(prefix, m) && m.history != [] && m.base == durable.base && m.incr == durable.incr
    ensures !Live(durable, InDir(m.history[0].name))
  {
    HistoryNotLive(prefix, m, 0);
  }

  lemma DropHistoryOk(prefix: bytes, m: Manifest)
    requires Ok(prefix, m) && m.history != []
    ensures Ok(prefix, m.(history := m.history[1..]))
  {
    hide IncrName, IsBaseName;
    var r := m.(history := m.history[1..]);
    forall i | 0 <= i < |r.history| ensures HistoryEntryOk(prefix, r.history[i], r) {
      assert HistoryEntryOk(prefix, m.history[i + 1], m);
    }
  }

  // ---------------------------------------------------------------- whole runs

  /** Everything that can happen, with the outcome of every system call involved. */
  datatype Event<+D, +C> =
    | Execute(cmd: C)
    | FlushSome(k: nat)
    | StartRewrite(openOk: bool, persistOk: bool, forked: Option<nat>)
    | ChildWrites(content: File<D, C>)
    | ChildFinishes
    | ChildDone(success: bool, renameOk: bool, persistOk: bool, unlinkOk: bool,
                gcDisabled: bool, stuck: set<bytes>, gcPersistOk: bool)
    | PurgeHistory(gcDisabled: bool, stuck: set<bytes>, gcPersistOk: bool)
    | CrashAndRestart(gcDisabled: bool, stuck: set<bytes>, gcPersistOk: bool)

  /** What a run is about: commands that reached the disk, commands still in the buffer, and whether a child is at
      work. */
  datatype Run<C> = Run(written: seq<C>, buffered: seq<C>, rewriting: bool)

  /** The commands alone decide what reaches the disk; a crash loses the buffer and nothing else. */
  function Play<D, C>(r: Run<C>, e: Event<D, C>): Run<C> {
    match e
    case Execute(c) => r.(buffered := r.buffered + [c])
    case FlushSome(k) =>
      var n := if k <= |r.buffered| then k else |r.buffered|;
      r.(written := r.written + r.buffered[..n], buffered := r.buffered[n..])
    case StartRewrite(openOk, persistOk, forked) =>
      if r.rewriting then r else Run(r.written + r.buffered, [], openOk && persistOk && forked.Some?)
    case ChildWrites(_) => r
    case ChildFinishes => r
    case ChildDone(_, _, _, _, _, _, _) => r.(rewriting := false)
    case PurgeHistory(_, _, _) => r
    case CrashAndRestart(_, _, _) => Run(r.written, [], false)
  }

  function PlayAll<D, C>(r: Run<C>, events: seq<Event<D, C>>): Run<C> {
    if events == [] then r else Play(PlayAll(r, events[..|events| - 1]), events[|events| - 1])
  }

  function Executed<D, C>(events: seq<Event<D, C>>): seq<C> {
    if events == [] then [] else
      var e := events[|events| - 1];
      Executed(events[..|events| - 1]) + if e.Execute? then [e.cmd] else []
  }

  lemma PlayKeeps<D, C>(r: Run<C>, e: Event<D, C>)
    ensures var after := Play(r, e);
            && r.written <= after.written
            && (!e.CrashAndRestart? ==>
                  after.written + after.buffered == r.written + r.buffered + if e.Execute? then [e.cmd] else [])
  {
    if e.FlushSome? {
      var k := if e.k <= |r.buffered| then e.k else |r.buffered|;
      assert r.buffered[..k] + r.buffered[k..] == r.buffered;
    }
  }

  /** What reached the disk stays, and without a crash no executed command is lost, repeated or reordered. */
  lemma {:induction false} NothingLost<D, C>(r: Run<C>, events: seq<Event<D, C>>)
    ensures var after := PlayAll(r, events);
            && r.written <= after.written
            && ((forall i :: 0 <= i < |events| ==> !events[i].CrashAndRestart?) ==>
                 after.written + after.buffered == r.written + r.buffered + Executed(events))
  {
    if events != [] {
      var n := |events| - 1;
      var mid, e := PlayAll(r, events[..n]), events[n];
      NothingLost(r, events[..n]);
      PlayKeeps(mid, e);
      if forall i :: 0 <= i < |events| ==> !events[i].CrashAndRestart? {
        assert forall i :: 0 <= i < n ==> !events[..n][i].CrashAndRestart?;
      }
    }
  }

  /** aofOpenIfNeededOnServerStart on an empty dataset: a first BASE and a first INCR file, then the manifest. Until
      that is durable a restart finds no manifest, whatever files there are, and starts empty. */
  method FirstStart<D(!new), C(!new)>(prefix: bytes, rdb: bool, empty: D, apply: (D, C) -> D)
    returns (server: AofServer<D, C>, ghost early: seq<map<Path, File<D, C>>>)
    ensures fresh(server) && fresh(server.disk) && fresh(server.manifest) && server.Valid()
    ensures server.data == empty && server.disk.apply == apply && server.disk.flushed == empty
    ensures server.disk.durable.base == Some(AofInfo(BaseName(prefix, 1, rdb), 1, Base))
    ensures server.disk.durable.incr == [AofInfo(IncrName(prefix, 1), 1, Incr)]
    ensures |early| == 3 && early[0] == map[] && early[2] == server.disk.files
    ensures early[1] == map[InDir(BaseName(prefix, 1, rdb)) := Snapshot(empty)]
    ensures early[2] == early[1][InDir(IncrName(prefix, 1)) := Log([])]
    ensures forall i :: 0 <= i < |early| ==> Recover(early[i], EMPTY, empty, apply) == Some(empty)
  {
    hide BaseName, IncrName, WithNewBase, WithNewIncr, Ok, TraceOk, Fold, Recover;
    FirstManifestFacts(prefix, rdb);
    var m := new ManifestState(EMPTY);
    var files: map<Path, File<D, C>> := map[];
    early := [files];
    var baseName := m.NewBaseFileName(prefix, rdb);
    files := files[InDir(baseName) := Snapshot(empty)];
    early := early + [files];
    var incrName := m.NewIncrAofName(prefix);
    files := files[InDir(incrName) := Log([])];
    early := early + [files];
    m.dirty := false;
    forall i | 0 <= i < 3 { RecoverNothing(early[i], empty, apply); }
    var durable := Manifest(m.base, m.incr, m.history, m.baseSeq, m.incrSeq, m.dirty);
    RecoverRewritten(files, durable, InDir(baseName), InDir(incrName), empty, apply);
    FoldNothing(apply, empty);
    var disk := new Disk<D, C>(files, durable, prefix, empty, apply, empty);
    server := new AofServer<D, C>(rdb, disk);
  }

  function FirstManifest(prefix: bytes, rdb: bool): Manifest {
    WithNewIncr(WithNewBase(EMPTY, prefix, rdb), prefix).(dirty := false)
  }

  lemma FirstManifestFacts(prefix: bytes, rdb: bool)
    ensures Ok(prefix, FirstManifest(prefix, rdb))
    ensures FirstManifest(prefix, rdb).base == Some(AofInfo(BaseName(prefix, 1, rdb), 1, Base))
    ensures FirstManifest(prefix, rdb).incr == [AofInfo(IncrName(prefix, 1), 1, Incr)]
    ensures BaseName(prefix, 1, rdb) != IncrName(prefix, 1)
    ensures WithNewBase(EMPTY, prefix, rdb).baseSeq == 1 && FirstManifest(prefix, rdb).incrSeq == 1
  {
    hide BaseName, IncrName;
    NamesApart(prefix, 1, 1);
  }

  lemma RecoverNothing<D, C>(files: map<Path, File<D, C>>, empty: D, apply: (D, C) -> D)
    ensures Recover(files, EMPTY, empty, apply) == Some(empty)
  {
  }

  lemma FoldNothing<D, C>(apply: (D, C) -> D, d: D)
    ensures Fold(apply, d, []) == d
  {
  }

  /** The commands a server has written and buffered, and whether it has a child. */
  ghost function RunOf<D(!new), C(!new)>(s: AofServer<D, C>): Run<C>
    reads s, s.disk
  {
    Run(s.disk.log, s.buf, s.child.Some?)
  }

  /** In every run, at every instant, after every system call, through any failures and crashes: loading the durable
      manifest gives exactly the dataset of the commands flushed so far. These are a prefix of all commands that reach
      the disk in the run, longer from instant to instant; and the data in memory is that of these and of the buffer. */
  method RunEvents<D(!new), C(!new)>(start: AofServer<D, C>, events: seq<Event<D, C>>) returns (server: AofServer<D, C>)
    requires start.Valid()
    modifies start, start.manifest, start.disk
    ensures server.Valid() && server.disk == start.disk
    ensures RunOf(server) == PlayAll(old(RunOf(start)), events)
    ensures var disk := server.disk; server.data == Fold(disk.apply, disk.start, disk.log + server.buf)
    ensures old(start.disk.trace) <= server.disk.trace
    ensures var disk := server.disk; forall i :: 0 <= i < |disk.trace| ==>
              && InstantSafe(disk.trace[i], disk.prefix, disk.empty, disk.apply)
              && disk.trace[i].log <= disk.log
                  && disk.trace[i].flushed == Fold(disk.apply, disk.start, disk.trace[i].log)
    ensures forall i, j :: 0 <= i < j < |server.disk.trace| ==> server.disk.trace[i].log <= server.disk.trace[j].log
  {
    hide InstantSafe, Fold, Play, TraceOk, Ok;
    server := start;
    for n := 0 to |events|
      invariant server.Valid() && server.disk == start.disk
      invariant RunOf(server) == PlayAll(old(RunOf(start)), events[..n])
      invariant server == start || fresh(server)
      invariant server.manifest == old(start.manifest) || fresh(server.manifest)
      invariant old(start.disk.trace) <= server.disk.trace
    {
      server := Step(server, events[n]);
      assert events[..n + 1][..n] == events[..n];
    }
    assert events[..|events|] == events;
    ghost var disk := server.disk;
    TraceLast(disk.trace, disk.prefix, disk.empty, disk.apply, disk.start);
    TraceMeans(disk.trace, disk.prefix, disk.empty, disk.apply, disk.start);
    FoldConcat(disk.apply, disk.start, disk.log, server.buf);
  }

  /** A crash at any instant of a run, also in the middle of an operation, is followed by a restart
      that has every flushed command and keeps all guarantees from there on. */
  method CrashAt<D(!new), C(!new)>(s: AofServer<D, C>, ghost i: nat, files: map<Path, File<D, C>>, durable: Manifest)
    returns (server: AofServer<D, C>)
    requires s.Valid() && i < |s.disk.trace|
    requires files == s.disk.trace[i].files && durable == s.disk.trace[i].durable
    ensures fresh(server) && server.Valid() && server.buf == []
    ensures server.data == Fold(s.disk.apply, s.disk.start, s.disk.trace[i].log)
  {
    ghost var t := s.disk.trace[i];
    var disk := new Disk<D, C>(files, durable, s.disk.prefix, s.disk.empty, s.disk.apply, t.flushed);
    server := new AofServer<D, C>(s.rdbPreamble, disk);
  }

  method Step<D(!new), C(!new)>(s: AofServer<D, C>, e: Event<D, C>) returns (server: AofServer<D, C>)
    requires s.Valid()
    modifies s, s.manifest, s.disk
    ensures server.Valid() && server.disk == s.disk
    ensures RunOf(server) == Play(old(RunOf(s)), e)
    ensures server == s || fresh(server)
    ensures server.manifest == old(s.manifest) || fresh(server.manifest)
    ensures old(s.disk.trace) <= server.disk.trace
    ensures e.ChildWrites? && old(s.child).Some? ==>
              server.disk.files == old(s.disk.files)[Temp(old(s.child).value.pid) := e.content]
    ensures e.ChildFinishes? && old(s.child).Some? ==> server.child == Some(old(s.child).value.(finished := true))
    ensures e.ChildDone? && old(s.child).Some? && old(s.child).value.finished && e.success && e.renameOk && e.persistOk
            ==>
              && server.manifest.incr == old(s.manifest.incr)[|old(s.manifest.incr)| - 1..]
              && var n := old(s.manifest.baseSeq) + 1;
                 server.manifest.base == Some(AofInfo(BaseName(s.disk.prefix, n, s.rdbPreamble), n, Base))
    ensures (e.PurgeHistory? || e.CrashAndRestart?) && !e.gcDisabled ==> server.manifest.history == []
  {
    hide Ok, BaseName, IncrName, Fold, Recover, Live, TraceOk;
    server := s;
    match e {
      case Execute(c) => s.Execute(c);
      case FlushSome(k) => s.Flush(if k <= |s.buf| then k else |s.buf|);
      case StartRewrite(openOk, persistOk, forked) =>
        var _ := s.RewriteBackground(openOk, persistOk, forked);
      case ChildWrites(content) =>
        if s.child.Some? { s.ChildWrites(content, false); }
      case ChildFinishes =>
        if s.child.Some? { s.ChildWrites(Snapshot(s.child.value.snapshot), true); }
      case ChildDone(success, renameOk, persistOk, unlinkOk, gcDisabled, stuck, gcPersistOk) =>
        if s.child.Some? {
          s.RewriteDone(success && s.child.value.finished, renameOk, persistOk, unlinkOk, gcDisabled, stuck,
              gcPersistOk);
        }
      case PurgeHistory(gcDisabled, stuck, gcPersistOk) => s.DelHistoryFiles(gcDisabled, stuck, gcPersistOk);
      case CrashAndRestart(gcDisabled, stuck, gcPersistOk) =>
        server := new AofServer<D, C>(s.rdbPreamble, s.disk);
        server.DelHistoryFiles(gcDisabled, stuck, gcPersistOk);
    }
  }
}
