/** The AOF manifest: one BASE file, the INCR files in order, and HISTORY files awaiting deletion. */
module AofManifest {
  import opened Bytes
  import opened Collections

  datatype FileType = Base | History | Incr

  datatype AofInfo = AofInfo(name: bytes, seqno: nat, kind: FileType)

  /** aofManifest as a value. */
  datatype Manifest = Manifest(base: Option<AofInfo>, incr: seq<AofInfo>, history: seq<AofInfo>,
                               baseSeq: nat, incrSeq: nat, dirty: bool)

  const EMPTY := Manifest(None, [], [], 0, 0, false)

  // ---------------------------------------------------------------- file names

  const BASE_AOF: bytes := [46, 98, 97, 115, 101, 46, 97, 111, 102]  // ".base.aof"
  const BASE_RDB: bytes := [46, 98, 97, 115, 101, 46, 114, 100, 98]  // ".base.rdb"
  const INCR_AOF: bytes := [46, 105, 110, 99, 114, 46, 97, 111, 102] // ".incr.aof"

  function BaseName(prefix: bytes, n: nat, rdb: bool): bytes {
    prefix + ([46] + Digits(n)) + (if rdb then BASE_RDB else BASE_AOF)
  }

  function IncrName(prefix: bytes, n: nat): bytes {
    prefix + ([46] + Digits(n)) + INCR_AOF
  }

  predicate IsBaseName(prefix: bytes, name: bytes, n: nat) {
    name == BaseName(prefix, n, true) || name == BaseName(prefix, n, false)
  }

  lemma NameSuffix(prefix: bytes, n: nat, suffix: bytes)
    requires |suffix| == 9
    ensures var name := prefix + ([46] + Digits(n)) + suffix;
            && |name| == |prefix| + 1 + |Digits(n)| + 9
            && name[|name| - 9..] == suffix
            && name[|prefix| + 1..|name| - 9] == Digits(n)
  {
    var name := prefix + ([46] + Digits(n)) + suffix;
    assert name[|name| - 9..] == suffix;
    assert name[|prefix| + 1..|name| - 9] == Digits(n);
  }

  /** Names differ whenever the type or the sequence number differs. */
  lemma NamesApart(prefix: bytes, m: nat, n: nat)
    ensures IncrName(prefix, m) == IncrName(prefix, n) ==> m == n
    ensures !IsBaseName(prefix, IncrName(prefix, m), n)
    ensures forall x :: IsBaseName(prefix, x, m) && IsBaseName(prefix, x, n) ==> m == n
  {
    hide Digits;
    NameSuffix(prefix, m, INCR_AOF);
    NameSuffix(prefix, n, INCR_AOF);
    NameSuffix(prefix, m, BASE_AOF);
    NameSuffix(prefix, n, BASE_AOF);
    NameSuffix(prefix, m, BASE_RDB);
    NameSuffix(prefix, n, BASE_RDB);
    assert INCR_AOF[1] != BASE_AOF[1] && INCR_AOF[1] != BASE_RDB[1];
    if Digits(m) == Digits(n) {
      DigitsInjective(m, n);
    }
  }

  /** The extension says how the file is encoded: "rdb" for a BASE with an RDB preamble, "aof" for any other. */
  lemma NamesSayFormat(prefix: bytes, n: nat, rdb: bool)
    ensures var b, i := BaseName(prefix, n, rdb), IncrName(prefix, n);
            && |b| >= 3 && b[|b| - 3..] == (if rdb then [114, 100, 98] else [97, 111, 102])
            && |i| >= 3 && i[|i| - 3..] == [97, 111, 102]
  {
    hide Digits;
    NameSuffix(prefix, n, if rdb then BASE_RDB else BASE_AOF);
    NameSuffix(prefix, n, INCR_AOF);
    var b, i := BaseName(prefix, n, rdb), IncrName(prefix, n);
    assert b[|b| - 9..][6..] == b[|b| - 3..] && i[|i| - 9..][6..] == i[|i| - 3..];
  }

  // ---------------------------------------------------------------- invariant

  ghost predicate IncrOk(prefix: bytes, incr: seq<AofInfo>) {
    && (forall i :: 0 <= i < |incr| ==>
          incr[i].kind == Incr && incr[i].seqno >= 1 && incr[i].name == IncrName(prefix, incr[i].seqno))
    && (forall i, j :: 0 <= i < j < |incr| ==> incr[i].seqno < incr[j].seqno)
  }

  ghost predicate BaseOk(prefix: bytes, base: Option<AofInfo>) {
    base.Some? ==>
      base.value.kind == Base && base.value.seqno >= 1 && IsBaseName(prefix, base.value.name, base.value.seqno)
  }

  /** A history entry is an earlier BASE, or an INCR older than every INCR still in use. */
  ghost predicate HistoryEntryOk(prefix: bytes, h: AofInfo, m: Manifest) {
    && h.kind == History && h.seqno >= 1
    && ((IsBaseName(prefix, h.name, h.seqno) && h.seqno <= m.baseSeq && (m.base.Some? ==> h.seqno < m.base.value.seqno))
        || (h.name == IncrName(prefix, h.seqno) && h.seqno <= m.incrSeq
            && forall i :: 0 <= i < |m.incr| ==> h.seqno < m.incr[i].seqno))
  }

  ghost predicate Ok(prefix: bytes, m: Manifest) {
    && BaseOk(prefix, m.base)
    && IncrOk(prefix, m.incr)
    && m.baseSeq == (if m.base.Some? then m.base.value.seqno else 0)
    && (forall i :: 0 <= i < |m.incr| ==> m.incr[i].seqno <= m.incrSeq)
    && (m.incr != [] ==> m.incr[|m.incr| - 1].seqno == m.incrSeq)
    && (forall i :: 0 <= i < |m.history| ==> HistoryEntryOk(prefix, m.history[i], m))
    && (forall i, j :: 0 <= i < j < |m.history| ==> m.history[i].name != m.history[j].name)
  }

  // ---------------------------------------------------------------- updates as values

  function AsHistory(infos: seq<AofInfo>): (r: seq<AofInfo>)
    ensures |r| == |infos| && forall i :: 0 <= i < |r| ==> r[i] == infos[i].(kind := History)
  {
    seq(|infos|, i requires 0 <= i < |infos| => infos[i].(kind := History))
  }

  function WithNewBase(m: Manifest, prefix: bytes, rdb: bool): Manifest {
    var n := m.baseSeq + 1;
    m.(base := Some(AofInfo(BaseName(prefix, n, rdb), n, Base)),
       history := (if m.base.Some? then AsHistory([m.base.value]) else []) + m.history,
       baseSeq := n, dirty := true)
  }

  function WithNewIncr(m: Manifest, prefix: bytes): Manifest {
    var n := m.incrSeq + 1;
    m.(incr := m.incr + [AofInfo(IncrName(prefix, n), n, Incr)], incrSeq := n, dirty := true)
  }

  /** All INCR files, or all but the open one, become history, keeping their order. */
  function WithRewrittenAsHistory(m: Manifest, keepLast: bool): Manifest {
    if m.incr == [] then m else
      var k := if keepLast then |m.incr| - 1 else |m.incr|;
      m.(incr := m.incr[k..], history := AsHistory(m.incr[..k]) + m.history, dirty := true)
  }

  /** What a restart makes of a manifest it reads: sequence numbers come from the lists. */
  function Reloaded(m: Manifest): Manifest {
    Manifest(m.base, m.incr, m.history,
             if m.base.Some? then m.base.value.seqno else 0,
             if m.incr != [] then m.incr[|m.incr| - 1].seqno else 0, false)
  }

  // ---------------------------------------------------------------- the invariant is kept

  lemma NewIncrOk(prefix: bytes, m: Manifest)
    requires Ok(prefix, m)
    ensures Ok(prefix, WithNewIncr(m, prefix))
  {
    hide IncrName, IsBaseName;
    var r := WithNewIncr(m, prefix);
    forall i | 0 <= i < |r.history| ensures HistoryEntryOk(prefix, r.history[i], r) {
      assert HistoryEntryOk(prefix, m.history[i], m);
    }
  }

  lemma NewBaseOk(prefix: bytes, m: Manifest, rdb: bool)
    requires Ok(prefix, m)
    ensures Ok(prefix, WithNewBase(m, prefix, rdb))
  {
    hide IncrName, BaseName;
    var r := WithNewBase(m, prefix, rdb);
    var k := if m.base.Some? then 1 else 0;
    forall i | 0 <= i < |r.history| ensures HistoryEntryOk(prefix, r.history[i], r) {
      if i >= k {
        assert r.history[i] == m.history[i - k] && HistoryEntryOk(prefix, m.history[i - k], m);
      }
    }
    if m.base.Some? {
      forall j | 0 <= j < |m.history| ensures m.history[j].name != m.base.value.name {
        assert HistoryEntryOk(prefix, m.history[j], m);
        NamesApart(prefix, m.history[j].seqno, m.base.value.seqno);
      }
    }
    forall i, j | 0 <= i < j < |r.history| ensures r.history[i].name != r.history[j].name {
      assert r.history[j] == m.history[j - k];
      if i >= k { assert r.history[i] == m.history[i - k]; }
    }
  }

  lemma RewrittenOk(prefix: bytes, m: Manifest, keepLast: bool)
    requires Ok(prefix, m)
    ensures Ok(prefix, WithRewrittenAsHistory(m, keepLast))
  {
    hide IncrName, BaseName, IsBaseName;
    if m.incr != [] {
      var k := if keepLast then |m.incr| - 1 else |m.incr|;
      var r := WithRewrittenAsHistory(m, keepLast);
      assert forall i :: 0 <= i < |r.incr| ==> r.incr[i] == m.incr[k + i];
      forall i | 0 <= i < |r.history| ensures HistoryEntryOk(prefix, r.history[i], r) {
        if i >= k {
          assert r.history[i] == m.history[i - k] && HistoryEntryOk(prefix, m.history[i - k], m);
        } else {
          assert r.history[i] == m.incr[i].(kind := History);
        }
      }
      RewrittenDistinct(prefix, m, k);
    }
  }

  lemma RewrittenDistinct(prefix: bytes, m: Manifest, k: nat)
    requires Ok(prefix, m) && k <= |m.incr|
    ensures var h := AsHistory(m.incr[..k]) + m.history;
            forall i, j :: 0 <= i < j < |h| ==> h[i].name != h[j].name
  {
    hide IncrName, BaseName, IsBaseName;
    var h := AsHistory(m.incr[..k]) + m.history;
    forall i, j | 0 <= i < j < |h| ensures h[i].name != h[j].name {
      if j < k {
        NamesApart(prefix, m.incr[i].seqno, m.incr[j].seqno);
      } else if i < k {
        HistoryNotLive(prefix, m, j - k);
      }
    }
  }

  lemma ReloadedOk(prefix: bytes, m: Manifest)
    requires Ok(prefix, m) && m.incr != []
    ensures Ok(prefix, Reloaded(m)) && Reloaded(m) == m.(dirty := false)
  {
  }

  /** No file is recorded twice: history names are neither the BASE nor an INCR. */
  lemma HistoryNotLive(prefix: bytes, m: Manifest, i: nat)
    requires Ok(prefix, m) && i < |m.history|
    ensures m.base.Some? ==> m.history[i].name != m.base.value.name
    ensures forall j :: 0 <= j < |m.incr| ==> m.history[i].name != m.incr[j].name
  {
    hide IncrName, BaseName, IsBaseName;
    var h := m.history[i];
    assert HistoryEntryOk(prefix, h, m);
    if m.base.Some? {
      NamesApart(prefix, h.seqno, m.base.value.seqno);
    }
    forall j | 0 <= j < |m.incr| ensures h.name != m.incr[j].name {
      NamesApart(prefix, m.incr[j].seqno, h.seqno);
    }
  }

  lemma BaseNotIncr(prefix: bytes, m: Manifest)
    requires Ok(prefix, m)
    ensures forall j :: 0 <= j < |m.incr| && m.base.Some? ==> m.base.value.name != m.incr[j].name
    ensures forall i, j :: 0 <= i < j < |m.incr| ==> m.incr[i].name != m.incr[j].name
  {
    hide IncrName, BaseName, IsBaseName;
    if m.base.Some? {
      forall j | 0 <= j < |m.incr| ensures m.base.value.name != m.incr[j].name {
        NamesApart(prefix, m.incr[j].seqno, m.base.value.seqno);
      }
    }
    forall i, j | 0 <= i < j < |m.incr| ensures m.incr[i].name != m.incr[j].name {
      NamesApart(prefix, m.incr[i].seqno, m.incr[j].seqno);
    }
  }

  // ---------------------------------------------------------------- the structure updated in place

  class ManifestState {
    var base: Option<AofInfo>
    var incr: seq<AofInfo>
    var history: seq<AofInfo>
    var baseSeq: nat
    var incrSeq: nat
    var dirty: bool

    ghost function View(): Manifest
      reads this
    {
      Manifest(base, incr, history, baseSeq, incrSeq, dirty)
    }

    constructor (m: Manifest)
      ensures View() == m
    {
      base, incr, history := m.base, m.incr, m.history;
      baseSeq, incrSeq, dirty := m.baseSeq, m.incrSeq, m.dirty;
    }

    /** aofManifestDup */
    method Dup() returns (r: ManifestState)
      ensures fresh(r) && r.View() == View()
    {
      r := new ManifestState(Manifest(base, incr, history, baseSeq, incrSeq, dirty));
    }

    /** getNewBaseFileNameAndMarkPreAsHistory */
    method NewBaseFileName(prefix: bytes, rdb: bool) returns (name: bytes)
      modifies this
      ensures View() == WithNewBase(old(View()), prefix, rdb)
      ensures name == BaseName(prefix, baseSeq, rdb) && base == Some(AofInfo(name, baseSeq, Base))
    {
      if base.Some? {
        history := [base.value.(kind := History)] + history;
      }
      baseSeq := baseSeq + 1;
      name := BaseName(prefix, baseSeq, rdb);
      base := Some(AofInfo(name, baseSeq, Base));
      dirty := true;
    }

    /** getNewIncrAofName */
    method NewIncrAofName(prefix: bytes) returns (name: bytes)
      modifies this
      ensures View() == WithNewIncr(old(View()), prefix)
      ensures name == IncrName(prefix, incrSeq)
    {
      incrSeq := incrSeq + 1;
      name := IncrName(prefix, incrSeq);
      incr := incr + [AofInfo(name, incrSeq, Incr)];
      dirty := true;
    }

    /** markRewrittenIncrAofAsHistory: walks the INCR list from its tail, skipping the open file. */
    method MarkRewrittenIncrAofAsHistory(fdOpen: bool)
      modifies this
      ensures View() == WithRewrittenAsHistory(old(View()), fdOpen)
    {
      if incr == [] { return; }
      ghost var k := if fdOpen then |incr| - 1 else |incr|;
      var i := if fdOpen then |incr| - 1 else |incr|;
      while i > 0
        invariant 0 <= i <= k
        invariant incr == old(incr)[..i] + old(incr)[k..]
        invariant history == AsHistory(old(incr)[i..k]) + old(history)
        invariant base == old(base) && baseSeq == old(baseSeq) && incrSeq == old(incrSeq) && dirty == old(dirty)
      {
        i := i - 1;
        var ai := incr[i];
        assert ai == old(incr)[i];
        assert AsHistory(old(incr)[i..k]) == [ai.(kind := History)] + AsHistory(old(incr)[i + 1..k]);
        history := [ai.(kind := History)] + history;
        incr := incr[..i] + incr[i + 1..];
      }
      dirty := true;
      assert old(incr)[0..k] == old(incr)[..k];
      assert [] + old(incr)[k..] == old(incr)[k..];
    }
  }
}
