/** Writing the AOF buffer out: retries after short writes, undoing a partial write with
    ftruncate, and what that does to a descriptor opened with or without O_APPEND. */
module AofFlush {
  import opened Bytes

  /** What one write(2) call does. */
  datatype IoResult = Wrote(n: nat) | Interrupted | IoError

  datatype Written = Written(n: nat, failed: bool)

  /** How much of `len` bytes the retry loop gets out when write(2) answers `io`, then works. */
  function Attempt(len: nat, io: seq<IoResult>): (r: Written)
    ensures r.n <= len
    ensures r.failed ==> r.n < len
    ensures !r.failed ==> r.n == len
    decreases io
  {
    if len == 0 || io == [] then Written(len, false) else
      match io[0]
      case Interrupted => Attempt(len, io[1..])
      case IoError => Written(0, true)
      case Wrote(n) =>
        var k := if n <= len then n else len;
        var r := Attempt(len - k, io[1..]);
        Written(k + r.n, r.failed)
  }

  /** File content after writing `data` at offset `at`; a gap reads as zeros. */
  function WriteAt(file: bytes, at: nat, data: bytes): bytes {
    if data == [] then file
    else if at > |file| then file + Zeros(at - |file|) + data
    else file[..at] + data + (if at + |data| < |file| then file[at + |data|..] else [])
  }

  function Truncate(file: bytes, n: nat): bytes {
    if n <= |file| then file[..n] else file + Zeros(n - |file|)
  }

  /** The open INCR file, its descriptor's offset and O_APPEND flag, aof_buf and aof_last_incr_size. */
  datatype Fd = Fd(file: bytes, offset: nat, append: bool, buf: bytes, size: nat, statusOk: bool)
  {
    function Pos(): nat {
      if append then |file| else offset
    }

    /** The next write goes to the end of the file. */
    predicate Aligned() {
      append || offset == |file|
    }

    function Content(): bytes {
      file + buf
    }
  }

  /** flushAppendOnlyFile under a policy other than "always". */
  function Flush(fd: Fd, io: seq<IoResult>, truncateOk: bool): Fd {
    if fd.buf == [] then fd else
      var w := Attempt(|fd.buf|, io);
      var file := WriteAt(fd.file, fd.Pos(), fd.buf[..w.n]);
      var offset := if w.n > 0 then fd.Pos() + w.n else fd.offset;
      if !w.failed then Fd(file, offset, fd.append, [], fd.size + w.n, true)
      else if w.n == 0 then fd.(statusOk := false)
      else if truncateOk then Fd(Truncate(file, fd.size), offset, fd.append, fd.buf, fd.size, false)
      else Fd(file, offset, fd.append, fd.buf[w.n..], fd.size + w.n, false)
  }

  /** Bytes of the buffer that this flush leaves in the file. */
  function BytesKept(fd: Fd, io: seq<IoResult>, truncateOk: bool): nat {
    var w := Attempt(|fd.buf|, io);
    if w.failed && truncateOk then 0 else w.n
  }

  predicate Undoes(fd: Fd, io: seq<IoResult>, truncateOk: bool) {
    var w := Attempt(|fd.buf|, io);
    w.failed && w.n > 0 && truncateOk
  }

  // ---------------------------------------------------------------- one flush

  lemma WriteAtEnd(file: bytes, data: bytes)
    ensures WriteAt(file, |file|, data) == file + data
  {
  }

  lemma WriteBeyond(file: bytes, at: nat, data: bytes)
    requires at >= |file| && data != []
    ensures WriteAt(file, at, data) == file + (Zeros(at - |file|) + data)
  {
    assert Zeros(0) == [];
  }

  /** On a descriptor whose offset is not before the end of the file, a flush neither loses nor
      duplicates a byte if and only if the offset is at the end or no byte of this flush stays. */
  lemma FlushConserves(fd: Fd, io: seq<IoResult>, truncateOk: bool)
    requires fd.size == |fd.file| && (fd.append || fd.offset >= |fd.file|)
    ensures var r := Flush(fd, io, truncateOk);
            (r.Content() == fd.Content() && r.size == |r.file|)
            <==> (fd.Aligned() || BytesKept(fd, io, truncateOk) == 0)
  {
    if fd.buf != [] {
      hide WriteAt, Attempt;
      var w := Attempt(|fd.buf|, io);
      var part := fd.buf[..w.n];
      assert part + fd.buf[w.n..] == fd.buf;
      if w.n > 0 {
        WriteBeyond(fd.file, fd.Pos(), part);
        var gap := fd.Pos() - |fd.file|;
        var file := WriteAt(fd.file, fd.Pos(), part);
        if gap == 0 {
          assert Zeros(0) + part == part;
        }
        assert file[..fd.size] == fd.file;
        Regroup(fd.file, Zeros(gap) + part, fd.buf[w.n..]);
        assert |file| == |fd.file| + gap + w.n;
      }
    }
  }

  lemma Regroup(a: bytes, b: bytes, c: bytes)
    ensures a + b + c == a + (b + c)
  {
  }

  /** A flush leaves the descriptor at the end of the file, except when it undoes a partial write
      on a descriptor without O_APPEND. */
  lemma FlushAligned(fd: Fd, io: seq<IoResult>, truncateOk: bool)
    requires fd.size == |fd.file| && fd.Aligned()
    ensures var r := Flush(fd, io, truncateOk);
            && (r.Aligned() <==> fd.append || !Undoes(fd, io, truncateOk))
            && (r.append || r.offset >= |r.file|)
            && r.append == fd.append
  {
    if fd.buf != [] {
      hide WriteAt, Attempt;
      var w := Attempt(|fd.buf|, io);
      WriteAtEnd(fd.file, fd.buf[..w.n]);
    }
  }

  function Accepted(io: seq<IoResult>): nat {
    if io == [] then 0 else (if io[0].Wrote? then io[0].n else 0) + Accepted(io[1..])
  }

  /** The retry loop gets everything out, unless an error comes before write(2) has accepted enough; then
      exactly what was accepted before that first error is out. */
  lemma {:induction false} AttemptIs(len: nat, io: seq<IoResult>, j: nat)
    requires j <= |io| && IoError !in io[..j] && (j < |io| ==> io[j] == IoError)
    ensures Attempt(len, io)
         == if j < |io| && Accepted(io[..j]) < len then Written(Accepted(io[..j]), true) else Written(len, false)
    decreases io
  {
    if len > 0 && j > 0 {
      assert io[..j][0] == io[0] && io[..j][1..] == io[1..][..j - 1];
      var k := if io[0].Wrote? then (if io[0].n <= len then io[0].n else len) else 0;
      AttemptIs(len - k, io[1..], j - 1);
    }
  }

  /** What a flush writes: exactly the bytes that stay go from the buffer's front to the file's end, the
      recorded size follows, and the status says whether everything went out. */
  lemma FlushWrites(fd: Fd, io: seq<IoResult>, truncateOk: bool)
    requires fd.size == |fd.file| && fd.Aligned()
    ensures var r, k := Flush(fd, io, truncateOk), BytesKept(fd, io, truncateOk);
            && k <= |fd.buf|
            && r.file == fd.file + fd.buf[..k] && r.buf == fd.buf[k..] && r.size == |r.file|
            && (fd.buf == [] ==> r == fd)
            && (fd.buf != [] ==> r.statusOk == !Attempt(|fd.buf|, io).failed)
            && (r.buf == [] <==> fd.buf == [] || r.statusOk)
  {
    hide WriteAt, Attempt;
    var w := Attempt(|fd.buf|, io);
    WriteAtEnd(fd.file, fd.buf[..w.n]);
    assert fd.file + [] == fd.file && fd.buf[..0] == [];
  }

  // ---------------------------------------------------------------- runs

  datatype Event = Fed(data: bytes) | Flushed(io: seq<IoResult>, truncateOk: bool)

  function Start(append: bool): Fd {
    Fd([], 0, append, [], 0, true)
  }

  function Step(fd: Fd, e: Event): Fd {
    match e
    case Fed(data) => fd.(buf := fd.buf + data)
    case Flushed(io, truncateOk) => Flush(fd, io, truncateOk)
  }

  function Run(append: bool, events: seq<Event>): Fd {
    if events == [] then Start(append)
    else Step(Run(append, events[..|events| - 1]), events[|events| - 1])
  }

  function FedBytes(events: seq<Event>): bytes {
    if events == [] then []
    else
      var e := events[|events| - 1];
      FedBytes(events[..|events| - 1]) + (if e.Fed? then e.data else [])
  }

  /** Some flush of the run leaves bytes in the file beyond a gap. */
  predicate WritesHole(append: bool, events: seq<Event>) {
    events != [] &&
    var before, e := events[..|events| - 1], events[|events| - 1];
    var fd := Run(append, before);
    WritesHole(append, before) || (e.Flushed? && !fd.Aligned() && BytesKept(fd, e.io, e.truncateOk) > 0)
  }

  /** File followed by buffer is exactly what was fed, and the recorded size is the file's. */
  predicate Conserved(append: bool, events: seq<Event>) {
    var r := Run(append, events);
    r.Content() == FedBytes(events) && r.size == |r.file|
  }

  ghost predicate AlwaysConserved(append: bool, events: seq<Event>) {
    forall n :: 0 <= n <= |events| ==> Conserved(append, events[..n])
  }

  /** Over any run of feeds and flushes, with any short writes, write errors and failed truncations: nothing is lost,
      repeated or inserted at any moment if and only if no flush writes beyond a gap. */
  lemma {:induction false} RunConserves(append: bool, events: seq<Event>)
    ensures AlwaysConserved(append, events) <==> !WritesHole(append, events)
  {
    hide Conserved, WritesHole, AlwaysConserved;
    AlwaysSnoc(append, events);
    if events == [] {
      ConservedUnlessHole(append, events);
    } else {
      var before := events[..|events| - 1];
      RunConserves(append, before);
      if WritesHole(append, before) {
        HoleGrows(append, events);
      } else {
        ConservedUnlessHole(append, events);
      }
    }
  }

  lemma {:induction false} AlwaysSnoc(append: bool, events: seq<Event>)
    ensures AlwaysConserved(append, events) <==>
            Conserved(append, events) && (events != [] ==> AlwaysConserved(append, events[..|events| - 1]))
  {
    hide Conserved;
    var n := |events|;
    assert events[..n] == events;
    if n > 0 {
      var before := events[..n - 1];
      assert forall k :: 0 <= k <= n - 1 ==> before[..k] == events[..k];
      if AlwaysConserved(append, before) && Conserved(append, events) {
        forall k | 0 <= k <= n ensures Conserved(append, events[..k]) {
          if k < n { assert Conserved(append, before[..k]); }
        }
      }
      if AlwaysConserved(append, events) {
        forall k | 0 <= k <= n - 1 ensures Conserved(append, before[..k]) {
          assert Conserved(append, events[..k]);
        }
        assert Conserved(append, events[..n]);
      }
    }
  }

  lemma HoleGrows(append: bool, events: seq<Event>)
    requires events != [] && WritesHole(append, events[..|events| - 1])
    ensures WritesHole(append, events)
  {
    hide Run;
  }

  lemma {:induction false} ConservedUnlessHole(append: bool, events: seq<Event>)
    requires events != [] ==> !WritesHole(append, events[..|events| - 1])
    ensures Conserved(append, events) <==> !WritesHole(append, events)
    ensures var r := Run(append, events);
            && r.append == append
            && (!WritesHole(append, events) ==> append || r.offset >= |r.file|)
  {
    if events != [] {
      var before, e := events[..|events| - 1], events[|events| - 1];
      if before != [] { HoleStays(append, before); }
      ConservedUnlessHole(append, before);
      var fd := Run(append, before);
      match e
      case Fed(data) => Regroup(fd.file, fd.buf, data);
      case Flushed(io, truncateOk) =>
        assert FedBytes(before) + [] == FedBytes(before);
        FlushConserves(fd, io, truncateOk);
        FlushOffset(fd, io, truncateOk);
    }
  }

  lemma HoleStays(append: bool, events: seq<Event>)
    requires events != [] && !WritesHole(append, events)
    ensures !WritesHole(append, events[..|events| - 1])
  {
  }

  /** The i-th event is a flush that undoes a partial write. */
  ghost predicate UndoneAt(append: bool, events: seq<Event>, i: nat)
    requires i < |events|
  {
    events[i].Flushed? && Undoes(Run(append, events[..i]), events[i].io, events[i].truncateOk)
  }

  /** The j-th event is a flush of which bytes stay in the file. */
  ghost predicate KeptAt(append: bool, events: seq<Event>, j: nat)
    requires j < |events|
  {
    events[j].Flushed? && BytesKept(Run(append, events[..j]), events[j].io, events[j].truncateOk) > 0
  }

  ghost predicate Undone(append: bool, events: seq<Event>) {
    exists i :: 0 <= i < |events| && UndoneAt(append, events, i)
  }

  /** A hole is written exactly when, without O_APPEND, something is written after an undone partial write. */
  lemma {:induction false} HoleIffRetried(append: bool, events: seq<Event>)
    ensures WritesHole(append, events) <==>
            !append && exists i, j :: 0 <= i < j < |events| && UndoneAt(append, events, i) && KeptAt(append, events, j)
  {
    hide Undoes, BytesKept, Run;
    if events != [] {
      var n := |events| - 1;
      var before := events[..n];
      HoleIffRetried(append, before);
      assert forall i :: 0 <= i <= n ==> before[..i] == events[..i];
      assert forall i :: 0 <= i < n ==> (UndoneAt(append, before, i) <==> UndoneAt(append, events, i));
      assert forall j :: 0 <= j < n ==> (KeptAt(append, before, j) <==> KeptAt(append, events, j));
      if !WritesHole(append, before) {
        AlignedUntilUndone(append, before);
        if Undone(append, before) && KeptAt(append, events, n) {
          var i :| 0 <= i < n && UndoneAt(append, before, i);
          assert UndoneAt(append, events, i) && KeptAt(append, events, n);
        }
      }
    }
  }

  /** As long as no hole is written, the offset is at the end exactly until a partial write is undone. */
  lemma {:induction false} AlignedUntilUndone(append: bool, events: seq<Event>)
    requires !WritesHole(append, events)
    ensures Run(append, events).Aligned() <==> append || !Undone(append, events)
  {
    if events != [] {
      hide Flush, Undoes, BytesKept, Undone;
      var n := |events| - 1;
      HoleStays(append, events);
      AlignedUntilUndone(append, events[..n]);
      if n > 0 { HoleStays(append, events[..n]); }
      ConservedUnlessHole(append, events[..n]);
      UndoneSnoc(append, events);
      var fd, e := Run(append, events[..n]), events[n];
      if e.Flushed? {
        if fd.Aligned() {
          FlushAligned(fd, e.io, e.truncateOk);
        } else {
          FlushStaysOff(fd, e.io, e.truncateOk);
        }
      }
    }
  }

  lemma UndoneSnoc(append: bool, events: seq<Event>)
    requires events != []
    ensures var n := |events| - 1;
            Undone(append, events) <==> Undone(append, events[..n]) || UndoneAt(append, events, n)
  {
    hide Undoes, Run;
    var n := |events| - 1;
    var before := events[..n];
    assert forall i :: 0 <= i <= n ==> before[..i] == events[..i];
    assert forall i :: 0 <= i < n ==> (UndoneAt(append, before, i) <==> UndoneAt(append, events, i));
  }

  lemma FlushStaysOff(fd: Fd, io: seq<IoResult>, truncateOk: bool)
    requires fd.size == |fd.file| && !fd.Aligned() && fd.offset >= |fd.file| && BytesKept(fd, io, truncateOk) == 0
    ensures !Flush(fd, io, truncateOk).Aligned()
  {
    if fd.buf != [] {
      hide WriteAt, Attempt;
      var w := Attempt(|fd.buf|, io);
      if w.n > 0 {
        WriteBeyond(fd.file, fd.offset, fd.buf[..w.n]);
      }
    }
  }

  lemma FlushOffset(fd: Fd, io: seq<IoResult>, truncateOk: bool)
    requires fd.size == |fd.file| && (fd.append || fd.offset >= |fd.file|)
    ensures var r := Flush(fd, io, truncateOk);
            r.append == fd.append && (r.append || r.offset >= |r.file|)
  {
    if fd.buf != [] {
      hide WriteAt, Attempt;
      var w := Attempt(|fd.buf|, io);
      if w.n > 0 && !fd.append {
        WriteBeyond(fd.file, fd.offset, fd.buf[..w.n]);
      }
    }
  }

  /** After any run whose descriptor is still at the end of its file, one flush that meets no error puts
      everything ever fed into the file. */
  lemma QuietFlushDrains(append: bool, events: seq<Event>, io: seq<IoResult>, truncateOk: bool)
    requires !WritesHole(append, events) && (append || !Undone(append, events)) && IoError !in io
    ensures var r := Run(append, events + [Flushed(io, truncateOk)]);
            r.file == FedBytes(events) && r.buf == [] && r.size == |r.file|
  {
    hide Flush, WritesHole, Undone, Run;
    var all := events + [Flushed(io, truncateOk)];
    assert all[..|all| - 1] == events;
    RunSnoc(append, all);
    if events != [] { HoleStays(append, events); }
    ConservedUnlessHole(append, events);
    AlignedUntilUndone(append, events);
    var fd := Run(append, events);
    FlushWrites(fd, io, truncateOk);
    assert io[..|io|] == io;
    AttemptIs(|fd.buf|, io, |io|);
    assert fd.buf[..|fd.buf|] == fd.buf;
  }

  lemma RunSnoc(append: bool, events: seq<Event>)
    requires events != []
    ensures Run(append, events) == Step(Run(append, events[..|events| - 1]), events[|events| - 1])
  {
  }

  /** A descriptor opened with O_APPEND never writes a hole. */
  lemma {:induction false} AppendWritesNoHole(events: seq<Event>)
    ensures !WritesHole(true, events) && Run(true, events).append
  {
    if events != [] {
      var before, e := events[..|events| - 1], events[|events| - 1];
      AppendWritesNoHole(before);
    }
  }

  /** Without O_APPEND: a short write undone by ftruncate, then a retry, puts zeros before the data. */
  lemma HoleWithoutAppend(a: byte, b: byte, c: byte)
    ensures Run(false, [Fed([a, b, c]), Flushed([Wrote(2), IoError], true), Flushed([], true)]).file
         == [0, 0, a, b, c]
  {
    var data: bytes := [a, b, c];
    var events := [Fed(data), Flushed([Wrote(2), IoError], true), Flushed([], true)];
    assert events[..2][..1] == [Fed(data)];
    assert [Fed(data)][..0] == [];
    var s1 := Run(false, [Fed(data)]);
    assert Run(false, []) == Start(false) && [] + data == data;
    assert s1 == Fd([], 0, false, data, 0, true);
    var io := [Wrote(2), IoError];
    assert io[1..] == [IoError];
    assert Attempt(1, [IoError]) == Written(0, true);
    assert Attempt(3, io) == Written(2, true);
    var s2 := Flush(s1, io, true);
    assert s2 == Fd([], 2, false, data, 0, false);
    assert events[..2][|events[..2]| - 1] == events[1];
    assert Run(false, events[..2]) == s2;
    assert Attempt(3, []) == Written(3, false);
    assert data[..3] == data;
    assert Zeros(2) == [0, 0];
  }

  // ---------------------------------------------------------------- the server's fields

  datatype Policy = Always | EverySec | No

  /** aof_flush_postponed_start after a call at `now` that finds a fsync running and need not write. */
  function PostponedSince(start: nat, now: nat): nat {
    if start == 0 then now else start
  }

  /** A call waits for the fsync when none waited before it, or the first did less than two seconds ago. */
  predicate MayWait(start: nat, now: nat) {
    start == 0 || now - start < 2
  }

  /** All calls at `times` wait, the first of them with `start` recorded. */
  predicate AllWait(start: nat, times: seq<nat>)
    decreases times
  {
    times == [] || (MayWait(start, times[0]) && AllWait(PostponedSince(start, times[0]), times[1..]))
  }

  /** However often the flush is called meanwhile, its data waits less than two seconds: calls in a row
      wait if and only if each comes less than two seconds after the first. */
  lemma {:induction false} WaitsUnderTwoSeconds(times: seq<nat>)
    requires times != [] && times[0] > 0
    ensures AllWait(0, times) <==> forall i :: 0 <= i < |times| ==> times[i] < times[0] + 2
  {
    WaitsSince(times[0], times[1..]);
    assert forall i :: 0 < i < |times| ==> times[i] == times[1..][i - 1];
  }

  lemma {:induction false} WaitsSince(start: nat, times: seq<nat>)
    requires start > 0
    ensures AllWait(start, times) <==> forall i :: 0 <= i < |times| ==> times[i] < start + 2
  {
    if times != [] {
      WaitsSince(start, times[1..]);
      assert forall i :: 0 < i < |times| ==> times[i] == times[1..][i - 1];
    }
  }

  datatype FlushResult = Nothing | Postponed | Retry | Exited | Done

  class AofWriter {
    var file: bytes
    var offset: nat
    const append: bool
    var buf: bytes
    var lastIncrSize: nat
    var currentSize: nat
    var lastWriteOk: bool
    var postponedStart: nat
    const policy: Policy

    ghost function View(): Fd
      reads this
    {
      Fd(file, offset, append, buf, lastIncrSize, lastWriteOk)
    }

    constructor (append: bool, policy: Policy)
      ensures View() == Start(append) && this.policy == policy && currentSize == 0
    {
      file, offset, buf, lastIncrSize, currentSize := [], 0, [], 0, 0;
      lastWriteOk, postponedStart := true, 0;
      this.append, this.policy := append, policy;
    }

    /** write(2) of `data` when it accepts all of it. */
    method WriteSome(data: bytes)
      modifies this`file, this`offset
      ensures file == WriteAt(old(file), old(View().Pos()), data)
      ensures offset == (if data == [] then old(offset) else old(View().Pos()) + |data|)
    {
      var at := if append then |file| else offset;
      if data != [] {
        if at > |file| {
          file := file + Zeros(at - |file|) + data;
        } else {
          file := file[..at] + data + (if at + |data| < |file| then file[at + |data|..] else []);
        }
        offset := at + |data|;
      }
    }

    /** The first `tot` bytes of the buffer have been written at `at`, and no more. */
    ghost predicate WrittenSoFar(was: bytes, first: nat, at: nat, tot: nat)
      reads this
    {
      && at == (if append then |was| else first) >= |was| && tot <= |buf|
      && file == WriteAt(was, at, buf[..tot]) && offset == (if tot > 0 then at + tot else first)
      && (tot > 0 ==> |file| == at + tot)
    }

    /** A write(2) that accepts the next `k` bytes. */
    method WriteOn(tot: nat, k: nat, ghost was: bytes, ghost first: nat, ghost at: nat)
      requires WrittenSoFar(was, first, at, tot) && tot + k <= |buf|
      modifies this`file, this`offset
      ensures WrittenSoFar(was, first, at, tot + k)
    {
      hide WriteAt;
      WriteNothing(was, at);
      assert buf[..0] == [];
      WriteMore(was, at, buf, tot, k);
      WriteSome(buf[tot..tot + k]);
    }

    /** aofWrite: retry until everything is written or an error other than EINTR occurs. */
    method AofWrite(io: seq<IoResult>) returns (nwritten: int)
      requires append || offset >= |file|
      modifies this`file, this`offset
      ensures var w := Attempt(|buf|, io);
              && file == WriteAt(old(file), old(View().Pos()), buf[..w.n])
              && offset == (if w.n > 0 then old(View().Pos()) + w.n else old(offset))
              && nwritten == (if w.failed && w.n == 0 then -1 else w.n)
    {
      hide WriteAt, Attempt;
      var tot, i := 0, 0;
      ghost var at := View().Pos();
      assert io[0..] == io && buf[..0] == [];
      WriteNothing(file, at);
      while tot < |buf| && i < |io|
        invariant 0 <= tot <= |buf| && 0 <= i <= |io|
        invariant Attempt(|buf|, io) == Written(tot + Attempt(|buf| - tot, io[i..]).n,
                    Attempt(|buf| - tot, io[i..]).failed)
        invariant WrittenSoFar(old(file), old(offset), at, tot)
        decreases |io| - i
      {
        AttemptStep(|buf| - tot, io, i);
        match io[i] {
          case Interrupted =>
          case IoError =>
            return if tot > 0 then tot else -1;
          case Wrote(n) =>
            var k := if n <= |buf| - tot then n else |buf| - tot;
            WriteOn(tot, k, old(file), old(offset), at);
            tot := tot + k;
        }
        i := i + 1;
      }
      AttemptEnds(|buf| - tot, io[i..]);
      WriteOn(tot, |buf| - tot, old(file), old(offset), at);
      assert buf[..|buf|] == buf;
      nwritten := |buf|;
    }

    /** A non-forced flush under "everysec" waits up to two seconds for a running fsync. */
    predicate Postpones(force: bool, syncInProgress: bool, now: nat)
      reads this
    {
      policy == EverySec && !force && syncInProgress && MayWait(postponedStart, now)
    }

    /** A write that failed, after `nwritten` bytes or with none (-1): undo what was written if the file can be cut,
        else keep it and go on from there. */
    method WriteFailed(nwritten: int, truncateOk: bool) returns (r: FlushResult)
      requires nwritten == -1 || 0 < nwritten < |buf|
      modifies `file, `buf, `lastIncrSize, `currentSize, `lastWriteOk
      ensures r == if policy == Always then Exited else Retry
      ensures r == Retry ==>
                var kept := if nwritten == -1 || truncateOk then 0 else nwritten;
                && file == (if nwritten != -1 && truncateOk then Truncate(old(file), old(lastIncrSize)) else old(file))
                && buf == old(buf)[kept..] && !lastWriteOk
                && lastIncrSize == old(lastIncrSize) + kept && currentSize == old(currentSize) + kept
    {
      hide Truncate;
      var kept := nwritten;
      if kept != -1 && truncateOk {
        file := Truncate(file, lastIncrSize);
        kept := -1;
      }
      if policy == Always { return Exited; }
      lastWriteOk := false;
      if kept > 0 {
        currentSize := currentSize + kept;
        lastIncrSize := lastIncrSize + kept;
        buf := buf[kept..];
      }
      return Retry;
    }

    /** flushAppendOnlyFile up to the fsync. */
    method FlushAppendOnlyFile(force: bool, syncInProgress: bool, now: nat, io: seq<IoResult>, truncateOk: bool)
      returns (r: FlushResult)
      requires append || offset >= |file|
      modifies this
      ensures r == Nothing <==> old(buf) == []
      ensures r == Postponed <==> old(buf) != [] && old(Postpones(force, syncInProgress, now))
      ensures postponedStart == (if r == Nothing then old(postponedStart)
                                 else if r == Postponed then PostponedSince(old(postponedStart), now) else 0)
      ensures r == Exited || r == Retry <==> r != Nothing && r != Postponed && Attempt(|old(buf)|, io).failed
      ensures r == Exited ==> policy == Always
      ensures r == Retry ==> policy != Always
      ensures r != Exited ==> View() == if r == Postponed then old(View()) else Flush(old(View()), io, truncateOk)
      ensures r != Exited ==> currentSize - lastIncrSize == old(currentSize - lastIncrSize)
      ensures r == Done ==> buf == [] && lastWriteOk
    {
      hide WriteAt, Attempt, Truncate;
      ghost var was := View();
      if buf == [] { return Nothing; }
      if policy == EverySec && !force && syncInProgress {
        if postponedStart == 0 {
          postponedStart := now;
          return Postponed;
        } else if now - postponedStart < 2 {
          return Postponed;
        }
      }
      var nwritten := AofWrite(io);
      postponedStart := 0;
      if nwritten != |buf| {
        WriteNothing(was.file, was.Pos());
        r := WriteFailed(nwritten, truncateOk);
        return;
      }
      lastWriteOk := true;
      currentSize := currentSize + nwritten;
      lastIncrSize := lastIncrSize + nwritten;
      buf := [];
      return Done;
    }
  }

  lemma AttemptStep(len: nat, io: seq<IoResult>, i: nat)
    requires len > 0 && i < |io|
    ensures Attempt(len, io[i..]) ==
            match io[i]
            case Interrupted => Attempt(len, io[i + 1..])
            case IoError => Written(0, true)
            case Wrote(n) =>
              var k := if n <= len then n else len;
              Written(k + Attempt(len - k, io[i + 1..]).n, Attempt(len - k, io[i + 1..]).failed)
  {
    assert io[i..][1..] == io[i + 1..];
  }

  lemma AttemptEnds(len: nat, io: seq<IoResult>)
    requires len == 0 || io == []
    ensures Attempt(len, io) == Written(len, false)
  {
  }

  lemma WriteNothing(file: bytes, at: nat)
    ensures WriteAt(file, at, []) == file
  {
  }

  /** Two writes in a row, the second where the first ended, are one write. */
  lemma WriteMore(file: bytes, at: nat, data: bytes, n: nat, k: nat)
    requires n + k <= |data| && at >= |file|
    ensures var mid := WriteAt(file, at, data[..n]);
            && WriteAt(mid, if n > 0 then at + n else at, data[n..n + k]) == WriteAt(file, at, data[..n + k])
            && (n > 0 ==> |mid| == at + n)
            && (n + k > 0 ==> |WriteAt(file, at, data[..n + k])| == at + n + k)
  {
    assert data[..n + k] == data[..n] + data[n..n + k];
    if n > 0 {
      WriteBeyond(file, at, data[..n]);
    }
  }
}
