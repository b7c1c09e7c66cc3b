/** The background worker that fsyncs AOF files, and the replication offset it publishes as durable. */
module BioFsync {
  datatype JobType = AofFsync | CloseAof

  /** BIO_AOF_FSYNC and BIO_CLOSE_AOF jobs: the INCR file to sync and the offset to publish then. */
  datatype Job = Job(kind: JobType, file: nat, offset: int)

  // ---------------------------------------------------------------- the job queue

  function Count(jobs: seq<Job>, kind: JobType): nat {
    if jobs == [] then 0 else Count(jobs[1..], kind) + (if jobs[0].kind == kind then 1 else 0)
  }

  lemma {:induction false} CountConcat(a: seq<Job>, b: seq<Job>, kind: JobType)
    ensures Count(a + b, kind) == Count(a, kind) + Count(b, kind)
  {
    if a == [] {
      assert a + b == b;
    } else {
      assert (a + b)[1..] == a[1..] + b;
      CountConcat(a[1..], b, kind);
    }
  }

  lemma {:induction false} CountZero(jobs: seq<Job>, kind: JobType)
    ensures Count(jobs, kind) == 0 <==> forall i :: 0 <= i < |jobs| ==> jobs[i].kind != kind
  {
    if jobs != [] {
      CountZero(jobs[1..], kind);
      if Count(jobs, kind) == 0 {
        forall i | 0 <= i < |jobs| ensures jobs[i].kind != kind {
          if i > 0 { assert jobs[i] == jobs[1..][i - 1]; }
        }
      } else if jobs[0].kind != kind {
        var i :| 0 <= i < |jobs[1..]| && jobs[1..][i].kind == kind;
        assert jobs[i + 1].kind == kind;
      }
    }
  }

  /** bio_jobs[worker] and bio_jobs_counter[] of the worker that handles both AOF job types. The job
      being processed stays at the head of the list until it is finished. */
  class BioWorker {
    var jobs: seq<Job>
    var counter: map<JobType, nat>

    /** The pending count of a type is the number of its queued and running jobs. */
    ghost predicate Valid()
      reads this
    {
      && AofFsync in counter && counter[AofFsync] == Count(jobs, AofFsync)
      && CloseAof in counter && counter[CloseAof] == Count(jobs, CloseAof)
    }

    constructor ()
      ensures Valid() && jobs == []
    {
      jobs := [];
      counter := map[AofFsync := 0, CloseAof := 0];
    }

    /** bioSubmitJob */
    method SubmitJob(job: Job)
      requires Valid()
      modifies this
      ensures Valid() && jobs == old(jobs) + [job]
    {
      CountConcat(jobs, [job], AofFsync);
      CountConcat(jobs, [job], CloseAof);
      assert [job][1..] == [];
      jobs := jobs + [job];
      counter := counter[job.kind := counter[job.kind] + 1];
    }

    /** The worker's critical section before processing: the oldest job, left in the list. */
    method FirstJob() returns (job: Job)
      requires Valid() && jobs != []
      ensures job == jobs[0]
    {
      job := jobs[0];
    }

    /** The worker's critical section after processing. */
    method FinishJob()
      requires Valid() && jobs != []
      modifies this
      ensures Valid() && jobs == old(jobs)[1..]
    {
      var job := FirstJob();
      var kind := job.kind;
      jobs := jobs[1..];
      counter := counter[kind := counter[kind] - 1];
    }

    /** bioPendingJobsOfType; zero exactly when no such job is queued or running. */
    method PendingJobsOfType(kind: JobType) returns (n: nat)
      requires Valid()
      ensures n == Count(jobs, kind)
      ensures n == 0 <==> forall i :: 0 <= i < |jobs| ==> jobs[i].kind != kind
    {
      CountZero(jobs, kind);
      n := counter[kind];
    }
  }

  // ---------------------------------------------------------------- main thread and worker together

  /** One INCR file: the log commands [start, end) written to it, of which those below `synced` are durable. */
  datatype LogFile = LogFile(start: nat, end: nat, synced: nat)

  datatype Phase = Idle | Taken | Synced | Published

  /** Shared state. `stamps[i]` is the replication offset reached by the i-th command fed to the AOF. */
  datatype State = State(stamps: seq<int>, replOffset: int, files: seq<LogFile>,
                         jobs: seq<Job>, phase: Phase, published: int)

  datatype Action =
    | Feed(delta: int)             // a command is executed and fed; the offset grows
    | ReplicateOnly(delta: int)    // traffic that only the replicas see
    | PartialFlush(end: nat)       // a flush that could not write everything
    | Flush(fsync: bool)           // a complete flush, possibly starting a background fsync
    | Rotate                       // openNewIncrAofForAppend after its complete flush
    | Take | Sync | Publish | Finish

  function Last(s: State): nat
    requires s.files != []
  {
    |s.files| - 1
  }

  predicate Enabled(s: State, a: Action)
    requires s.files != []
  {
    match a
    case Feed(delta) => delta > 0
    case ReplicateOnly(delta) => delta >= 0
    case PartialFlush(end) => s.files[Last(s)].end <= end <= |s.stamps|
    case Flush(fsync) => s.files[Last(s)].end <= |s.stamps| && (fsync ==> Count(s.jobs, AofFsync) == 0)
    case Rotate => s.files[Last(s)].end <= |s.stamps|
    case Take => s.phase == Idle && s.jobs != []
    case Sync => s.phase == Taken && s.jobs != [] && s.jobs[0].file < |s.files|
    case Publish => s.phase == Synced && s.jobs != []
    case Finish => s.phase == Published && s.jobs != []
  }

  function WriteAll(s: State): State
    requires s.files != []
  {
    s.(files := s.files[Last(s) := s.files[Last(s)].(end := |s.stamps|)])
  }

  function Next(s: State, a: Action): (r: State)
    requires s.files != [] && Enabled(s, a)
    ensures r.files != []
  {
    match a
    case Feed(delta) => s.(replOffset := s.replOffset + delta, stamps := s.stamps + [s.replOffset + delta])
    case ReplicateOnly(delta) => s.(replOffset := s.replOffset + delta)
    case PartialFlush(end) => s.(files := s.files[Last(s) := s.files[Last(s)].(end := end)])
    case Flush(fsync) =>
      var w := WriteAll(s);
      if fsync then w.(jobs := s.jobs + [Job(AofFsync, Last(s), s.replOffset)]) else w
    case Rotate =>
      var w := WriteAll(s);
      w.(jobs := s.jobs + [Job(CloseAof, Last(s), s.replOffset)],
         files := w.files + [LogFile(|s.stamps|, |s.stamps|, |s.stamps|)])
    case Take => s.(phase := Taken)
    case Sync =>
      var f := s.jobs[0].file;
      s.(phase := Synced, files := s.files[f := s.files[f].(synced := s.files[f].end)])
    case Publish => s.(phase := Published, published := s.jobs[0].offset)
    case Finish => s.(phase := Idle, jobs := s.jobs[1..])
  }

  ghost function Run(s: State, actions: seq<Action>): State
    requires s.files != []
  {
    if actions == [] then s
    else
      var r := Run(s, actions[..|actions| - 1]);
      if r.files != [] && Enabled(r, actions[|actions| - 1]) then Next(r, actions[|actions| - 1]) else r
  }

  // ---------------------------------------------------------------- what a published offset promises

  /** The i-th command of the log is in a file that has been synced beyond it. */
  ghost predicate Durable(s: State, i: nat) {
    exists f :: 0 <= f < |s.files| && s.files[f].start <= i < s.files[f].synced
  }

  /** Every log command up to replication offset `p`, in retired and current files, is durable. */
  ghost predicate Covered(s: State, p: int) {
    forall i :: 0 <= i < |s.stamps| && s.stamps[i] <= p ==> Durable(s, i)
  }

  // ---------------------------------------------------------------- invariant

  ghost predicate StampsOk(s: State) {
    && (forall i, j :: 0 <= i < j < |s.stamps| ==> s.stamps[i] < s.stamps[j])
    && (forall i :: 0 <= i < |s.stamps| ==> s.stamps[i] <= s.replOffset)
  }

  ghost predicate FilesOk(s: State) {
    && s.files != [] && s.files[0].start == 0
    && (forall f :: 0 <= f < |s.files| ==> s.files[f].start <= s.files[f].synced <= s.files[f].end <= |s.stamps|)
    && (forall f :: 0 <= f < |s.files| - 1 ==> s.files[f].end == s.files[f + 1].start)
  }

  /** All commands stamped up to the job's offset were written to its file or to earlier ones. */
  ghost predicate JobOk(s: State, job: Job) {
    && job.file < |s.files| && job.offset <= s.replOffset
    && (job.kind == CloseAof ==> job.file < |s.files| - 1)
    && forall i :: 0 <= i < |s.stamps| && s.stamps[i] <= job.offset ==> i < s.files[job.file].end
  }

  ghost predicate HasClose(s: State, f: nat, before: nat) {
    exists q :: 0 <= q < before && q < |s.jobs| && s.jobs[q].kind == CloseAof && s.jobs[q].file == f
  }

  ghost predicate Unsynced(s: State, f: nat) {
    f < |s.files| && s.files[f].synced < s.files[f].end
  }

  ghost predicate JobsOk(s: State) {
    && (forall q :: 0 <= q < |s.jobs| ==> JobOk(s, s.jobs[q]) && s.published <= s.jobs[q].offset)
    && (forall p, q :: 0 <= p < q < |s.jobs| ==> s.jobs[p].offset <= s.jobs[q].offset)
    // a retired file that is not synced yet has its close job in the queue
    && (forall f :: 0 <= f < |s.files| - 1 && Unsynced(s, f) ==> HasClose(s, f, |s.jobs|))
    // and that job comes before every job of a later file
    && (forall f, q :: 0 <= q < |s.jobs| && 0 <= f < s.jobs[q].file && Unsynced(s, f) ==> HasClose(s, f, q))
  }

  ghost predicate PhaseOk(s: State) {
    && (s.phase != Idle ==> s.jobs != [])
    && (s.phase == Synced || s.phase == Published ==>
          && Covered(s, s.jobs[0].offset)
          && (s.jobs[0].kind == CloseAof ==> s.jobs[0].file < |s.files| && !Unsynced(s, s.jobs[0].file)))
  }

  ghost predicate Inv(s: State) {
    StampsOk(s) && FilesOk(s) && JobsOk(s) && PhaseOk(s) && Covered(s, s.published) && s.published <= s.replOffset
  }

  // ---------------------------------------------------------------- every step keeps it

  lemma FeedKeeps(s: State, a: Action)
    requires Inv(s) && Enabled(s, a) && (a.Feed? || a.ReplicateOnly?)
    ensures Inv(Next(s, a))
  {
    var r := Next(s, a);
    FeedCovered(s, r);
    assert JobsOk(r) by {
      hide Covered, PhaseOk;
      SameJobsClose(s, r);
      forall q | 0 <= q < |r.jobs| ensures JobOk(r, r.jobs[q]) {
        assert JobOk(s, s.jobs[q]);
      }
      assert forall f :: Unsynced(r, f) == Unsynced(s, f);
    }
    assert PhaseOk(r) by {
      hide Covered;
      if s.jobs != [] { assert JobOk(s, s.jobs[0]); }
    }
  }

  /** Commands fed later carry larger stamps, so nothing already covered is lost. */
  lemma FeedCovered(s: State, r: State)
    requires r.files == s.files && s.stamps <= r.stamps
    requires forall i :: |s.stamps| <= i < |r.stamps| ==> r.stamps[i] > s.replOffset
    ensures forall p :: p <= s.replOffset && Covered(s, p) ==> Covered(r, p)
  {
    SameFilesDurable(s, r);
  }

  /** Durability only depends on the files, and syncing more never takes it away. */
  lemma SameFilesDurable(s: State, r: State)
    requires |r.files| >= |s.files|
    requires forall f :: 0 <= f < |s.files| ==>
              r.files[f].start == s.files[f].start && r.files[f].synced >= s.files[f].synced
    ensures forall i :: 0 <= i && Durable(s, i) ==> Durable(r, i)
  {
    forall i | 0 <= i && Durable(s, i) ensures Durable(r, i) {
      var f :| 0 <= f < |s.files| && s.files[f].start <= i < s.files[f].synced;
      assert r.files[f].start <= i < r.files[f].synced;
    }
  }

  lemma SameJobsClose(s: State, r: State)
    requires s.jobs <= r.jobs
    ensures forall f: nat, q: nat :: HasClose(s, f, q) ==> HasClose(r, f, q)
  {
    forall f: nat, q: nat | HasClose(s, f, q) ensures HasClose(r, f, q) {
      var p :| 0 <= p < q && p < |s.jobs| && s.jobs[p].kind == CloseAof && s.jobs[p].file == f;
      assert r.jobs[p] == s.jobs[p];
    }
  }

  /** Writing more of the buffer to the open file. */
  lemma WriteKeeps(s: State, end: nat)
    requires Inv(s) && s.files[Last(s)].end <= end <= |s.stamps|
    ensures Inv(s.(files := s.files[Last(s) := s.files[Last(s)].(end := end)]))
  {
    var r := s.(files := s.files[Last(s) := s.files[Last(s)].(end := end)]);
    SameFilesDurable(s, r);
    SameJobsClose(s, r);
    forall q | 0 <= q < |r.jobs| ensures JobOk(r, r.jobs[q]) {
      assert JobOk(s, s.jobs[q]);
    }
    assert forall f :: 0 <= f < |s.files| - 1 ==> Unsynced(r, f) == Unsynced(s, f);
  }

  /** Queueing a job for the open file once everything fed is written. */
  lemma SubmitKeeps(s: State, kind: JobType)
    requires Inv(s) && s.files[Last(s)].end == |s.stamps|
    ensures var job := Job(kind, Last(s), s.replOffset);
            var files := if kind == CloseAof then s.files + [LogFile(|s.stamps|, |s.stamps|, |s.stamps|)] else s.files;
            Inv(s.(jobs := s.jobs + [job], files := files))
  {
    var job := Job(kind, Last(s), s.replOffset);
    var files := if kind == CloseAof then s.files + [LogFile(|s.stamps|, |s.stamps|, |s.stamps|)] else s.files;
    var r := s.(jobs := s.jobs + [job], files := files);
    SameFilesDurable(s, r);
    assert forall f :: 0 <= f < |s.files| ==> r.files[f] == s.files[f];
    assert JobsOk(r) by { SubmitJobsOk(s, r, job); }
    assert s.jobs != [] ==> r.jobs[0] == s.jobs[0];
    assert PhaseOk(r);
  }

  lemma SubmitJobsOk(s: State, r: State, job: Job)
    requires FilesOk(s) && JobsOk(s) && s.published <= s.replOffset
    requires r.jobs == s.jobs + [job] && s.files <= r.files && |r.files| <= |s.files| + 1
    requires r.stamps == s.stamps && r.replOffset == s.replOffset == job.offset && r.published == s.published
    requires job.file == Last(s) && s.files[Last(s)].end == |s.stamps|
    requires |r.files| > |s.files| <==> job.kind == CloseAof
    ensures JobsOk(r)
  {
    var n := |s.jobs|;
    SameJobsClose(s, r);
    forall q | 0 <= q < |r.jobs| ensures JobOk(r, r.jobs[q]) && r.published <= r.jobs[q].offset {
      if q < n {
        assert r.jobs[q] == s.jobs[q] && JobOk(s, s.jobs[q]);
      }
    }
    forall f | 0 <= f < |r.files| - 1 && Unsynced(r, f) ensures HasClose(r, f, n + 1) {
      if f < |s.files| - 1 {
        assert Unsynced(s, f) && HasClose(s, f, n);
        assert HasClose(r, f, n);
      } else {
        assert r.jobs[n] == job;
      }
    }
    forall f, q | 0 <= q < |r.jobs| && 0 <= f < r.jobs[q].file && Unsynced(r, f) ensures HasClose(r, f, q) {
      assert Unsynced(s, f);
      if q < n {
        assert JobOk(s, s.jobs[q]);
        assert HasClose(s, f, q);
      } else {
        assert HasClose(s, f, n);
      }
    }
    forall p, q | 0 <= p < q < |r.jobs| ensures r.jobs[p].offset <= r.jobs[q].offset {
      assert JobOk(s, s.jobs[p]);
    }
  }

  /** A written command is in one of the files up to the one it was written by. */
  lemma {:induction false} FindFile(s: State, i: nat, f: nat) returns (g: nat)
    requires FilesOk(s) && f < |s.files| && i < s.files[f].end
    ensures g <= f && s.files[g].start <= i < s.files[g].end
  {
    if s.files[f].start <= i {
      g := f;
    } else {
      g := FindFile(s, i, f - 1);
    }
  }

  /** FIFO order pays off: when the head job's file is synced, all earlier files already are. */
  lemma SyncCovers(s: State)
    requires Inv(s) && s.jobs != []
    ensures var f := s.jobs[0].file;
            f < |s.files| && Covered(s.(files := s.files[f := s.files[f].(synced := s.files[f].end)]), s.jobs[0].offset)
  {
    assert JobOk(s, s.jobs[0]);
    var f := s.jobs[0].file;
    var r := s.(files := s.files[f := s.files[f].(synced := s.files[f].end)]);
    forall i | 0 <= i < |r.stamps| && r.stamps[i] <= s.jobs[0].offset ensures Durable(r, i) {
      var g := FindFile(s, i, f);
      if g < f {
        assert !HasClose(s, g, 0);
        assert !Unsynced(s, g);
      }
      assert r.files[g].start <= i < r.files[g].synced;
    }
  }

  lemma SyncKeeps(s: State)
    requires Inv(s) && Enabled(s, Sync)
    ensures Inv(Next(s, Sync))
  {
    var f := s.jobs[0].file;
    var r := Next(s, Sync);
    SyncCovers(s);
    SameFilesDurable(s, r);
    SameJobsClose(s, r);
    forall i | 0 <= i < |r.stamps| && r.stamps[i] <= s.jobs[0].offset ensures Durable(r, i) {
      var w := s.(files := s.files[f := s.files[f].(synced := s.files[f].end)]);
      assert Durable(w, i);
      SameFilesDurable(w, r);
    }
    forall q | 0 <= q < |r.jobs| ensures JobOk(r, r.jobs[q]) {
      assert JobOk(s, s.jobs[q]);
    }
    assert forall g :: Unsynced(r, g) ==> Unsynced(s, g);
  }

  lemma FinishKeeps(s: State)
    requires Inv(s) && Enabled(s, Finish)
    ensures Inv(Next(s, Finish))
  {
    hide JobsOk;
    var r := Next(s, Finish);
    SameFilesDurable(s, r);
    FinishJobsOk(s, r);
  }

  lemma FinishJobsOk(s: State, r: State)
    requires JobsOk(s) && s.jobs != [] && r.jobs == s.jobs[1..]
    requires r.files == s.files && r.stamps == s.stamps && r.replOffset == s.replOffset && r.published == s.published
    requires s.jobs[0].kind == CloseAof ==> s.jobs[0].file < |s.files| && !Unsynced(s, s.jobs[0].file)
    ensures JobsOk(r)
  {
    forall q | 0 <= q < |r.jobs| ensures JobOk(r, r.jobs[q]) && r.published <= r.jobs[q].offset {
      assert r.jobs[q] == s.jobs[q + 1] && JobOk(s, s.jobs[q + 1]);
    }
    hide JobOk;
    forall f, q: nat | HasClose(s, f, q + 1) && Unsynced(s, f) ensures HasClose(r, f, q) {
      var p :| 0 <= p < q + 1 && p < |s.jobs| && s.jobs[p].kind == CloseAof && s.jobs[p].file == f;
      assert p > 0;
      assert r.jobs[p - 1] == s.jobs[p];
    }
    forall f | 0 <= f < |r.files| - 1 && Unsynced(r, f) ensures HasClose(r, f, |r.jobs|) {
      assert HasClose(s, f, |r.jobs| + 1);
    }
    forall f, q | 0 <= q < |r.jobs| && 0 <= f < r.jobs[q].file && Unsynced(r, f) ensures HasClose(r, f, q) {
      assert r.jobs[q] == s.jobs[q + 1];
      assert HasClose(s, f, q + 1);
    }
  }

  lemma TakePublishKeeps(s: State, a: Action)
    requires Inv(s) && Enabled(s, a) && (a.Take? || a.Publish?)
    ensures Inv(Next(s, a))
  {
    var r := Next(s, a);
    SameFilesDurable(s, r);
    SameJobsClose(s, r);
    assert JobOk(s, s.jobs[0]);
    forall q | 0 <= q < |r.jobs| ensures JobOk(r, r.jobs[q]) && r.published <= r.jobs[q].offset {
      assert JobOk(s, s.jobs[q]);
    }
    assert forall f :: Unsynced(r, f) == Unsynced(s, f);
  }

  /** Every step of either thread keeps the invariant, and no step lowers the published offset. */
  lemma StepKeeps(s: State, a: Action)
    requires Inv(s) && Enabled(s, a)
    ensures Inv(Next(s, a)) && s.published <= Next(s, a).published
  {
    hide Inv;
    match a
    case Feed(_) => FeedKeeps(s, a);
    case ReplicateOnly(_) => FeedKeeps(s, a);
    case PartialFlush(end) => WriteKeeps(s, end);
    case Flush(fsync) =>
      WriteKeeps(s, |s.stamps|);
      if fsync { SubmitKeeps(WriteAll(s), AofFsync); }
    case Rotate =>
      WriteKeeps(s, |s.stamps|);
      SubmitKeeps(WriteAll(s), CloseAof);
    case Take => TakePublishKeeps(s, a);
    case Sync => SyncKeeps(s);
    case Publish => TakePublishKeeps(s, a); PublishedBelow(s);
    case Finish => FinishKeeps(s);
  }

  lemma PublishedBelow(s: State)
    requires Inv(s) && s.jobs != []
    ensures s.published <= s.jobs[0].offset
  {
  }

  // ---------------------------------------------------------------- main results

  /** A server that just opened its first INCR file, whose earlier commands are all durable. */
  function Start(offset: int): State {
    State([], offset, [LogFile(0, 0, 0)], [], Idle, offset)
  }

  lemma {:induction false} RunKeeps(offset: int, actions: seq<Action>)
    ensures Inv(Run(Start(offset), actions))
  {
    if actions != [] {
      var before, a := actions[..|actions| - 1], actions[|actions| - 1];
      RunKeeps(offset, before);
      var s := Run(Start(offset), before);
      if Enabled(s, a) {
        StepKeeps(s, a);
      }
    }
  }

  /** In every interleaving, whatever offset the worker has published: all log commands up to it are
      synced, in whatever file they are. */
  lemma PublishedIsDurable(offset: int, actions: seq<Action>, i: nat)
    requires var s := Run(Start(offset), actions); i < |s.stamps| && s.stamps[i] <= s.published
    ensures Durable(Run(Start(offset), actions), i)
  {
    RunKeeps(offset, actions);
  }

  /** The published offset never decreases along a run. */
  lemma {:induction false} PublishedMonotone(offset: int, actions: seq<Action>, more: seq<Action>)
    ensures Run(Start(offset), actions).published <= Run(Start(offset), actions + more).published
    decreases |more|
  {
    hide Run, Inv, Next, Enabled, Start;
    if more == [] {
      assert actions + more == actions;
    } else {
      var all := actions + more;
      var before := more[..|more| - 1];
      assert all[..|all| - 1] == actions + before;
      PublishedMonotone(offset, actions, before);
      PublishedStep(offset, actions + before, all);
    }
  }

  lemma PublishedStep(offset: int, before: seq<Action>, all: seq<Action>)
    requires all != [] && before == all[..|all| - 1]
    ensures Run(Start(offset), before).published <= Run(Start(offset), all).published
  {
    hide Next, JobsOk, Covered;
    RunKeeps(offset, before);
    var s := Run(Start(offset), before);
    if Enabled(s, all[|all| - 1]) {
      StepKeeps(s, all[|all| - 1]);
    }
  }

  /** bioDrainWorker: once the list is empty, every retired file is synced whole. */
  lemma DrainedMeansSynced(offset: int, actions: seq<Action>, f: nat)
    requires var s := Run(Start(offset), actions); s.jobs == [] && f < |s.files| - 1
    ensures var s := Run(Start(offset), actions); s.files[f].synced == s.files[f].end
  {
    RunKeeps(offset, actions);
    var s := Run(Start(offset), actions);
    assert !HasClose(s, f, 0);
    assert !Unsynced(s, f);
  }

  // ---------------------------------------------------------------- what is asked for is published

  predicate Asks(a: Action) {
    a == Flush(true) || a == Rotate
  }

  /** The replication offset at the last flush with an fsync, or the last switch of files, of the run. */
  ghost function LastAsked(offset: int, actions: seq<Action>): int {
    if actions == [] then offset else
      var before, a := actions[..|actions| - 1], actions[|actions| - 1];
      var s := Run(Start(offset), before);
      if s.files != [] && Enabled(s, a) && Asks(a) then s.replOffset else LastAsked(offset, before)
  }

  /** The job last queued carries the offset last asked for; with no job left that offset is published. */
  ghost predicate AskedOk(s: State, asked: int) {
    && (s.phase == Published ==> s.jobs != [] && s.published == s.jobs[0].offset)
    && (s.phase != Idle ==> s.jobs != [])
    && (if s.jobs == [] then s.published == asked else s.jobs[|s.jobs| - 1].offset == asked)
  }

  lemma AskedStep(s: State, a: Action, asked: int)
    requires s.files != [] && Enabled(s, a) && AskedOk(s, asked)
    ensures AskedOk(Next(s, a), if Asks(a) then s.replOffset else asked)
  {
  }

  lemma {:induction false} RunAsked(offset: int, actions: seq<Action>)
    ensures AskedOk(Run(Start(offset), actions), LastAsked(offset, actions))
  {
    hide AskedOk, Next, Enabled;
    if actions == [] {
      StartAsked(offset);
    } else {
      var before, a := actions[..|actions| - 1], actions[|actions| - 1];
      RunAsked(offset, before);
      var s := Run(Start(offset), before);
      if s.files != [] && Enabled(s, a) {
        AskedStep(s, a, LastAsked(offset, before));
      }
    }
  }

  lemma StartAsked(offset: int)
    ensures AskedOk(Start(offset), offset)
  {
  }

  /** A job leaves the list only once its offset is published. */
  lemma FinishPublishes(offset: int, actions: seq<Action>)
    requires var s := Run(Start(offset), actions); s.files != [] && Enabled(s, Finish)
    ensures var s := Run(Start(offset), actions); s.published == s.jobs[0].offset
  {
    hide Run;
    RunAsked(offset, actions);
  }

  /** With the list drained, the published offset is the one last asked for. */
  lemma DrainedMeansPublished(offset: int, actions: seq<Action>)
    requires Run(Start(offset), actions).jobs == []
    ensures Run(Start(offset), actions).published == LastAsked(offset, actions)
  {
    hide Run;
    RunAsked(offset, actions);
  }

  lemma StepGrows(s: State, a: Action)
    requires s.files != [] && Enabled(s, a)
    ensures s.stamps <= Next(s, a).stamps && s.replOffset <= Next(s, a).replOffset
  {
  }

  /** Stamps and the replication offset only grow, and so does what was last asked for. */
  lemma {:induction false} RunGrows(offset: int, actions: seq<Action>, more: seq<Action>)
    ensures var s, r := Run(Start(offset), actions), Run(Start(offset), actions + more);
            s.stamps <= r.stamps && s.replOffset <= r.replOffset
    ensures LastAsked(offset, actions) >= offset && LastAsked(offset, actions) <= Run(Start(offset), actions).replOffset
    ensures LastAsked(offset, actions) <= LastAsked(offset, actions + more)
    decreases |actions| + |more|, |more|
  {
    hide Next, Enabled;
    if more == [] {
      assert actions + more == actions;
      if actions != [] {
        var before, a := actions[..|actions| - 1], actions[|actions| - 1];
        assert before + [a] == actions;
        RunGrows(offset, before, []);
        var s := Run(Start(offset), before);
        if s.files != [] && Enabled(s, a) { StepGrows(s, a); }
      }
    } else {
      var all, before := actions + more, more[..|more| - 1];
      var a := all[|all| - 1];
      assert all[..|all| - 1] == actions + before;
      RunGrows(offset, actions, before);
      RunGrows(offset, actions + before, []);
      var s := Run(Start(offset), actions + before);
      if s.files != [] && Enabled(s, a) { StepGrows(s, a); }
    }
  }

  /** Once the list is drained after a flush with an fsync, or after a switch of files, every command fed before is
      covered by the published offset and durable. */
  lemma {:induction false} DrainedMeansDurable(offset: int, before: seq<Action>, a: Action, more: seq<Action>, i: nat)
    requires var s := Run(Start(offset), before); s.files != [] && Enabled(s, a) && Asks(a) && i < |s.stamps|
    requires Run(Start(offset), before + [a] + more).jobs == []
    ensures var r := Run(Start(offset), before + [a] + more);
            i < |r.stamps| && r.stamps[i] <= r.published && Durable(r, i)
  {
    hide Next, Enabled, Durable, Inv;
    var now, all := before + [a], before + [a] + more;
    var s := Run(Start(offset), before);
    assert now[..|now| - 1] == before && now[|now| - 1] == a;
    assert LastAsked(offset, now) == s.replOffset;
    RunGrows(offset, now, more);
    assert all == before + ([a] + more);
    RunGrows(offset, before, [a] + more);
    StampsBelow(offset, before, i);
    DrainedMeansPublished(offset, all);
    PublishedIsDurable(offset, all, i);
  }

  lemma StampsBelow(offset: int, actions: seq<Action>, i: nat)
    requires i < |Run(Start(offset), actions).stamps|
    ensures var s := Run(Start(offset), actions); s.stamps[i] <= s.replOffset
  {
    hide Run;
    RunKeeps(offset, actions);
  }

  // ---------------------------------------------------------------- the worker drains the list

  const ROUND := [Take, Sync, Publish, Finish]

  function Rounds(n: nat): seq<Action> {
    if n == 0 then [] else Rounds(n - 1) + ROUND
  }

  /** Whatever the worker was doing, one round of its steps finishes one job. */
  lemma {:induction false} RoundFinishes(offset: int, actions: seq<Action>)
    ensures var s, r := Run(Start(offset), actions), Run(Start(offset), actions + ROUND);
            r.jobs == if s.jobs == [] then [] else s.jobs[1..]
  {
    hide Run;
    var a1, a2, a3 := actions + [Take], actions + [Take] + [Sync], actions + [Take] + [Sync] + [Publish];
    assert actions + ROUND == a3 + [Finish];
    HeadFile(offset, actions);
    RunOneMore(offset, actions, Take);
    RunOneMore(offset, a1, Sync);
    RunOneMore(offset, a2, Publish);
    RunOneMore(offset, a3, Finish);
  }

  lemma RunOneMore(offset: int, actions: seq<Action>, a: Action)
    ensures var s := Run(Start(offset), actions);
            Run(Start(offset), actions + [a]) == if s.files != [] && Enabled(s, a) then Next(s, a) else s
  {
    hide Next, Enabled;
    assert (actions + [a])[..|actions|] == actions;
  }

  lemma HeadFile(offset: int, actions: seq<Action>)
    ensures var s := Run(Start(offset), actions);
            && s.files != [] && (s.jobs != [] ==> s.jobs[0].file < |s.files|) && (s.phase != Idle ==> s.jobs != [])
  {
    hide Run, Covered;
    RunKeeps(offset, actions);
    var s := Run(Start(offset), actions);
    if s.jobs != [] { assert JobOk(s, s.jobs[0]); }
  }

  /** With as many rounds as there are jobs, and no step of the main thread, the list is drained. */
  lemma {:induction false} WorkerDrains(offset: int, actions: seq<Action>, n: nat)
    ensures var s, r := Run(Start(offset), actions), Run(Start(offset), actions + Rounds(n));
            r.jobs == if n <= |s.jobs| then s.jobs[n..] else []
  {
    hide Run;
    if n == 0 {
      assert actions + Rounds(0) == actions;
    } else {
      WorkerDrains(offset, actions, n - 1);
      RoundFinishes(offset, actions + Rounds(n - 1));
      assert actions + Rounds(n) == actions + Rounds(n - 1) + ROUND;
    }
  }

  // ---------------------------------------------------------------- the main thread

  /** The replication offset after the traffic of a run. */
  function Traffic(offset: int, actions: seq<Action>): int {
    if actions == [] then offset else
      var a := actions[|actions| - 1];
      Traffic(offset, actions[..|actions| - 1]) +
      (if a.Feed? && a.delta > 0 then a.delta else if a.ReplicateOnly? && a.delta >= 0 then a.delta else 0)
  }

  /** The offsets reached by the commands fed to the AOF, in order. */
  function FedOffsets(offset: int, actions: seq<Action>): seq<int> {
    if actions == [] then [] else
      var a := actions[|actions| - 1];
      FedOffsets(offset, actions[..|actions| - 1]) + if a.Feed? && a.delta > 0 then [Traffic(offset, actions)] else []
  }

  /** In every interleaving the log holds exactly the commands fed, each stamped with the offset it reached. */
  lemma {:induction false} StampsAreOffsets(offset: int, actions: seq<Action>)
    ensures var s := Run(Start(offset), actions);
            s.replOffset == Traffic(offset, actions) && s.stamps == FedOffsets(offset, actions)
  {
    hide Run;
    if actions == [] {
      RunNothing(offset);
    } else {
      var before, a := actions[..|actions| - 1], actions[|actions| - 1];
      StampsAreOffsets(offset, before);
      HeadFile(offset, before);
      assert before + [a] == actions;
      RunOneMore(offset, before, a);
    }
  }

  lemma RunNothing(offset: int)
    ensures Run(Start(offset), []) == Start(offset)
  {
  }

  /** The main thread never waits for the worker; it only asks for no second fsync while one is queued or running. */
  lemma MainThreadNeverBlocks(offset: int, actions: seq<Action>)
    ensures var s := Run(Start(offset), actions);
            && s.files != [] && Enabled(s, Flush(false)) && Enabled(s, Rotate)
            && (Enabled(s, Flush(true)) <==> forall i :: 0 <= i < |s.jobs| ==> s.jobs[i].kind != AofFsync)
  {
    hide Run, Covered, JobsOk;
    RunKeeps(offset, actions);
    CountZero(Run(Start(offset), actions).jobs, AofFsync);
  }

  /** A complete flush has everything fed so far in the files, whatever was written before. */
  lemma FlushWritesAll(offset: int, actions: seq<Action>, a: Action)
    requires var s := Run(Start(offset), actions); s.files != [] && Enabled(s, a) && (a.Flush? || a.Rotate?)
    ensures var s, r := Run(Start(offset), actions), Run(Start(offset), actions + [a]);
            r.files[Last(s)].end == |FedOffsets(offset, actions)| && (a.Rotate? ==> Last(r) == Last(s) + 1)
  {
    hide Run, FedOffsets;
    RunOneMore(offset, actions, a);
    StampsAreOffsets(offset, actions);
  }
}
