/** Runs of the blocking machinery: what each event does to clients, lists and queues, and the order of blocking
    over a whole run. */
module BlockedRuns {
  import opened Collections
  import opened Blocked

  /** Everything that touches the index, in any order; an event that is not enabled does nothing. */
  datatype Event =
    | Create(c: nat, isModule: bool)
    | BlockKeys(c: nat, btype: BlockType, keys: seq<DbKey>, unblockOnNokey: bool)
    | BlockOther(c: nat, btype: BlockType)
    | Unblock(c: nat, queue: bool)
    | Timeout(c: nat)
    | Wake(c: nat, k: DbKey)
    | Reran(c: nat)
    | Signal(k: DbKey, btype: BlockType, deleted: bool)
    | Take
    | NextKey
    | NextClient

  /** The server without its counters. */
  datatype State = State(clients: map<nat, Client>, waiters: map<DbKey, seq<nat>>, ready: set<DbKey>,
                         readyQueue: seq<DbKey>, serving: seq<DbKey>, unblocked: seq<nat>,
                         since: map<nat, nat>, clock: nat)
  {
    predicate Free(c: nat) {
      c in clients && !clients[c].IsBlocked()
    }

    predicate Stuck(c: nat) {
      c in clients && clients[c].IsBlocked()
    }

    /** Somebody is blocked in a way the signal can serve, and somebody waits for the key, or for its deletion. */
    ghost predicate Wanted(k: DbKey, btype: BlockType, deleted: bool) {
      && btype != NotBlocked && (exists c :: c in clients && clients[c].btype in {btype, OnModule})
      && exists c :: c in clients && k in clients[c].keys && (deleted ==> clients[c].onNokey)
    }
  }

  const START := State(map[], map[], {}, [], [], [], map[], 0)

  const NEW_CLIENT := Client(NotBlocked, {}, false, false, false, false)

  ghost function View(s: Server): State
    reads s
  {
    State(s.clients, s.waiters, s.ready, s.readyQueue, s.serving, s.unblocked, s.since, s.clock)
  }

  // ---------------------------------------------------------------- what one event does

  /** The event blocks the client on keys. */
  predicate Blocks(s: State, e: Event, c: nat) {
    e.BlockKeys? && e.c == c && s.Free(c) && KeyType(e.btype)
  }

  ghost predicate BlockKeysDoes(b: State, a: State, e: Event)
    requires e.BlockKeys?
  {
    if !Blocks(b, e, e.c) then a == b else
      var cl, keys := b.clients[e.c], Elements(e.keys);
      && Joined(b.waiters, a.waiters, e.c, keys)
      && a == b.(waiters := a.waiters, since := b.since[e.c := b.clock], clock := b.clock + 1,
                 clients := b.clients[e.c := cl.(btype := e.btype, keys := keys, onNokey := e.unblockOnNokey,
                     pending := cl.pending || e.btype != OnModule)])
  }

  /** The client waits for nothing any more and becomes `cl`, in the queue of unblocked clients if it is flagged. */
  ghost predicate Released(b: State, a: State, c: nat, cl: Client)
    requires c in b.clients
  {
    && Left(b.waiters, a.waiters, c, b.clients[c].keys)
    && a == b.(waiters := a.waiters, clients := b.clients[c := cl],
               unblocked := if cl.queued && !b.clients[c].queued then b.unblocked + [c] else b.unblocked)
  }

  function Unblocked(cl: Client): Client {
    cl.(btype := NotBlocked, keys := {}, onNokey := false)
  }

  ghost predicate ClientDoes(b: State, a: State, e: Event)
    requires !e.Signal? && !e.Take? && !e.NextKey? && !e.NextClient?
  {
    match e
    case Create(c, isModule) =>
      a == if c in b.clients then b else b.(clients := b.clients[c := NEW_CLIENT.(isModule := isModule)])
    case BlockKeys(_, _, _, _) => BlockKeysDoes(b, a, e)
    case BlockOther(c, t) =>
      a == if b.Free(c) && t in {OnWait, OnWaitAof, OnPostpone, OnShutdown, OnModule} then
        b.(clients := b.clients[c := b.clients[c].(btype := t, pending := b.clients[c].pending || t == OnPostpone)])
      else b
    case Unblock(c, queue) =>
      if b.Stuck(c) then Released(b, a, c, Unblocked(b.clients[c]).(queued := b.clients[c].queued || queue)) else a == b
    case Timeout(c) =>
      if b.Stuck(c) then Released(b, a, c, Unblocked(b.clients[c]).(pending := false, queued := true)) else a == b
    case Wake(c, k) =>
      if c in b.clients && k in b.clients[c].keys && b.clients[c].btype in {OnStream, OnList, OnZSet} then
        Released(b, a, c, Unblocked(b.clients[c]).(pending := false))
      else a == b
    case Reran(c) =>
      a == if b.Free(c) && !b.clients[c].isModule && !b.clients[c].queued then
        b.(clients := b.clients[c := b.clients[c].(queued := true)], unblocked := b.unblocked + [c])
      else b
  }

  ghost predicate QueueDoes(b: State, a: State, e: Event)
    requires e.Signal? || e.Take? || e.NextKey? || e.NextClient?
  {
    match e
    case Signal(k, btype, deleted) =>
      a == if (btype == NotBlocked || KeyType(btype)) && b.Wanted(k, btype, deleted) && k !in b.ready then
        b.(ready := b.ready + {k}, readyQueue := b.readyQueue + [k])
      else b
    case Take => a == if b.serving == [] then b.(serving := b.readyQueue, readyQueue := []) else b
    case NextKey => a == if b.serving != [] then b.(serving := b.serving[1..], ready := b.ready - {b.serving[0]}) else b
    case NextClient =>
      if b.unblocked == [] then a == b else
        var c := b.unblocked[0];
        && c in b.clients
        && a == b.(unblocked := b.unblocked[1..], clients := b.clients[c := b.clients[c].(queued := false)])
  }

  ghost predicate Does(b: State, a: State, e: Event) {
    if e.Signal? || e.Take? || e.NextKey? || e.NextClient? then QueueDoes(b, a, e) else ClientDoes(b, a, e)
  }

  /** The quick tests of signalKeyAsReadyLogic say whether the signal is wanted. */
  lemma SignalTests(s: Server, k: DbKey, btype: BlockType, deleted: bool)
    requires s.Valid() && KeyType(btype)
    ensures View(s).Wanted(k, btype, deleted) <==>
            (s.byType[btype] > 0 || s.byType[OnModule] > 0) && (if deleted then k in s.nokey else k in s.waiters)
  {
    TypeTest(s, btype);
    TypeTest(s, OnModule);
    KeyTest(s, k);
    if deleted { NokeyTest(s, k); }
  }

  lemma TypeTest(s: Server, t: BlockType)
    requires s.Valid() && t != NotBlocked
    ensures s.byType[t] > 0 <==> exists c :: c in s.clients && s.clients[c].btype == t
  {
    var all := BlockedAs(s.clients, t);
    assert s.byType[t] == |all|;
    if c :| c in s.clients && s.clients[c].btype == t {
      assert c in all;
    } else {
      assert all == {};
    }
  }

  lemma KeyTest(s: Server, k: DbKey)
    requires s.Valid()
    ensures k in s.waiters <==> exists c :: c in s.clients && k in s.clients[c].keys
  {
    s.ListedOnce(0, k);
    if k in s.waiters {
      s.ListedOnce(s.waiters[k][0], k);
    }
    forall c | c in s.clients && k in s.clients[c].keys ensures k in s.waiters {
      s.ListedOnce(c, k);
    }
  }

  lemma NokeyTest(s: Server, k: DbKey)
    requires s.Valid()
    ensures k in s.nokey <==> exists c :: c in s.clients && k in s.clients[c].keys && s.clients[c].onNokey
  {
    s.NokeyCounts(k);
    var wish := set c | c in s.clients && k in s.clients[c].keys && s.clients[c].onNokey;
    if c :| c in s.clients && k in s.clients[c].keys && s.clients[c].onNokey {
      assert c in wish;
    } else {
      assert wish == {};
    }
  }

  // ---------------------------------------------------------------- one event, then a run

  method StepClient(s: Server, e: Event)
    requires s.Valid() && !e.Signal? && !e.Take? && !e.NextKey? && !e.NextClient?
    modifies s
    ensures s.Valid() && ClientDoes(old(View(s)), View(s), e)
  {
    hide IndexOk, CountersOk, UnblockedOk, AllOk, KeysOf, NokeyOf, ReadyOk, StampsOk, Left, Joined, ListOf;
    match e {
      case Create(c, isModule) =>
        if c !in s.clients { s.CreateClient(c, isModule); }
      case BlockKeys(c, btype, keys, unblockOnNokey) =>
        if c in s.clients && !s.clients[c].IsBlocked() && KeyType(btype) {
          s.BlockForKeys(c, btype, keys, unblockOnNokey);
        }
      case BlockOther(c, btype) =>
        if c in s.clients && !s.clients[c].IsBlocked()
            && btype in {OnWait, OnWaitAof, OnPostpone, OnShutdown, OnModule} {
          s.BlockElsewhere(c, btype);
        }
      case Unblock(c, queue) =>
        if c in s.clients && s.clients[c].IsBlocked() { s.UnblockClient(c, queue); }
      case Timeout(c) =>
        if c in s.clients && s.clients[c].IsBlocked() { s.UnblockWithReply(c); }
      case Wake(c, k) =>
        if c in s.clients && k in s.clients[c].keys && s.clients[c].btype in {OnStream, OnList, OnZSet} {
          var _ := s.WakeOnKey(c, k);
        }
      case Reran(c) =>
        if c in s.clients { s.AfterRerun(c); }
    }
  }

  method StepQueue(s: Server, e: Event)
    requires s.Valid() && (e.Signal? || e.Take? || e.NextKey? || e.NextClient?)
    modifies s
    ensures s.Valid() && QueueDoes(old(View(s)), View(s), e)
  {
    hide IndexOk, CountersOk, UnblockedOk, AllOk, KeysOf, NokeyOf, ReadyOk, StampsOk;
    match e {
      case Signal(k, btype, deleted) =>
        if btype == NotBlocked || KeyType(btype) {
          if btype != NotBlocked { SignalTests(s, k, btype, deleted); }
          s.SignalKeyAsReady(k, btype, deleted);
        }
      case Take =>
        if s.serving == [] { s.TakeReadyKeys(); }
      case NextKey =>
        if s.serving != [] { var _ := s.NextReadyKey(); }
      case NextClient =>
        if s.unblocked != [] { var _ := s.NextUnblocked(); }
    }
  }

  /** The states of a run, each made from the one before by its event. */
  ghost predicate Chain(events: seq<Event>, trace: seq<State>) {
    && |trace| == |events| + 1 && trace[0] == START
    && forall i :: 0 <= i < |events| ==> Does(trace[i], trace[i + 1], events[i])
  }

  /** The client's last blocking on keys in the run is its a-th event. */
  ghost predicate LastBlocked(events: seq<Event>, trace: seq<State>, c: nat, a: nat)
    requires |trace| == |events| + 1
  {
    && a < |events| && Blocks(trace[a], events[a], c)
    && forall i :: a < i < |events| ==> !Blocks(trace[i], events[i], c)
  }

  /** The last blocking of c came before that of d, and both waited for the key. */
  ghost predicate BlockedEarlier(events: seq<Event>, trace: seq<State>, c: nat, d: nat, k: DbKey)
    requires |trace| == |events| + 1
  {
    exists a: nat, b: nat :: a < b && LastBlocked(events, trace, c, a) && LastBlocked(events, trace, d, b)
                             && k in events[a].keys && k in events[b].keys
  }

  /** Of two waiters of a key the one that is served first blocked first. */
  ghost predicate ServedInOrder(events: seq<Event>, trace: seq<State>, list: seq<nat>, k: DbKey)
    requires |trace| == |events| + 1
  {
    forall i, j :: 0 <= i < j < |list| ==> BlockedEarlier(events, trace, list[i], list[j], k)
  }

  lemma DoesIs(b: State, a: State, e: Event)
    requires if e.Signal? || e.Take? || e.NextKey? || e.NextClient? then QueueDoes(b, a, e) else ClientDoes(b, a, e)
    ensures Does(b, a, e)
  {
    hide QueueDoes, ClientDoes;
  }

  /** An event that does not block the client leaves its moment of blocking, and gives it no key. */
  lemma OtherEvent(b: State, a: State, e: Event, c: nat)
    requires Does(b, a, e) && !Blocks(b, e, c)
    ensures (c in a.since <==> c in b.since) && (c in a.since ==> a.since[c] == b.since[c])
    ensures c in a.clients ==> a.clients[c].keys == {} || (c in b.clients && a.clients[c].keys <= b.clients[c].keys)
  {
    hide Joined, Left, Elements;
  }

  lemma ClockStep(b: State, a: State, e: Event)
    requires Does(b, a, e)
    ensures b.clock <= a.clock
  {
    hide Joined, Left, Elements;
  }

  lemma {:induction false} ClockGrows(events: seq<Event>, trace: seq<State>, i: nat, j: nat)
    requires Chain(events, trace) && i <= j <= |events|
    ensures trace[i].clock <= trace[j].clock
    decreases j
  {
    hide Does;
    if i < j {
      ClockGrows(events, trace, i, j - 1);
      assert Does(trace[j - 1], trace[j - 1 + 1], events[j - 1]);
      ClockStep(trace[j - 1], trace[j], events[j - 1]);
    }
  }

  /** The moment noted for a client is that of its last blocking, and its keys are among those of that event. */
  lemma {:induction false} StampIsLast(events: seq<Event>, trace: seq<State>, c: nat) returns (a: nat)
    requires Chain(events, trace) && c in trace[|events|].since
    ensures LastBlocked(events, trace, c, a) && trace[a].clock == trace[|events|].since[c]
    ensures c in trace[|events|].clients ==> trace[|events|].clients[c].keys <= Elements(events[a].keys)
    decreases |events|
  {
    hide Does, Elements;
    var n := |events| - 1;
    assert |events| > 0;
    assert Does(trace[n], trace[n + 1], events[n]);
    if Blocks(trace[n], events[n], c) {
      a := n;
      BlockedNow(trace[n], trace[n + 1], events[n], c);
    } else {
      OtherEvent(trace[n], trace[n + 1], events[n], c);
      a := StampIsLast(events[..n], trace[..n + 1], c);
      assert forall i :: 0 <= i < n ==> events[..n][i] == events[i] && trace[..n + 1][i] == trace[i];
    }
  }

  lemma BlockedNow(b: State, a: State, e: Event, c: nat)
    requires Does(b, a, e) && Blocks(b, e, c)
    ensures c in a.since && a.since[c] == b.clock && c in a.clients && a.clients[c].keys == Elements(e.keys)
  {
    hide Joined, Elements;
  }

  lemma {:induction false} InOrder(s: Server, events: seq<Event>, trace: seq<State>, k: DbKey)
    requires s.Valid() && Chain(events, trace) && trace[|events|] == View(s)
    ensures ServedInOrder(events, trace, ListOf(s.waiters, k), k)
  {
    hide Does, Chain, Elements;
    var list := ListOf(s.waiters, k);
    assert |trace| == |events| + 1 by { ChainLength(events, trace); }
    forall i, j | 0 <= i < j < |list| ensures BlockedEarlier(events, trace, list[i], list[j], k) {
      s.FirstBlockedFirst(k, i, j);
      var a := Since(s, events, trace, k, i);
      var b := Since(s, events, trace, k, j);
      if b <= a {
        ClockGrows(events, trace, b, a);
      }
    }
  }

  lemma ChainLength(events: seq<Event>, trace: seq<State>)
    requires Chain(events, trace)
    ensures |trace| == |events| + 1
  {
  }

  lemma {:induction false} Since(s: Server, events: seq<Event>, trace: seq<State>, k: DbKey, i: nat) returns (a: nat)
    requires s.Valid() && Chain(events, trace) && |trace| == |events| + 1 && trace[|events|] == View(s)
    requires i < |ListOf(s.waiters, k)| && ListOf(s.waiters, k)[i] in s.since
    ensures var c := ListOf(s.waiters, k)[i];
            LastBlocked(events, trace, c, a) && trace[a].clock == s.since[c] && k in events[a].keys
  {
    hide Does, Chain, LastBlocked;
    var c := ListOf(s.waiters, k)[i];
    s.ListedOnce(c, k);
    a := StampIsLast(events, trace, c);
  }

  /** Every run of events, in any order: index, counters and queues stay consistent, each event does to clients,
      lists and queues exactly what it stands for, and every key's list is in the order of the last blocking. */
  method Run(events: seq<Event>) returns (s: Server, ghost trace: seq<State>)
    ensures fresh(s) && s.Valid()
    ensures Chain(events, trace) && trace[|events|] == View(s)
    ensures forall k :: ServedInOrder(events, trace, ListOf(s.waiters, k), k)
  {
    hide Does, ServedInOrder;
    s := new Server();
    trace := [View(s)];
    for i := 0 to |events|
      invariant s.Valid() && fresh(s)
      invariant Chain(events[..i], trace) && trace[i] == View(s)
    {
      ghost var before := View(s);
      if events[i].Signal? || events[i].Take? || events[i].NextKey? || events[i].NextClient? {
        StepQueue(s, events[i]);
      } else {
        StepClient(s, events[i]);
      }
      DoesIs(before, View(s), events[i]);
      assert events[..i + 1] == events[..i] + [events[i]];
      trace := trace + [View(s)];
    }
    assert events[..|events|] == events;
    forall k ensures ServedInOrder(events, trace, ListOf(s.waiters, k), k) {
      InOrder(s, events, trace, k);
    }
  }
}
