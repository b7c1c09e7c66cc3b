/** Clients blocked on keys: a two-way index between clients and keys with per-key and per-type
    counters, and the deduplicated queue of keys that became ready. */
module Blocked {
  import opened Collections

  datatype DbKey = DbKey(db: nat, key: string)

  // ---------------------------------------------------------------- the index as a value

  /** db->blocking_keys, db->blocking_keys_unblock_on_nokey, and per client bstate.keys,
      bstate.unblock_on_nokey and the moment it blocked. */
  datatype Index = Index(waiters: map<DbKey, seq<nat>>, nokey: map<DbKey, nat>,
                         keysOf: map<nat, set<DbKey>>, nokeyOf: map<nat, bool>, since: map<nat, nat>)

  ghost predicate Waits(ix: Index, c: nat, k: DbKey) {
    c in ix.keysOf && k in ix.keysOf[c]
  }

  ghost predicate Listed(ix: Index, c: nat, k: DbKey) {
    k in ix.waiters && c in ix.waiters[k]
  }

  function WantsNokey(nokeyOf: map<nat, bool>, c: nat): bool {
    c in nokeyOf && nokeyOf[c]
  }

  /** How many of the waiters want to be woken when the key disappears. */
  function CountNokey(list: seq<nat>, nokeyOf: map<nat, bool>): nat {
    if list == [] then 0
    else CountNokey(list[..|list| - 1], nokeyOf) + (if WantsNokey(nokeyOf, list[|list| - 1]) then 1 else 0)
  }

  /** First blocked, first in the list. */
  ghost predicate InBlockingOrder(list: seq<nat>, since: map<nat, nat>) {
    && (forall i :: 0 <= i < |list| ==> list[i] in since)
    && forall i, j :: 0 <= i < j < |list| ==> since[list[i]] < since[list[j]]
  }

  ghost predicate KeyOk(ix: Index, k: DbKey) {
    && (k in ix.waiters ==> ix.waiters[k] != [] && Distinct(ix.waiters[k]) && InBlockingOrder(ix.waiters[k], ix.since))
    && (k in ix.nokey <==> k in ix.waiters && CountNokey(ix.waiters[k], ix.nokeyOf) > 0)
    && (k in ix.nokey ==> ix.nokey[k] == CountNokey(ix.waiters[k], ix.nokeyOf))
  }

  /** A client is in a key's list exactly once iff the key is in its own map; no list is empty; the
      counts are right; the lists are in blocking order. */
  ghost predicate IndexOk(ix: Index) {
    && (forall c, k :: Listed(ix, c, k) <==> Waits(ix, c, k))
    && (forall k :: KeyOk(ix, k))
  }

  // ---------------------------------------------------------------- joining and leaving one list

  function Join(ix: Index, c: nat, k: DbKey): Index
    requires c in ix.keysOf
  {
    var list := (if k in ix.waiters then ix.waiters[k] else []) + [c];
    var nokey := if WantsNokey(ix.nokeyOf, c) then ix.nokey[k := (if k in ix.nokey then ix.nokey[k] else 0) + 1]
        else ix.nokey;
    ix.(waiters := ix.waiters[k := list], nokey := nokey, keysOf := ix.keysOf[c := ix.keysOf[c] + {k}])
  }

  function Without(list: seq<nat>, c: nat): seq<nat> {
    if list == [] then []
    else if list[|list| - 1] == c then list[..|list| - 1]
    else Without(list[..|list| - 1], c) + [list[|list| - 1]]
  }

  function Leave(ix: Index, c: nat, k: DbKey): Index
    requires c in ix.keysOf && k in ix.waiters
  {
    var list := Without(ix.waiters[k], c);
    var waiters := if list == [] then ix.waiters - {k} else ix.waiters[k := list];
    var nokey :=
      if list == [] then ix.nokey - {k}
      else if WantsNokey(ix.nokeyOf, c) && k in ix.nokey then
        if ix.nokey[k] <= 1 then ix.nokey - {k} else ix.nokey[k := ix.nokey[k] - 1]
      else ix.nokey;
    ix.(waiters := waiters, nokey := nokey, keysOf := ix.keysOf[c := ix.keysOf[c] - {k}])
  }

  lemma {:induction false} WithoutAt(list: seq<nat>, c: nat, i: nat)
    requires Distinct(list) && i < |list| && list[i] == c
    ensures Without(list, c) == list[..i] + list[i + 1..]
    decreases |list|
  {
    var n := |list| - 1;
    if i == n {
      assert list[i + 1..] == [];
    } else {
      WithoutAt(list[..n], c, i);
      assert list[..n][..i] == list[..i];
      assert list[i + 1..] == list[..n][i + 1..] + [list[n]];
    }
  }

  lemma {:induction false} CountWithout(list: seq<nat>, c: nat, nokeyOf: map<nat, bool>)
    requires c in list
    ensures CountNokey(Without(list, c), nokeyOf) + (if WantsNokey(nokeyOf, c) then 1 else 0)
              == CountNokey(list, nokeyOf)
  {
    var n := |list| - 1;
    if list[n] != c {
      var i :| 0 <= i < |list| && list[i] == c;
      assert list[..n][i] == c;
      CountWithout(list[..n], c, nokeyOf);
      CountSnoc(Without(list[..n], c), list[n], nokeyOf);
    }
  }

  lemma WithoutIs(list: seq<nat>, c: nat, since: map<nat, nat>, nokeyOf: map<nat, bool>)
    requires Distinct(list) && c in list && InBlockingOrder(list, since)
    ensures var r := Without(list, c);
            && Distinct(r) && InBlockingOrder(r, since)
            && (forall x :: x in r <==> x in list && x != c)
            && CountNokey(r, nokeyOf) + (if WantsNokey(nokeyOf, c) then 1 else 0) == CountNokey(list, nokeyOf)
  {
    hide CountNokey, Without, Distinct, InBlockingOrder;
    CountWithout(list, c, nokeyOf);
    var i :| 0 <= i < |list| && list[i] == c;
    WithoutAt(list, c, i);
    RemovedDistinct(list, i);
    RemovedOrder(list, i, since);
    RemovedMembers(list, i);
  }

  lemma RemovedDistinct(list: seq<nat>, i: nat)
    requires Distinct(list) && i < |list|
    ensures Distinct(list[..i] + list[i + 1..])
  {
    var r := list[..i] + list[i + 1..];
    forall p, q | 0 <= p < q < |r| ensures r[p] != r[q] {
      assert list[if p < i then p else p + 1] != list[if q < i then q else q + 1];
    }
  }

  lemma RemovedOrder(list: seq<nat>, i: nat, since: map<nat, nat>)
    requires InBlockingOrder(list, since) && i < |list|
    ensures InBlockingOrder(list[..i] + list[i + 1..], since)
  {
    var r := list[..i] + list[i + 1..];
    forall p | 0 <= p < |r| ensures r[p] in since {
      assert r[p] == list[if p < i then p else p + 1];
    }
    forall p, q | 0 <= p < q < |r| ensures since[r[p]] < since[r[q]] {
      var p', q' := if p < i then p else p + 1, if q < i then q else q + 1;
      assert since[list[p']] < since[list[q']];
    }
  }

  lemma RemovedMembers(list: seq<nat>, i: nat)
    requires Distinct(list) && i < |list|
    ensures forall x :: x in list[..i] + list[i + 1..] <==> x in list && x != list[i]
  {
    var r := list[..i] + list[i + 1..];
    forall x | x in list && x != list[i] ensures x in r {
      var j :| 0 <= j < |list| && list[j] == x;
      assert r[if j < i then j else j - 1] == x;
    }
    forall x | x in r ensures x in list && x != list[i] {
      var j :| 0 <= j < |r| && r[j] == x;
      assert list[if j < i then j else j + 1] == x;
    }
  }

  lemma CountSnoc(list: seq<nat>, c: nat, nokeyOf: map<nat, bool>)
    ensures CountNokey(list + [c], nokeyOf) == CountNokey(list, nokeyOf) + (if WantsNokey(nokeyOf, c) then 1 else 0)
  {
    assert (list + [c])[..|list|] == list;
  }

  lemma {:induction false} CountPositive(list: seq<nat>, c: nat, nokeyOf: map<nat, bool>)
    requires c in list && WantsNokey(nokeyOf, c)
    ensures CountNokey(list, nokeyOf) > 0
  {
    var n := |list| - 1;
    if list[n] != c {
      var i :| 0 <= i < |list| && list[i] == c;
      assert list[..n][i] == c;
      CountPositive(list[..n], c, nokeyOf);
    }
  }

  /** Joining at the tail keeps the index consistent, the newcomer being the last to have blocked. */
  lemma JoinKeeps(ix: Index, c: nat, k: DbKey)
    requires IndexOk(ix) && c in ix.keysOf && k !in ix.keysOf[c] && c in ix.since
    requires forall d :: d in ix.since && d != c ==> ix.since[d] < ix.since[c]
    ensures IndexOk(Join(ix, c, k))
  {
    hide KeyOk;
    var r := Join(ix, c, k);
    assert Listed(ix, c, k) <==> Waits(ix, c, k);
    forall x ensures KeyOk(r, x) {
      assert KeyOk(ix, x);
      if x == k {
        JoinKeyOk(ix, c, k);
      } else {
        JoinOtherOk(ix, c, k, x);
      }
    }
    forall d, x ensures Listed(r, d, x) <==> Waits(r, d, x) {
      assert Listed(ix, d, x) <==> Waits(ix, d, x);
      JoinMembers(ix, c, k, d, x);
    }
  }

  lemma JoinOtherOk(ix: Index, c: nat, k: DbKey, x: DbKey)
    requires KeyOk(ix, x) && x != k && c in ix.keysOf
    ensures KeyOk(Join(ix, c, k), x)
  {
    hide CountNokey, Distinct, InBlockingOrder;
  }

  lemma JoinMembers(ix: Index, c: nat, k: DbKey, d: nat, x: DbKey)
    requires c in ix.keysOf
    ensures Listed(Join(ix, c, k), d, x) <==> Listed(ix, d, x) || (d == c && x == k)
    ensures Waits(Join(ix, c, k), d, x) <==> Waits(ix, d, x) || (d == c && x == k)
  {
  }

  lemma JoinKeyOk(ix: Index, c: nat, k: DbKey)
    requires KeyOk(ix, k) && c in ix.keysOf && !Listed(ix, c, k) && c in ix.since
    requires forall d :: d in ix.since && d != c ==> ix.since[d] < ix.since[c]
    ensures KeyOk(Join(ix, c, k), k)
  {
    hide CountNokey, Distinct, InBlockingOrder;
    var before := if k in ix.waiters then ix.waiters[k] else [];
    if k !in ix.waiters {
      NobodyOk(ix.since, ix.nokeyOf);
    }
    CountSnoc(before, c, ix.nokeyOf);
    DistinctSnoc(before, c);
    OrderSnoc(before, c, ix.since);
  }

  lemma NobodyOk(since: map<nat, nat>, nokeyOf: map<nat, bool>)
    ensures Distinct<nat>([]) && InBlockingOrder([], since) && CountNokey([], nokeyOf) == 0
  {
  }

  lemma DistinctSnoc(list: seq<nat>, c: nat)
    requires Distinct(list) && c !in list
    ensures Distinct(list + [c])
  {
  }

  lemma OrderSnoc(list: seq<nat>, c: nat, since: map<nat, nat>)
    requires InBlockingOrder(list, since) && c in since && c !in list
    requires forall d :: d in since && d != c ==> since[d] < since[c]
    ensures InBlockingOrder(list + [c], since)
  {
    var r := list + [c];
    forall i, j | 0 <= i < j < |r| ensures since[r[i]] < since[r[j]] {
      if j == |list| {
        assert r[i] == list[i] && list[i] in since;
      } else {
        assert since[list[i]] < since[list[j]];
      }
    }
  }

  lemma LeaveKeeps(ix: Index, c: nat, k: DbKey)
    requires IndexOk(ix) && Waits(ix, c, k)
    ensures Listed(ix, c, k) && IndexOk(Leave(ix, c, k))
  {
    hide KeyOk;
    assert Listed(ix, c, k) && KeyOk(ix, k);
    var r := Leave(ix, c, k);
    forall x ensures KeyOk(r, x) {
      assert KeyOk(ix, x);
      if x == k {
        LeaveKeyOk(ix, c, k);
      } else {
        LeaveOtherOk(ix, c, k, x);
      }
    }
    forall d, x ensures Listed(r, d, x) <==> Waits(r, d, x) {
      assert Listed(ix, d, x) <==> Waits(ix, d, x);
      LeaveMembers(ix, c, k);
    }
  }

  lemma LeaveKeyOk(ix: Index, c: nat, k: DbKey)
    requires KeyOk(ix, k) && Listed(ix, c, k) && c in ix.keysOf
    ensures KeyOk(Leave(ix, c, k), k)
  {
    hide CountNokey, Without, Distinct, InBlockingOrder;
    WithoutIs(ix.waiters[k], c, ix.since, ix.nokeyOf);
    if WantsNokey(ix.nokeyOf, c) {
      CountPositive(ix.waiters[k], c, ix.nokeyOf);
    }
  }

  lemma LeaveOtherOk(ix: Index, c: nat, k: DbKey, x: DbKey)
    requires KeyOk(ix, x) && x != k && Listed(ix, c, k) && c in ix.keysOf
    ensures KeyOk(Leave(ix, c, k), x)
  {
    hide CountNokey, Without, Distinct, InBlockingOrder;
  }

  lemma LeaveMembers(ix: Index, c: nat, k: DbKey)
    requires KeyOk(ix, k) && Listed(ix, c, k) && c in ix.keysOf
    ensures var list := Without(ix.waiters[k], c); forall d :: d in list <==> d in ix.waiters[k] && d != c
  {
    hide CountNokey, Without, Distinct, InBlockingOrder;
    WithoutIs(ix.waiters[k], c, ix.since, ix.nokeyOf);
  }

  lemma {:induction false} CountOther(list: seq<nat>, c: nat, nokeyOf: map<nat, bool>, v: bool)
    requires c !in list
    ensures CountNokey(list, nokeyOf[c := v]) == CountNokey(list, nokeyOf)
  {
    if list != [] {
      CountOther(list[..|list| - 1], c, nokeyOf, v);
    }
  }

  /** A client that waits for nothing may change its wish and its blocking time. */
  lemma RetagKeeps(ix: Index, c: nat, v: bool, since: map<nat, nat>)
    requires IndexOk(ix) && c in ix.keysOf && ix.keysOf[c] == {}
    requires forall d :: d in ix.since && d != c ==> d in since && since[d] == ix.since[d]
    ensures IndexOk(ix.(nokeyOf := ix.nokeyOf[c := v], since := since))
  {
    var r := ix.(nokeyOf := ix.nokeyOf[c := v], since := since);
    forall k ensures KeyOk(r, k) {
      assert KeyOk(ix, k);
      if k in ix.waiters {
        assert Listed(ix, c, k) <==> Waits(ix, c, k);
        CountOther(ix.waiters[k], c, ix.nokeyOf, v);
      }
    }
    forall d, k ensures Listed(r, d, k) <==> Waits(r, d, k) {
      assert Listed(ix, d, k) <==> Waits(ix, d, k);
    }
  }

  // ---------------------------------------------------------------- the server's fields

  datatype BlockType = NotBlocked | OnList | OnWait | OnWaitAof | OnModule | OnStream | OnZSet | OnPostpone | OnShutdown

  /** Block types that may wait for keys. */
  predicate KeyType(t: BlockType) {
    t in {OnList, OnZSet, OnStream, OnModule}
  }

  datatype Client = Client(btype: BlockType, keys: set<DbKey>, onNokey: bool, isModule: bool, pending: bool,
                           queued: bool)
  {
    predicate IsBlocked() { btype != NotBlocked }

    predicate Ok() {
      && (!IsBlocked() ==> keys == {} && !onNokey)
      && (keys != {} || onNokey ==> KeyType(btype))
    }
  }

  function BlockedAs(clients: map<nat, Client>, t: BlockType): set<nat> {
    set c | c in clients && clients[c].btype == t
  }

  function BlockedRegular(clients: map<nat, Client>): set<nat> {
    set c | c in clients && clients[c].IsBlocked() && !clients[c].isModule
  }

  ghost predicate CountersOk(clients: map<nat, Client>, byType: map<BlockType, nat>, regular: nat) {
    && (forall t: BlockType :: t != NotBlocked ==> t in byType && byType[t] == |BlockedAs(clients, t)|)
    && regular == |BlockedRegular(clients)|
  }

  lemma BlockCounts(clients: map<nat, Client>, c: nat, new_: Client, byType: map<BlockType, nat>, regular: nat)
    requires CountersOk(clients, byType, regular) && c in clients && !clients[c].IsBlocked() && new_.IsBlocked()
    requires new_.isModule == clients[c].isModule
    ensures CountersOk(clients[c := new_], byType[new_.btype := byType[new_.btype] + 1],
                       if new_.isModule then regular else regular + 1)
  {
    hide BlockedAs, BlockedRegular;
    var r := clients[c := new_];
    forall t: BlockType | t != NotBlocked
      ensures |BlockedAs(r, t)| == |BlockedAs(clients, t)| + (if t == new_.btype then 1 else 0)
    {
      BlockedAsUpdate(clients, c, new_, t);
    }
    BlockedRegularUpdate(clients, c, new_);
  }

  lemma BlockedAsUpdate(clients: map<nat, Client>, c: nat, new_: Client, t: BlockType)
    requires c in clients && t != NotBlocked && !clients[c].IsBlocked()
    ensures |BlockedAs(clients[c := new_], t)| == |BlockedAs(clients, t)| + (if new_.btype == t then 1 else 0)
  {
    var r, before := clients[c := new_], BlockedAs(clients, t);
    if new_.btype == t {
      assert BlockedAs(r, t) == before + {c} && c !in before;
    } else {
      assert BlockedAs(r, t) == before;
    }
  }

  lemma BlockedRegularUpdate(clients: map<nat, Client>, c: nat, new_: Client)
    requires c in clients && new_.isModule == clients[c].isModule && new_.IsBlocked() != clients[c].IsBlocked()
    ensures var more := if new_.isModule then 0 else 1;
            |BlockedRegular(clients[c := new_])|
                == |BlockedRegular(clients)| + (if new_.IsBlocked() then more else -more)
  {
    var r := clients[c := new_];
    if new_.isModule {
      assert BlockedRegular(r) == BlockedRegular(clients);
    } else if new_.IsBlocked() {
      assert BlockedRegular(r) == BlockedRegular(clients) + {c};
    } else {
      assert BlockedRegular(clients) == BlockedRegular(r) + {c};
    }
  }

  lemma UnblockCounts(clients: map<nat, Client>, c: nat, new_: Client, byType: map<BlockType, nat>, regular: nat)
    requires CountersOk(clients, byType, regular) && c in clients && clients[c].IsBlocked() && !new_.IsBlocked()
    requires new_.isModule == clients[c].isModule
    ensures clients[c].btype in byType && byType[clients[c].btype] >= 1 && (new_.isModule || regular >= 1)
    ensures CountersOk(clients[c := new_], byType[clients[c].btype := byType[clients[c].btype] - 1],
                       if new_.isModule then regular else regular - 1)
  {
    hide BlockedAs, BlockedRegular;
    var r := clients[c := new_];
    forall t: BlockType | t != NotBlocked
      ensures |BlockedAs(clients, t)| == |BlockedAs(r, t)| + (if t == clients[c].btype then 1 else 0)
    {
      BlockedAsUpdate(r, c, clients[c], t);
      assert r[c := clients[c]] == clients;
    }
    BlockedRegularUpdate(clients, c, new_);
  }

  /** Changing a client without changing whether and how it is blocked. */
  lemma SameCounts(clients: map<nat, Client>, c: nat, new_: Client, byType: map<BlockType, nat>, regular: nat)
    requires CountersOk(clients, byType, regular) && c in clients && new_.btype == clients[c].btype
    requires new_.isModule == clients[c].isModule
    ensures CountersOk(clients[c := new_], byType, regular)
  {
    var r := clients[c := new_];
    assert forall t: BlockType :: BlockedAs(r, t) == BlockedAs(clients, t);
    assert BlockedRegular(r) == BlockedRegular(clients);
  }

  function KeysOf(clients: map<nat, Client>): map<nat, set<DbKey>> {
    map c | c in clients :: clients[c].keys
  }

  function NokeyOf(clients: map<nat, Client>): map<nat, bool> {
    map c | c in clients :: clients[c].onNokey
  }

  function ListOf(waiters: map<DbKey, seq<nat>>, k: DbKey): seq<nat> {
    if k in waiters then waiters[k] else []
  }

  /** The client was added at the tail of the lists of these keys, and no other list changed. */
  ghost predicate Joined(before: map<DbKey, seq<nat>>, after: map<DbKey, seq<nat>>, c: nat, keys: set<DbKey>) {
    forall k :: ListOf(after, k) == if k in keys then ListOf(before, k) + [c] else ListOf(before, k)
  }

  /** The client was taken out of the lists of these keys, and no other list changed. */
  ghost predicate Left(before: map<DbKey, seq<nat>>, after: map<DbKey, seq<nat>>, c: nat, keys: set<DbKey>) {
    forall k :: ListOf(after, k) == if k in keys then Without(ListOf(before, k), c) else ListOf(before, k)
  }

  /** Each signalled key is queued once, either in the list being served or in the next one. */
  ghost predicate ReadyOk(serving: seq<DbKey>, queue: seq<DbKey>, ready: set<DbKey>) {
    Distinct(serving + queue) && ready == Elements(serving + queue)
  }

  /** Each client to reprocess is queued once, and flagged. */
  ghost predicate UnblockedOk(unblocked: seq<nat>, clients: map<nat, Client>) {
    Distinct(unblocked) && (forall c :: c in unblocked <==> c in clients && clients[c].queued)
  }

  ghost predicate AllOk(clients: map<nat, Client>) {
    forall c :: c in clients ==> clients[c].Ok()
  }

  /** No two clients blocked at the same moment, and none later than now. */
  ghost predicate StampsOk(since: map<nat, nat>, clock: nat) {
    && (forall c :: c in since ==> since[c] < clock)
    && (forall c, d :: c in since && d in since && c != d ==> since[c] != since[d])
  }

  ghost predicate Newest(since: map<nat, nat>, clock: nat, c: nat) {
    && StampsOk(since, clock) && c in since && since[c] + 1 == clock
    && forall d :: d in since && d != c ==> since[d] < since[c]
  }

  // ---------------------------------------------------------------- updating one client

  lemma UpdateViews(clients: map<nat, Client>, c: nat, cl: Client)
    ensures KeysOf(clients[c := cl]) == KeysOf(clients)[c := cl.keys]
    ensures NokeyOf(clients[c := cl]) == NokeyOf(clients)[c := cl.onNokey]
  {
  }

  lemma UpdateSameViews(clients: map<nat, Client>, c: nat, cl: Client)
    requires c in clients && cl.keys == clients[c].keys && cl.onNokey == clients[c].onNokey
    ensures KeysOf(clients[c := cl]) == KeysOf(clients)
    ensures NokeyOf(clients[c := cl]) == NokeyOf(clients)
  {
  }

  lemma UpdateAllOk(clients: map<nat, Client>, c: nat, cl: Client)
    requires AllOk(clients) && cl.Ok()
    ensures AllOk(clients[c := cl])
  {
  }

  lemma UpdateUnblocked(unblocked: seq<nat>, clients: map<nat, Client>, c: nat, cl: Client)
    requires UnblockedOk(unblocked, clients) && cl.queued == (c in clients && clients[c].queued)
    ensures UnblockedOk(unblocked, clients[c := cl])
  {
  }

  lemma AddUnblocked(unblocked: seq<nat>, clients: map<nat, Client>, c: nat)
    requires UnblockedOk(unblocked, clients) && c in clients && !clients[c].queued
    ensures UnblockedOk(unblocked + [c], clients[c := clients[c].(queued := true)])
  {
  }

  lemma PopUnblocked(unblocked: seq<nat>, clients: map<nat, Client>)
    requires UnblockedOk(unblocked, clients) && unblocked != []
    ensures unblocked[0] in clients
    ensures UnblockedOk(unblocked[1..], clients[unblocked[0] := clients[unblocked[0]].(queued := false)])
  {
    var c := unblocked[0];
    assert c in unblocked;
    forall d | d in unblocked && d != c ensures d in unblocked[1..] {
      var i :| 0 <= i < |unblocked| && unblocked[i] == d;
      assert unblocked[1..][i - 1] == d;
    }
  }

  lemma CreateCounts(clients: map<nat, Client>, c: nat, cl: Client, byType: map<BlockType, nat>, regular: nat)
    requires CountersOk(clients, byType, regular) && c !in clients && !cl.IsBlocked()
    ensures CountersOk(clients[c := cl], byType, regular)
  {
    assert forall t: BlockType :: t != NotBlocked ==> BlockedAs(clients[c := cl], t) == BlockedAs(clients, t);
    assert BlockedRegular(clients[c := cl]) == BlockedRegular(clients);
  }

  lemma CreateKeepsIndex(ix: Index, c: nat)
    requires IndexOk(ix) && c !in ix.keysOf
    ensures IndexOk(ix.(keysOf := ix.keysOf[c := {}], nokeyOf := ix.nokeyOf[c := false]))
  {
    var r := ix.(keysOf := ix.keysOf[c := {}], nokeyOf := ix.nokeyOf[c := false]);
    forall k ensures KeyOk(r, k) {
      assert KeyOk(ix, k);
      if k in ix.waiters {
        assert Listed(ix, c, k) <==> Waits(ix, c, k);
        CountOther(ix.waiters[k], c, ix.nokeyOf, false);
      }
    }
    forall d, k ensures Listed(r, d, k) <==> Waits(r, d, k) {
      assert Listed(ix, d, k) <==> Waits(ix, d, k);
    }
  }

  lemma ElementsSnoc<T>(s: seq<T>, j: nat)
    requires j < |s|
    ensures Elements(s[..j + 1]) == Elements(s[..j]) + {s[j]}
  {
    assert s[..j + 1][j] == s[j];
    forall x | x in Elements(s[..j]) ensures x in Elements(s[..j + 1]) {
      var i :| 0 <= i < j && s[..j][i] == x;
      assert s[..j + 1][i] == x;
    }
    forall x | x in Elements(s[..j + 1]) ensures x in Elements(s[..j]) + {s[j]} {
      var i :| 0 <= i < j + 1 && s[..j + 1][i] == x;
      if i < j { assert s[..j][i] == x; }
    }
  }

  lemma ReadyAdd(serving: seq<DbKey>, queue: seq<DbKey>, ready: set<DbKey>, k: DbKey)
    requires ReadyOk(serving, queue, ready) && k !in ready
    ensures ReadyOk(serving, queue + [k], ready + {k})
  {
    var s := serving + queue;
    assert serving + (queue + [k]) == s + [k];
    assert (s + [k])[..|s|] == s && (s + [k])[..|s| + 1] == s + [k];
    ElementsSnoc(s + [k], |s|);
  }

  lemma ReadyPop(serving: seq<DbKey>, queue: seq<DbKey>, ready: set<DbKey>)
    requires ReadyOk(serving, queue, ready) && serving != []
    ensures ReadyOk(serving[1..], queue, ready - {serving[0]})
  {
    var s := serving + queue;
    var r := serving[1..] + queue;
    assert r == s[1..];
    assert forall i :: 0 <= i < |r| ==> r[i] == s[i + 1];
    forall x | x in Elements(r) ensures x in ready - {serving[0]} {
      var i :| 0 <= i < |r| && r[i] == x;
      assert s[i + 1] == x && s[0] != s[i + 1];
    }
    forall x | x in ready - {serving[0]} ensures x in Elements(r) {
      var i :| 0 <= i < |s| && s[i] == x;
      assert r[i - 1] == x;
    }
  }

  // ---------------------------------------------------------------- the server

  class Server {
    var clients: map<nat, Client>
    /** db->blocking_keys and db->blocking_keys_unblock_on_nokey */
    var waiters: map<DbKey, seq<nat>>
    var nokey: map<DbKey, nat>
    var byType: map<BlockType, nat>
    var blockedClients: nat
    /** db->ready_keys, server.ready_keys and the list being served */
    var ready: set<DbKey>
    var readyQueue: seq<DbKey>
    var serving: seq<DbKey>
    var unblocked: seq<nat>
    ghost var since: map<nat, nat>
    ghost var clock: nat

    ghost predicate IndexIsOk(keysOf: map<nat, set<DbKey>>, nokeyOf: map<nat, bool>)
      reads this
    {
      IndexOk(Index(waiters, nokey, keysOf, nokeyOf, since))
    }

    ghost predicate Valid()
      reads this
    {
      && IndexIsOk(KeysOf(clients), NokeyOf(clients))
      && CountersOk(clients, byType, blockedClients)
      && ReadyOk(serving, readyQueue, ready)
      && UnblockedOk(unblocked, clients)
      && AllOk(clients) && StampsOk(since, clock)
    }

    constructor ()
      ensures Valid() && clients == map[] && waiters == map[] && ready == {} && readyQueue == [] && serving == []
      ensures unblocked == []
      ensures since == map[] && clock == 0
    {
      clients, waiters, nokey, blockedClients := map[], map[], map[], 0;
      byType := map[OnList := 0, OnWait := 0, OnWaitAof := 0, OnModule := 0, OnStream := 0, OnZSet := 0,
                    OnPostpone := 0, OnShutdown := 0];
      ready, readyQueue, serving, unblocked := {}, [], [], [];
      since, clock := map[], 0;
    }

    /** A new connection. */
    method CreateClient(c: nat, isModule: bool)
      requires Valid() && c !in clients
      modifies `clients
      ensures Valid() && clients == old(clients)[c := Client(NotBlocked, {}, false, isModule, false, false)]
    {
      hide IndexOk, CountersOk, UnblockedOk, AllOk, KeysOf, NokeyOf, ReadyOk;
      var n := Client(NotBlocked, {}, false, isModule, false, false);
      UpdateViews(clients, c, n);
      UpdateAllOk(clients, c, n);
      UpdateUnblocked(unblocked, clients, c, n);
      CreateCounts(clients, c, n, byType, blockedClients);
      assert c !in KeysOf(clients) by { KeysOfDomain(clients); }
      CreateKeepsIndex(Index(waiters, nokey, KeysOf(clients), NokeyOf(clients), since), c);
      clients := clients[c := n];
    }

    /** One turn of the loop of blockForKeys, for a key the client does not wait for yet. */
    method JoinKey(c: nat, k: DbKey, v: bool)
      requires c in clients && k !in clients[c].keys
      requires IndexIsOk(KeysOf(clients), NokeyOf(clients)[c := v])
      requires Newest(since, clock, c)
      modifies `clients, `waiters, `nokey
      ensures clients == old(clients)[c := old(clients)[c].(keys := old(clients)[c].keys + {k})]
      ensures IndexIsOk(KeysOf(clients), NokeyOf(clients)[c := v])
      ensures waiters == old(waiters)[k := ListOf(old(waiters), k) + [c]]
    {
      hide IndexOk, KeysOf, NokeyOf, ListOf;
      var cl := clients[c].(keys := clients[c].keys + {k});
      UpdateViews(clients, c, cl);
      ghost var nokeyOf := NokeyOf(clients)[c := v];
      Overwrite(NokeyOf(clients), c, cl.onNokey, v);
      KeysOfDomain(clients);
      ghost var ix := Index(waiters, nokey, KeysOf(clients), nokeyOf, since);
      JoinKeeps(ix, c, k);
      JoinParts(ix, c, k);
      clients := clients[c := cl];
      AddWaiter(c, k, v);
      assert NokeyOf(clients)[c := v] == nokeyOf;
    }

    /** The client's place in the key's list, and in its count of nokey waiters. */
    method AddWaiter(c: nat, k: DbKey, v: bool)
      modifies `waiters, `nokey
      ensures waiters == old(waiters)[k := ListOf(old(waiters), k) + [c]]
      ensures nokey == if v then old(nokey)[k := (if k in old(nokey) then old(nokey)[k] else 0) + 1] else old(nokey)
    {
      if k !in waiters {
        waiters := waiters[k := []];
      }
      waiters := waiters[k := waiters[k] + [c]];
      if v {
        if k !in nokey {
          nokey := nokey[k := 1];
        } else {
          nokey := nokey[k := nokey[k] + 1];
        }
      }
    }

    /** Notes the moment of blocking. */
    ghost method Stamp(c: nat, v: bool)
      requires c in clients && clients[c].keys == {}
      requires IndexIsOk(KeysOf(clients), NokeyOf(clients)) && StampsOk(since, clock)
      modifies `since, `clock
      ensures since == old(since)[c := old(clock)] && clock == old(clock) + 1
      ensures IndexIsOk(KeysOf(clients), NokeyOf(clients)[c := v]) && Newest(since, clock, c)
    {
      hide IndexOk, NokeyOf;
      RetagKeeps(Index(waiters, nokey, KeysOf(clients), NokeyOf(clients), since), c, v, since[c := clock]);
      since, clock := since[c := clock], clock + 1;
    }

    /** The loop of blockForKeys: join the list of every key not joined yet. */
    method JoinKeys(c: nat, keys: seq<DbKey>, v: bool)
      requires c in clients && clients[c].keys == {}
      requires IndexIsOk(KeysOf(clients), NokeyOf(clients)[c := v]) && Newest(since, clock, c)
      modifies `clients, `waiters, `nokey
      ensures clients == old(clients)[c := old(clients)[c].(keys := Elements(keys))]
      ensures IndexIsOk(KeysOf(clients), NokeyOf(clients)[c := v])
      ensures Joined(old(waiters), waiters, c, Elements(keys))
    {
      hide IndexOk, KeysOf, NokeyOf, Elements, Joined, ListOf, Newest;
      ElementsNone(keys);
      JoinedNone(waiters, c);
      ghost var client := clients[c];
      assert client.(keys := {}) == client;
      SameUpdate(clients, c, client);
      for j := 0 to |keys|
        invariant clients == old(clients)[c := client.(keys := Elements(keys[..j]))]
        invariant IndexIsOk(KeysOf(clients), NokeyOf(clients)[c := v])
        invariant Joined(old(waiters), waiters, c, Elements(keys[..j]))
      {
        ElementsSnoc(keys, j);
        if keys[j] !in clients[c].keys {
          JoinedStep(old(waiters), waiters, c, Elements(keys[..j]), keys[j]);
          JoinKey(c, keys[j], v);
        } else {
          assert Elements(keys[..j + 1]) == Elements(keys[..j]);
        }
      }
      assert keys[..|keys|] == keys;
    }

    /** blockClient: flag, type and counters. */
    method BlockClient(c: nat, btype: BlockType)
      requires c in clients && !clients[c].IsBlocked() && btype != NotBlocked
      requires CountersOk(clients, byType, blockedClients)
      modifies `clients, `byType, `blockedClients
      ensures clients == old(clients)[c := old(clients)[c].(btype := btype)]
      ensures CountersOk(clients, byType, blockedClients)
    {
      BlockCounts(clients, c, clients[c].(btype := btype), byType, blockedClients);
      clients := clients[c := clients[c].(btype := btype)];
      if !clients[c].isModule {
        blockedClients := blockedClients + 1;
      }
      byType := byType[btype := byType[btype] + 1];
    }

    method BlockForKeys(c: nat, btype: BlockType, keys: seq<DbKey>, unblockOnNokey: bool)
      requires Valid() && c in clients && !clients[c].IsBlocked() && KeyType(btype)
      modifies `clients, `waiters, `nokey, `since, `clock, `byType, `blockedClients
      ensures Valid()
      ensures clients == old(clients)[c := old(clients)[c].(btype := btype, keys := Elements(keys),
                onNokey := unblockOnNokey,
                                                            pending := old(clients)[c].pending || btype != OnModule)]
      ensures since == old(since)[c := old(clock)] && clock == old(clock) + 1
      ensures Joined(old(waiters), waiters, c, Elements(keys))
    {
      hide IndexOk, CountersOk, UnblockedOk, AllOk, KeysOf, NokeyOf, ReadyOk, Elements, StampsOk, Joined, ListOf;
      assert clients[c].keys == {} by { OkOf(clients, c); }
      Stamp(c, unblockOnNokey);
      JoinKeys(c, keys, unblockOnNokey);
      ghost var mid := clients;
      var cl := clients[c].(onNokey := unblockOnNokey);
      if btype != OnModule {
        cl := cl.(pending := true);
      }
      BlockedViews(old(clients), mid, c, cl, btype, unblocked, byType, blockedClients);
      clients := clients[c := cl];
      BlockClient(c, btype);
      assert IndexIsOk(KeysOf(mid), NokeyOf(mid)[c := unblockOnNokey]);
    }

    /** blockForReplication, blockForAofFsync, blockPostponeClient, blockClientShutdown and modules. */
    method BlockElsewhere(c: nat, btype: BlockType)
      requires Valid() && c in clients && !clients[c].IsBlocked()
      requires btype in {OnWait, OnWaitAof, OnPostpone, OnShutdown, OnModule}
      modifies `clients, `byType, `blockedClients
      ensures Valid()
      ensures var pending := old(clients)[c].pending || btype == OnPostpone;
              clients == old(clients)[c := old(clients)[c].(btype := btype, pending := pending)]
    {
      hide IndexOk, CountersOk, UnblockedOk, AllOk, KeysOf, NokeyOf, ReadyOk, StampsOk;
      OkOf(clients, c);
      ghost var last := clients[c].(btype := btype, pending := clients[c].pending || btype == OnPostpone);
      UpdateSameViews(clients, c, last);
      UpdateAllOk(clients, c, last);
      UpdateUnblocked(unblocked, clients, c, last);
      BlockClient(c, btype);
      if btype == OnPostpone {
        SameCounts(clients, c, last, byType, blockedClients);
        clients := clients[c := clients[c].(pending := true)];
      }
      assert clients == old(clients)[c := last];
    }

    /** The client leaves one key's list; its own map still holds the key unless removeKey. */
    method ReleaseBlockedEntry(c: nat, k: DbKey, removeKey: bool, ghost keysOf: map<nat, set<DbKey>>)
      requires c in clients && c in keysOf && k in keysOf[c] && IndexIsOk(keysOf, NokeyOf(clients))
      modifies `clients, `waiters, `nokey
      ensures clients == if removeKey then old(clients)[c := old(clients)[c].(keys := old(clients)[c].keys - {k})]
                else old(clients)
      ensures IndexIsOk(keysOf[c := keysOf[c] - {k}], NokeyOf(clients))
      ensures Left(old(waiters), waiters, c, {k})
    {
      hide IndexOk, KeysOf, NokeyOf, Without, Left, ListOf;
      ghost var ix := Index(waiters, nokey, keysOf, NokeyOf(clients), since);
      NokeyOfAt(clients, c);
      LeaveKeeps(ix, c, k);
      LeftOne(waiters, c, k);
      var list := RemoveNode(waiters[k], c);
      if |list| == 0 {
        waiters := waiters - {k};
        nokey := nokey - {k};
      } else {
        waiters := waiters[k := list];
        if clients[c].onNokey && k in nokey {
          if nokey[k] <= 1 {
            nokey := nokey - {k};
          } else {
            nokey := nokey[k := nokey[k] - 1];
          }
        }
      }
      assert waiters == Leave(ix, c, k).waiters && nokey == Leave(ix, c, k).nokey;
      if removeKey {
        UpdateViews(clients, c, clients[c].(keys := clients[c].keys - {k}));
        SameUpdate(NokeyOf(clients), c, clients[c].onNokey);
        clients := clients[c := clients[c].(keys := clients[c].keys - {k})];
      }
    }

    /** The client leaves the lists of all its keys. */
    method UnblockClientWaitingData(c: nat)
      requires c in clients && IndexIsOk(KeysOf(clients), NokeyOf(clients))
      modifies `clients, `waiters, `nokey
      ensures clients == old(clients)[c := old(clients)[c].(keys := {})]
      ensures IndexIsOk(KeysOf(clients), NokeyOf(clients))
      ensures Left(old(waiters), waiters, c, old(clients)[c].keys)
    {
      hide IndexOk, KeysOf, NokeyOf, Left, ListOf;
      var todo := clients[c].keys;
      ghost var keysOf: map<nat, set<DbKey>> := KeysOf(clients);
      KeysOfDomain(clients);
      LeftNone(waiters, c);
      assert clients[c].keys - todo == {};
      while todo != {}
        invariant clients == old(clients) && todo <= clients[c].keys
        invariant c in keysOf && keysOf[c] == todo && keysOf[c := {}] == KeysOf(clients)[c := {}]
        invariant IndexIsOk(keysOf, NokeyOf(clients))
        invariant Left(old(waiters), waiters, c, clients[c].keys - todo)
        decreases todo
      {
        var k :| k in todo;
        ghost var was := waiters;
        ReleaseBlockedEntry(c, k, false, keysOf);
        LeftStep(old(waiters), was, waiters, c, clients[c].keys - todo, k);
        assert clients[c].keys - todo + {k} == clients[c].keys - (todo - {k});
        keysOf := keysOf[c := todo - {k}];
        todo := todo - {k};
      }
      assert clients[c].keys - todo == clients[c].keys;
      SameUpdate(keysOf, c, {});
      UpdateViews(clients, c, clients[c].(keys := {}));
      NokeyOfAt(clients, c);
      SameUpdate(NokeyOf(clients), c, clients[c].onNokey);
      clients := clients[c := clients[c].(keys := {})];
    }

    method QueueClientForReprocessing(c: nat)
      requires c in clients && UnblockedOk(unblocked, clients)
      modifies `clients, `unblocked
      ensures clients == old(clients)[c := old(clients)[c].(queued := true)]
      ensures unblocked == if old(clients)[c].queued then old(unblocked) else old(unblocked) + [c]
      ensures UnblockedOk(unblocked, clients)
    {
      hide UnblockedOk;
      if !clients[c].queued {
        AddUnblocked(unblocked, clients, c);
        clients := clients[c := clients[c].(queued := true)];
        unblocked := unblocked + [c];
      } else {
        SameUpdate(clients, c, clients[c].(queued := true));
      }
    }

    /** What unblockClient does after the lists are left: counters, type and wish. */
    method ClearBlocked(c: nat)
      requires c in clients && clients[c].IsBlocked() && CountersOk(clients, byType, blockedClients)
      modifies `clients, `byType, `blockedClients
      ensures clients == old(clients)[c := old(clients)[c].(btype := NotBlocked, onNokey := false)]
      ensures CountersOk(clients, byType, blockedClients)
    {
      hide CountersOk;
      var cl := clients[c].(btype := NotBlocked, onNokey := false);
      UnblockCounts(clients, c, cl, byType, blockedClients);
      if !clients[c].isModule {
        blockedClients := blockedClients - 1;
      }
      byType := byType[clients[c].btype := byType[clients[c].btype] - 1];
      clients := clients[c := cl];
    }

    method UnblockClient(c: nat, queueForReprocessing: bool)
      requires Valid() && c in clients && clients[c].IsBlocked()
      modifies `clients, `waiters, `nokey, `byType, `blockedClients, `unblocked
      ensures Valid()
      ensures clients == old(clients)[c := old(clients)[c].(btype := NotBlocked, keys := {}, onNokey := false,
                                                            queued := old(clients)[c].queued || queueForReprocessing)]
      ensures Left(old(waiters), waiters, c, old(clients)[c].keys)
      ensures unblocked == if queueForReprocessing && !old(clients)[c].queued then old(unblocked) + [c]
                else old(unblocked)
    {
      hide IndexOk, CountersOk, UnblockedOk, AllOk, KeysOf, NokeyOf, ReadyOk, StampsOk, Left, ListOf;
      LeaveData(c);
      ghost var mid := clients;
      assert mid[c].keys == {};
      ClearBlocked(c);
      ghost var low := clients;
      Overwritten(old(clients), c, mid[c], low[c]);
      UpdateAllOk(old(clients), c, low[c]);
      UpdateUnblocked(unblocked, old(clients), c, low[c]);
      UnwishKeeps(mid, c, low[c]);
      RetagKeeps(Index(waiters, nokey, KeysOf(mid), NokeyOf(mid), since), c, false, since);
      if queueForReprocessing {
        QueueClientForReprocessing(c);
        UpdateSameViews(low, c, clients[c]);
        SameCounts(low, c, clients[c], byType, blockedClients);
        UpdateAllOk(low, c, clients[c]);
        Overwritten(old(clients), c, low[c], clients[c]);
      }
    }

    /** The first part of unblockClient: a client that waits for keys leaves their lists. */
    method LeaveData(c: nat)
      requires Valid() && c in clients && clients[c].IsBlocked()
      modifies `clients, `waiters, `nokey
      ensures clients == old(clients)[c := old(clients)[c].(keys := {})]
      ensures IndexIsOk(KeysOf(clients), NokeyOf(clients)) && CountersOk(clients, byType, blockedClients)
      ensures Left(old(waiters), waiters, c, old(clients)[c].keys)
    {
      hide IndexOk, CountersOk, UnblockedOk, AllOk, KeysOf, NokeyOf, ReadyOk, StampsOk, Left, ListOf;
      OkOf(clients, c);
      SameCounts(clients, c, clients[c].(keys := {}), byType, blockedClients);
      if clients[c].btype in {OnList, OnZSet, OnStream} {
        UnblockClientWaitingData(c);
      } else if clients[c].btype == OnModule && clients[c].keys != {} {
        UnblockClientWaitingData(c);
      } else {
        LeftNone(waiters, c);
        SameUpdate(clients, c, clients[c].(keys := {}));
      }
    }

    /** unblockClientOnTimeout and unblockClientOnError: the reply is sent, so the pending command is dropped. */
    method UnblockWithReply(c: nat)
      requires Valid() && c in clients && clients[c].IsBlocked()
      modifies `clients, `waiters, `nokey, `byType, `blockedClients, `unblocked
      ensures Valid()
      ensures clients == old(clients)[c := old(clients)[c].(btype := NotBlocked, keys := {}, onNokey := false,
                pending := false, queued := true)]
      ensures unblocked == if old(clients)[c].queued then old(unblocked) else old(unblocked) + [c]
      ensures Left(old(waiters), waiters, c, old(clients)[c].keys)
    {
      hide IndexOk, CountersOk, UnblockedOk, AllOk, KeysOf, NokeyOf, ReadyOk, StampsOk, Left, ListOf;
      DropPending(c);
      UnblockClient(c, true);
    }

    method DropPending(c: nat)
      requires Valid() && c in clients
      modifies `clients
      ensures Valid() && clients == old(clients)[c := old(clients)[c].(pending := false)]
    {
      hide IndexOk, CountersOk, UnblockedOk, AllOk, KeysOf, NokeyOf, ReadyOk, StampsOk;
      var cl := clients[c].(pending := false);
      OkOf(clients, c);
      UpdateSameViews(clients, c, cl);
      UpdateAllOk(clients, c, cl);
      UpdateUnblocked(unblocked, clients, c, cl);
      SameCounts(clients, c, cl, byType, blockedClients);
      clients := clients[c := cl];
    }

    /** unblockClientOnKey up to running the pending command again. */
    method WakeOnKey(c: nat, k: DbKey) returns (rerun: bool)
      requires Valid() && c in clients && k in clients[c].keys && clients[c].btype in {OnStream, OnList, OnZSet}
      modifies `clients, `waiters, `nokey, `byType, `blockedClients, `unblocked
      ensures Valid() && unblocked == old(unblocked) && rerun == old(clients)[c].pending
      ensures clients == old(clients)[c := old(clients)[c].(btype := NotBlocked, keys := {}, onNokey := false,
                pending := false)]
      ensures Left(old(waiters), waiters, c, old(clients)[c].keys)
    {
      hide IndexOk, CountersOk, UnblockedOk, AllOk, KeysOf, NokeyOf, ReadyOk, StampsOk, Left, ListOf;
      ReleaseOne(c, k);
      ghost var was := waiters;
      UnblockClient(c, false);
      LeftRest(old(waiters), was, waiters, c, k, old(clients)[c].keys);
      rerun := clients[c].pending;
      if rerun {
        DropPending(c);
      }
    }

    method ReleaseOne(c: nat, k: DbKey)
      requires Valid() && c in clients && k in clients[c].keys
      modifies `clients, `waiters, `nokey
      ensures Valid() && clients == old(clients)[c := old(clients)[c].(keys := old(clients)[c].keys - {k})]
      ensures Left(old(waiters), waiters, c, {k})
    {
      hide IndexOk, CountersOk, UnblockedOk, AllOk, KeysOf, NokeyOf, ReadyOk, StampsOk, Left, ListOf;
      ghost var cl := clients[c].(keys := clients[c].keys - {k});
      KeysOfDomain(clients);
      OkOf(clients, c);
      UpdateViews(clients, c, cl);
      UpdateAllOk(clients, c, cl);
      UpdateUnblocked(unblocked, clients, c, cl);
      SameCounts(clients, c, cl, byType, blockedClients);
      ReleaseBlockedEntry(c, k, true, KeysOf(clients));
    }

    /** The end of unblockClientOnKey: a client whose command did not block again is queued. */
    method AfterRerun(c: nat)
      requires Valid() && c in clients
      modifies `clients, `unblocked
      ensures Valid()
      ensures var q := !old(clients)[c].IsBlocked() && !old(clients)[c].isModule && !old(clients)[c].queued;
              && clients == (if q then old(clients)[c := old(clients)[c].(queued := true)] else old(clients))
              && unblocked == if q then old(unblocked) + [c] else old(unblocked)
    {
      hide IndexOk, CountersOk, UnblockedOk, AllOk, KeysOf, NokeyOf, ReadyOk, StampsOk;
      var cl := clients[c].(queued := true);
      OkOf(clients, c);
      UpdateSameViews(clients, c, cl);
      UpdateAllOk(clients, c, cl);
      SameCounts(clients, c, cl, byType, blockedClients);
      SameUpdate(clients, c, clients[c]);
      if !clients[c].IsBlocked() && !clients[c].isModule {
        QueueClientForReprocessing(c);
      }
    }

    /** signalKeyAsReadyLogic */
    method SignalKeyAsReady(k: DbKey, btype: BlockType, deleted: bool)
      requires Valid() && (btype == NotBlocked || KeyType(btype))
      modifies `ready, `readyQueue
      ensures Valid()
      ensures var wanted := btype != NotBlocked && (byType[btype] > 0 || byType[OnModule] > 0)
                && (if deleted then k in nokey else k in waiters);
              && ready == (if wanted then old(ready) + {k} else old(ready))
              && readyQueue == if wanted && k !in old(ready) then old(readyQueue) + [k] else old(readyQueue)
    {
      hide IndexOk, UnblockedOk, AllOk, KeysOf, NokeyOf, ReadyOk, StampsOk;
      if btype == NotBlocked {
        return;
      }
      if byType[btype] == 0 && byType[OnModule] == 0 {
        return;
      }
      if deleted {
        if k !in nokey {
          return;
        }
      } else if k !in waiters {
        return;
      }
      if k in ready {
        assert ready + {k} == ready;
        return;
      }
      ReadyAdd(serving, readyQueue, ready, k);
      ready := ready + {k};
      readyQueue := readyQueue + [k];
    }

    /** handleClientsBlockedOnKeys detaches the queue before serving it. */
    method TakeReadyKeys()
      requires Valid() && serving == []
      modifies `serving, `readyQueue
      ensures Valid() && serving == old(readyQueue) && readyQueue == []
    {
      assert serving + readyQueue == readyQueue + [];
      serving, readyQueue := readyQueue, [];
    }

    /** The next key to serve may be signalled again from here on. */
    method NextReadyKey() returns (k: DbKey)
      requires Valid() && serving != []
      modifies `serving, `ready
      ensures Valid() && [k] + serving == old(serving) && k !in ready && ready + {k} == old(ready)
    {
      hide IndexOk, CountersOk, UnblockedOk, AllOk, KeysOf, NokeyOf, StampsOk;
      k := serving[0];
      ReadyPop(serving, readyQueue, ready);
      assert (serving + readyQueue)[0] == k;
      ready := ready - {k};
      serving := serving[1..];
    }

    /** One turn of processUnblockedClients. */
    method NextUnblocked() returns (c: nat)
      requires Valid() && unblocked != []
      modifies `clients, `unblocked
      ensures Valid() && [c] + unblocked == old(unblocked) && c in old(clients)
      ensures clients == old(clients)[c := old(clients)[c].(queued := false)]
    {
      hide IndexOk, CountersOk, UnblockedOk, AllOk, KeysOf, NokeyOf, ReadyOk, StampsOk;
      c := unblocked[0];
      PopUnblocked(unblocked, clients);
      var cl := clients[c].(queued := false);
      OkOf(clients, c);
      UpdateSameViews(clients, c, cl);
      UpdateAllOk(clients, c, cl);
      SameCounts(clients, c, cl, byType, blockedClients);
      unblocked := unblocked[1..];
      clients := clients[c := cl];
    }

    /** A client is in a key's list exactly once if the key is in its own map, and not at all otherwise. */
    lemma ListedOnce(c: nat, k: DbKey)
      requires Valid()
      ensures multiset(ListOf(waiters, k))[c] == if c in clients && k in clients[c].keys then 1 else 0
      ensures k in waiters ==> waiters[k] != []
    {
      var ix := Index(waiters, nokey, KeysOf(clients), NokeyOf(clients), since);
      assert Listed(ix, c, k) <==> Waits(ix, c, k);
      assert KeyOk(ix, k);
      if c in ListOf(waiters, k) {
        CountOnce(waiters[k], c);
      }
    }

    /** The nokey count of a key is the number of clients that wait for it and asked to hear of its deletion. */
    lemma NokeyCounts(k: DbKey)
      requires Valid()
      ensures (if k in nokey then nokey[k] else 0)
           == |set c | c in clients && k in clients[c].keys && clients[c].onNokey|
      ensures k in nokey ==> nokey[k] > 0
    {
      var ix := Index(waiters, nokey, KeysOf(clients), NokeyOf(clients), since);
      assert KeyOk(ix, k);
      var wish := set c | c in clients && k in clients[c].keys && clients[c].onNokey;
      var list := ListOf(waiters, k);
      CountIsCard(list, ix.nokeyOf);
      forall c ensures c in wish <==> c in Wishers(list, ix.nokeyOf) {
        assert Listed(ix, c, k) <==> Waits(ix, c, k);
      }
      assert wish == Wishers(list, ix.nokeyOf);
    }

    /** The quick returns of signalKeyAsReadyLogic never lose a wake-up: if a client that the key's
        new value could serve waits for the key, the conditions for queueing the key hold. */
    lemma WakeupNotLost(c: nat, k: DbKey, btype: BlockType)
      requires Valid() && KeyType(btype) && c in clients && k in clients[c].keys
      requires clients[c].btype in {btype, OnModule}
      ensures byType[btype] > 0 || byType[OnModule] > 0
      ensures k in waiters && (clients[c].onNokey ==> k in nokey)
    {
      var ix := Index(waiters, nokey, KeysOf(clients), NokeyOf(clients), since);
      assert Waits(ix, c, k) && Listed(ix, c, k) && KeyOk(ix, k);
      assert c in BlockedAs(clients, clients[c].btype);
      if clients[c].onNokey {
        CountPositive(waiters[k], c, ix.nokeyOf);
      }
    }

    /** Clients are listed in the order in which they blocked. */
    lemma FirstBlockedFirst(k: DbKey, i: nat, j: nat)
      requires Valid() && i < j < |ListOf(waiters, k)|
      ensures var list := ListOf(waiters, k); list[i] in since && list[j] in since && since[list[i]] < since[list[j]]
    {
      assert KeyOk(Index(waiters, nokey, KeysOf(clients), NokeyOf(clients), since), k);
    }
  }

  lemma {:induction false} CountOnce(list: seq<nat>, c: nat)
    requires Distinct(list) && c in list
    ensures multiset(list)[c] == 1
  {
    var n := |list| - 1;
    assert list == list[..n] + [list[n]];
    if list[n] != c {
      var i :| 0 <= i < |list| && list[i] == c;
      assert list[..n][i] == c;
      CountOnce(list[..n], c);
    } else {
      assert c !in list[..n];
    }
  }

  function Wishers(list: seq<nat>, nokeyOf: map<nat, bool>): set<nat> {
    set c | c in list && WantsNokey(nokeyOf, c)
  }

  lemma {:induction false} CountIsCard(list: seq<nat>, nokeyOf: map<nat, bool>)
    requires Distinct(list)
    ensures CountNokey(list, nokeyOf) == |Wishers(list, nokeyOf)|
  {
    if list != [] {
      var n := |list| - 1;
      var rest, c := list[..n], list[n];
      assert list == rest + [c];
      CountIsCard(rest, nokeyOf);
      assert Wishers(list, nokeyOf) == if WantsNokey(nokeyOf, c) then Wishers(rest, nokeyOf) + {c}
          else Wishers(rest, nokeyOf);
    }
  }

  lemma LeftRest(a: map<DbKey, seq<nat>>, b: map<DbKey, seq<nat>>, d: map<DbKey, seq<nat>>, c: nat, k: DbKey,
                 keys: set<DbKey>)
    requires Left(a, b, c, {k}) && Left(b, d, c, keys - {k}) && k in keys
    ensures Left(a, d, c, keys)
  {
  }

  lemma UnwishKeeps(clients: map<nat, Client>, c: nat, cl: Client)
    requires c in clients && clients[c].keys == {} == cl.keys && !cl.onNokey
    ensures KeysOf(clients[c := cl]) == KeysOf(clients) && NokeyOf(clients[c := cl]) == NokeyOf(clients)[c := false]
    ensures c in KeysOf(clients) && KeysOf(clients)[c] == {}
  {
  }

  lemma LeftNone(w: map<DbKey, seq<nat>>, c: nat)
    ensures Left(w, w, c, {})
  {
  }

  lemma LeftStep(a: map<DbKey, seq<nat>>, b: map<DbKey, seq<nat>>, d: map<DbKey, seq<nat>>, c: nat, keys: set<DbKey>,
                 k: DbKey)
    requires Left(a, b, c, keys) && Left(b, d, c, {k}) && k !in keys
    ensures Left(a, d, c, keys + {k})
  {
  }

  /** From the client with its keys recorded to the client blocked on them. */
  lemma BlockedViews(before: map<nat, Client>, mid: map<nat, Client>, c: nat, cl: Client, btype: BlockType,
                     unblocked: seq<nat>, byType: map<BlockType, nat>, regular: nat)
    requires c in before && c in mid && mid == before[c := mid[c]] && !before[c].IsBlocked() && KeyType(btype)
    requires cl == mid[c].(onNokey := cl.onNokey, pending := cl.pending) && mid[c] == before[c].(keys := mid[c].keys)
    requires AllOk(before) && UnblockedOk(unblocked, before) && CountersOk(before, byType, regular)
    ensures var last := cl.(btype := btype); var now: map<nat, Client> := mid[c := cl];
            && CountersOk(now, byType, regular)
            && now[c := last] == before[c := last]
            && AllOk(before[c := last]) && UnblockedOk(unblocked, before[c := last])
            && KeysOf(before[c := last]) == KeysOf(mid) && NokeyOf(before[c := last]) == NokeyOf(mid)[c := cl.onNokey]
  {
    hide CountersOk, UnblockedOk, AllOk, KeysOf, NokeyOf;
    var last := cl.(btype := btype);
    Overwritten(before, c, mid[c], cl);
    Overwritten(before, c, mid[c], last);
    Overwritten(mid, c, cl, last);
    UpdateViews(mid, c, last);
    KeysOfDomain(mid);
    SameUpdate(KeysOf(mid), c, last.keys);
    UpdateAllOk(before, c, last);
    UpdateUnblocked(unblocked, before, c, last);
    SameCounts(before, c, cl, byType, regular);
  }

  lemma JoinParts(ix: Index, c: nat, k: DbKey)
    requires c in ix.keysOf
    ensures Join(ix, c, k) == Index(ix.waiters[k := ListOf(ix.waiters, k) + [c]],
                                    if WantsNokey(ix.nokeyOf, c)
                                    then ix.nokey[k := (if k in ix.nokey then ix.nokey[k] else 0) + 1]
                                    else ix.nokey,
                                    ix.keysOf[c := ix.keysOf[c] + {k}], ix.nokeyOf, ix.since)
  {
  }

  lemma SameUpdate<K, V>(m: map<K, V>, k: K, v: V)
    requires k in m && m[k] == v
    ensures m[k := v] == m
  {
  }

  lemma NokeyOfAt(clients: map<nat, Client>, c: nat)
    requires c in clients
    ensures c in NokeyOf(clients) && NokeyOf(clients)[c] == clients[c].onNokey
  {
  }

  lemma JoinedNone(w: map<DbKey, seq<nat>>, c: nat)
    ensures Joined(w, w, c, {})
  {
  }

  lemma JoinedStep(before: map<DbKey, seq<nat>>, after: map<DbKey, seq<nat>>, c: nat, keys: set<DbKey>, k: DbKey)
    requires Joined(before, after, c, keys) && k !in keys
    ensures Joined(before, after[k := ListOf(after, k) + [c]], c, keys + {k})
  {
  }

  lemma LeftOne(w: map<DbKey, seq<nat>>, c: nat, k: DbKey)
    requires k in w
    ensures var list := Without(w[k], c); Left(w, if list == [] then w - {k} else w[k := list], c, {k})
  {
  }

  /** listUnlinkNode on the client's own node. */
  method RemoveNode(list: seq<nat>, c: nat) returns (r: seq<nat>)
    requires c in list
    ensures r == Without(list, c)
  {
    hide Without;
    var i := |list| - 1;
    var kept: seq<nat> := [];
    assert list[..|list|] == list;
    while list[i] != c
      invariant 0 <= i < |list| && c in list[..i + 1]
      invariant kept == list[i + 1..]
      invariant Without(list, c) == Without(list[..i + 1], c) + kept
      decreases i
    {
      WithoutLast(list, c, i);
      Regrouped(Without(list[..i], c), list[i], kept);
      assert list[i..] == [list[i]] + kept;
      kept := [list[i]] + kept;
      i := i - 1;
    }
    WithoutLast(list, c, i);
    r := list[..i] + kept;
  }

  lemma WithoutLast(list: seq<nat>, c: nat, i: nat)
    requires i < |list|
    ensures Without(list[..i + 1], c) == if list[i] == c then list[..i] else Without(list[..i], c) + [list[i]]
    ensures c in list[..i + 1] && list[i] != c ==> i > 0 && c in list[..i]
  {
    assert list[..i + 1][..i] == list[..i];
    assert list[..i + 1] == list[..i] + [list[i]];
  }

  lemma Regrouped(a: seq<nat>, x: nat, b: seq<nat>)
    ensures (a + [x]) + b == a + ([x] + b)
  {
  }

  lemma OkOf(clients: map<nat, Client>, c: nat)
    requires AllOk(clients) && c in clients
    ensures clients[c].Ok()
  {
  }

  lemma ElementsNone<T>(s: seq<T>)
    ensures Elements(s[..0]) == {}
  {
  }

  lemma Overwritten(m: map<nat, Client>, c: nat, a: Client, b: Client)
    ensures var n: map<nat, Client> := m[c := a]; n[c := b] == m[c := b]
  {
  }

  lemma Overwrite(m: map<nat, bool>, c: nat, a: bool, b: bool)
    ensures var n: map<nat, bool> := m[c := a]; n[c := b] == m[c := b]
  {
  }

  lemma KeysOfDomain(clients: map<nat, Client>)
    ensures forall c :: c in KeysOf(clients) <==> c in clients
    ensures forall c :: c in clients ==> KeysOf(clients)[c] == clients[c].keys
  {
  }
}
