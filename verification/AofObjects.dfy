/** Rewriting one aggregate value as commands: RPUSH, SADD, ZADD and HMSET in batches of at most
    AOF_REWRITE_ITEMS_PER_CMD items, with the argument count announced before the items. */
module AofObjects {
  import opened Bytes
  import opened Collections
  import opened Resp
  import AofFeed

  /** AOF_REWRITE_ITEMS_PER_CMD */
  const ITEMS_PER_CMD := 64

  const RPUSH: bytes := [82, 80, 85, 83, 72]
  const SADD: bytes := [83, 65, 68, 68]
  const ZADD: bytes := [90, 65, 68, 68]
  const HMSET: bytes := [72, 77, 83, 69, 84]

  // ---------------------------------------------------------------- what is emitted

  /** The arguments of consecutive items; an item is an element, a score and a member, or a field and a value. */
  function Flatten(items: seq<Argv>): Argv {
    if items == [] then [] else items[0] + Flatten(items[1..])
  }

  function BatchSize(n: nat): nat {
    if n > ITEMS_PER_CMD then ITEMS_PER_CMD else n
  }

  function Batch(name: bytes, key: bytes, items: seq<Argv>): Argv {
    [name, key] + Flatten(items)
  }

  function Commands(name: bytes, key: bytes, items: seq<Argv>): seq<Argv>
    decreases |items|
  {
    if items == [] then [] else
      var k := BatchSize(|items|);
      [Batch(name, key, items[..k])] + Commands(name, key, items[k..])
  }

  ghost predicate Items(items: seq<Argv>, width: nat) {
    forall i :: 0 <= i < |items| ==> |items[i]| == width
  }

  lemma {:induction false} FlattenConcat(a: seq<Argv>, b: seq<Argv>)
    ensures Flatten(a + b) == Flatten(a) + Flatten(b)
  {
    if a == [] {
      assert a + b == b;
    } else {
      assert (a + b)[1..] == a[1..] + b;
      FlattenConcat(a[1..], b);
    }
  }

  lemma {:induction false} FlattenLength(items: seq<Argv>, width: nat)
    requires Items(items, width)
    ensures |Flatten(items)| == |items| * width
  {
    if items != [] {
      FlattenLength(items[1..], width);
    }
  }

  lemma FlattenSnoc(items: seq<Argv>, from: nat, i: nat)
    requires from <= i < |items|
    ensures Bulks(Flatten(items[from..i + 1])) == Bulks(Flatten(items[from..i])) + Bulks(items[i])
  {
    hide Bulks;
    assert items[from..i + 1] == items[from..i] + [items[i]];
    FlattenConcat(items[from..i], [items[i]]);
    assert Flatten([items[i]]) == items[i] + Flatten([items[i]][1..]) == items[i];
    BulksConcat(Flatten(items[from..i]), items[i]);
  }

  /** A batch in the making: its header and the items emitted so far. */
  function Partial(name: bytes, key: bytes, count: nat, items: seq<Argv>): bytes {
    Header(2 + count) + Bulk(name) + Bulk(key) + Bulks(Flatten(items))
  }

  /** The announced count is exact: a finished batch is one well-formed command. */
  lemma PartialComplete(name: bytes, key: bytes, items: seq<Argv>, width: nat)
    requires Items(items, width)
    ensures Partial(name, key, |items| * width, items) == Encode(Batch(name, key, items))
  {
    hide Bulk, Header, Flatten;
    FlattenLength(items, width);
    BulksConcat([name, key], Flatten(items));
    assert [name, key][1..] == [key];
    assert [key][1..] == [name, key][2..];
    assert Bulks([name, key]) == Bulk(name) + Bulks([key]);
    assert Bulks([key]) == Bulk(key) + Bulks([name, key][2..]);
    assert Bulks([name, key]) == Bulk(name) + Bulk(key);
  }

  /** Whole batches first, then one more batch. */
  lemma {:induction false} CommandsSnoc(name: bytes, key: bytes, items: seq<Argv>, from: nat, to: nat)
    requires from % ITEMS_PER_CMD == 0 && from < to <= |items| && to - from <= ITEMS_PER_CMD
    ensures Commands(name, key, items[..to]) == Commands(name, key, items[..from]) + [Batch(name, key, items[from..to])]
    decreases from
  {
    hide Batch;
    var s := items[..to];
    if from == 0 {
      assert s[..|s|] == items[0..to];
      assert s[|s|..] == [];
    } else {
      var k := ITEMS_PER_CMD;
      assert s[..k] == items[..k] && items[..from][..k] == items[..k];
      assert s[k..] == items[k..][..to - k] && items[..from][k..] == items[k..][..from - k];
      CommandsSnoc(name, key, items[k..], from - k, to - k);
      assert items[k..][from - k..to - k] == items[from..to];
    }
  }

  /** Output after `i` items, `count` of them in the batch in the making. */
  ghost function Progress(name: bytes, key: bytes, items: seq<Argv>, width: nat, i: nat, count: nat): bytes
    requires count <= i <= |items|
  {
    var from := i - count;
    EncodeAll(Commands(name, key, items[..from])) +
    (if count == 0 then [] else Partial(name, key, BatchSize(|items| - from) * width, items[from..i]))
  }

  /** The loop shared by rewriteListObject, rewriteSetObject, rewriteSortedSetObject and
      rewriteHashObject; `width` bulk strings per item. */
  method RewriteItems(name: bytes, key: bytes, items: seq<Argv>, width: nat) returns (out: bytes)
    requires Items(items, width)
    ensures out == EncodeAll(Commands(name, key, items))
  {
    hide EncodeAll, Bulk, Header, Bulks, Commands, Progress;
    out := [];
    var count, left := 0, |items|;
    ProgressStart(name, key, items, width);
    for i := 0 to |items|
      invariant 0 <= count < ITEMS_PER_CMD && count <= i && (i - count) % ITEMS_PER_CMD == 0 && left == |items| - i
      invariant out == Progress(name, key, items, width, i, count)
    {
      ProgressStep(name, key, items, width, i, count);
      if count == 0 {
        var cmdItems := if left > ITEMS_PER_CMD then ITEMS_PER_CMD else left;
        out := out + (Header(2 + cmdItems * width) + Bulk(name) + Bulk(key));
      }
      out := out + Bulks(items[i]);
      count, left := count + 1, left - 1;
      if count == ITEMS_PER_CMD {
        ProgressBatch(name, key, items, width, i + 1);
        count := 0;
      }
    }
    ProgressEnd(name, key, items, width, count);
  }

  lemma ProgressStart(name: bytes, key: bytes, items: seq<Argv>, width: nat)
    ensures Progress(name, key, items, width, 0, 0) == []
  {
  }

  lemma ProgressStep(name: bytes, key: bytes, items: seq<Argv>, width: nat, i: nat, count: nat)
    requires count <= i < |items|
    ensures Progress(name, key, items, width, i + 1, count + 1)
         == Progress(name, key, items, width, i, count)
            + (if count == 0 then Header(2 + BatchSize(|items| - i) * width) + Bulk(name) + Bulk(key) else [])
            + Bulks(items[i])
  {
    hide EncodeAll, Bulk, Header, Bulks, Commands, Flatten, Partial;
    var from := i - count;
    var n := BatchSize(|items| - from) * width;
    FlattenSnoc(items, from, i);
    PartialSnoc(name, key, n, items, from, i);
    if count == 0 {
      PartialStart(name, key, n, items, i);
    }
  }

  lemma ProgressBatch(name: bytes, key: bytes, items: seq<Argv>, width: nat, i: nat)
    requires Items(items, width) && ITEMS_PER_CMD <= i <= |items| && (i - ITEMS_PER_CMD) % ITEMS_PER_CMD == 0
    ensures Progress(name, key, items, width, i, ITEMS_PER_CMD) == Progress(name, key, items, width, i, 0)
  {
    hide EncodeAll, Encode, Commands, Partial, Batch;
    FinishBatch(name, key, items, width, i - ITEMS_PER_CMD, i);
  }

  lemma ProgressEnd(name: bytes, key: bytes, items: seq<Argv>, width: nat, count: nat)
    requires Items(items, width) && count < ITEMS_PER_CMD && count <= |items| && (|items| - count) % ITEMS_PER_CMD == 0
    ensures Progress(name, key, items, width, |items|, count) == EncodeAll(Commands(name, key, items))
  {
    hide EncodeAll, Encode, Commands, Partial, Batch;
    assert items[..|items|] == items;
    if count > 0 {
      FinishBatch(name, key, items, width, |items| - count, |items|);
    }
  }

  lemma PartialStart(name: bytes, key: bytes, n: nat, items: seq<Argv>, i: nat)
    requires i <= |items|
    ensures Partial(name, key, n, items[i..i]) == Header(2 + n) + Bulk(name) + Bulk(key)
  {
    hide Bulk, Header;
    assert items[i..i] == [];
    assert Bulks(Flatten([])) == [];
  }

  lemma PartialSnoc(name: bytes, key: bytes, n: nat, items: seq<Argv>, from: nat, i: nat)
    requires from <= i < |items|
    requires Bulks(Flatten(items[from..i + 1])) == Bulks(Flatten(items[from..i])) + Bulks(items[i])
    ensures Partial(name, key, n, items[from..i + 1]) == Partial(name, key, n, items[from..i]) + Bulks(items[i])
  {
    hide Bulk, Header, Bulks, Flatten;
  }

  lemma FinishBatch(name: bytes, key: bytes, items: seq<Argv>, width: nat, from: nat, to: nat)
    requires Items(items, width) && from % ITEMS_PER_CMD == 0 && from < to <= |items|
    requires to - from == BatchSize(|items| - from)
    ensures Partial(name, key, BatchSize(|items| - from) * width, items[from..to])
              == Encode(Batch(name, key, items[from..to]))
    ensures EncodeAll(Commands(name, key, items[..to]))
         == EncodeAll(Commands(name, key, items[..from])) + Encode(Batch(name, key, items[from..to]))
  {
    hide Encode, Batch, Commands, Partial;
    PartialComplete(name, key, items[from..to], width);
    CommandsSnoc(name, key, items, from, to);
    AofFeed.EncodeAllSnoc(Commands(name, key, items[..from]), Batch(name, key, items[from..to]));
  }

  // ---------------------------------------------------------------- well-formed and bounded

  ghost predicate Fits(b: bytes) {
    |b| < 0x8000_0000_0000_0000
  }

  ghost predicate ItemsFit(items: seq<Argv>) {
    forall i :: 0 <= i < |items| ==> forall j :: 0 <= j < |items[i]| ==> Fits(items[i][j])
  }

  lemma {:induction false} FlattenFits(items: seq<Argv>)
    requires ItemsFit(items)
    ensures forall i :: 0 <= i < |Flatten(items)| ==> Fits(Flatten(items)[i])
  {
    if items != [] {
      hide Fits;
      assert ItemsFit(items[1..]);
      FlattenFits(items[1..]);
    }
  }

  /** Every emitted command is well formed and carries at most ITEMS_PER_CMD items. */
  lemma {:induction false} CommandsBounded(name: bytes, key: bytes, items: seq<Argv>, width: nat)
    requires Items(items, width) && width <= 2 && ItemsFit(items) && Fits(name) && Fits(key)
    ensures forall c :: c in Commands(name, key, items) ==> WellFormed(c) && |c| <= 2 + ITEMS_PER_CMD * width
    decreases |items|
  {
    if items != [] {
      var k := BatchSize(|items|);
      var b := items[..k];
      FlattenLength(b, width);
      assert |Flatten(b)| <= ITEMS_PER_CMD * width;
      assert ItemsFit(b) && ItemsFit(items[k..]);
      FlattenFits(b);
      CommandsBounded(name, key, items[k..], width);
    }
  }

  lemma ReadAllOfCommands(name: bytes, key: bytes, items: seq<Argv>, width: nat)
    requires Items(items, width) && width <= 2 && ItemsFit(items) && Fits(name) && Fits(key)
    ensures AofFeed.ReadAll(EncodeAll(Commands(name, key, items))) == Commands(name, key, items)
  {
    hide *;
    CommandsBounded(name, key, items, width);
    AofFeed.ReadAllOfEncoded(Commands(name, key, items));
  }

  // ---------------------------------------------------------------- replay

  /** Aggregate values; sorted-set scores stand for their printed form. */
  datatype Value =
    | List(elems: seq<bytes>)
    | Set(members: set<bytes>)
    | SortedSet(scores: map<bytes, bytes>)
    | Hash(fields: map<bytes, bytes>)

  type Db = map<bytes, Value>

  function PutPairs(m: map<bytes, bytes>, args: Argv, valueFirst: bool): map<bytes, bytes>
    decreases |args|
  {
    if |args| < 2 then m
    else PutPairs(if valueFirst then m[args[1] := args[0]] else m[args[0] := args[1]], args[2..], valueFirst)
  }

  /** RPUSH, SADD, ZADD and HMSET; None when the key holds another type or the command is malformed. */
  function Exec(db: Db, argv: Argv): Option<Db> {
    if |argv| < 3 then None else
      var key, args := argv[1], argv[2..];
      if argv[0] == RPUSH then
        if key !in db then Some(db[key := List(args)])
        else if db[key].List? then Some(db[key := List(db[key].elems + args)]) else None
      else if argv[0] == SADD then
        if key !in db then Some(db[key := Set(Elements(args))])
        else if db[key].Set? then Some(db[key := Set(db[key].members + Elements(args))]) else None
      else if argv[0] == ZADD && |args| % 2 == 0 then
        if key !in db then Some(db[key := SortedSet(PutPairs(map[], args, true))])
        else if db[key].SortedSet? then Some(db[key := SortedSet(PutPairs(db[key].scores, args, true))]) else None
      else if argv[0] == HMSET && |args| % 2 == 0 then
        if key !in db then Some(db[key := Hash(PutPairs(map[], args, false))])
        else if db[key].Hash? then Some(db[key := Hash(PutPairs(db[key].fields, args, false))]) else None
      else None
  }

  function ExecAll(db: Db, cmds: seq<Argv>): Option<Db>
    decreases cmds
  {
    if cmds == [] then Some(db) else
      var r := Exec(db, cmds[0]);
      if r.None? then None else ExecAll(r.value, cmds[1..])
  }

  /** One kind of rewritten value: which command, how many arguments per item, and what the
      arguments received so far amount to. */
  datatype Shape = Shape(name: bytes, width: nat)

  predicate ShapeOk(s: Shape) {
    s in {Shape(RPUSH, 1), Shape(SADD, 1), Shape(ZADD, 2), Shape(HMSET, 2)}
  }

  function Built(s: Shape, args: Argv): Value
    requires ShapeOk(s)
  {
    if s.name == RPUSH then List(args)
    else if s.name == SADD then Set(Elements(args))
    else if s.name == ZADD then SortedSet(PutPairs(map[], args, true))
    else Hash(PutPairs(map[], args, false))
  }

  lemma {:induction false} PutPairsConcat(m: map<bytes, bytes>, a: Argv, b: Argv, valueFirst: bool)
    requires |a| % 2 == 0
    ensures PutPairs(m, a + b, valueFirst) == PutPairs(PutPairs(m, a, valueFirst), b, valueFirst)
    decreases |a|
  {
    if a == [] {
      assert a + b == b;
    } else {
      assert (a + b)[2..] == a[2..] + b;
      PutPairsConcat(if valueFirst then m[a[1] := a[0]] else m[a[0] := a[1]], a[2..], b, valueFirst);
    }
  }

  lemma ElementsConcat(a: Argv, b: Argv)
    ensures Elements(a + b) == Elements(a) + Elements(b)
  {
    forall x | x in Elements(b) ensures x in Elements(a + b) {
      var i :| 0 <= i < |b| && b[i] == x;
      assert (a + b)[|a| + i] == x;
    }
    forall x | x in Elements(a) ensures x in Elements(a + b) {
      var i :| 0 <= i < |a| && a[i] == x;
      assert (a + b)[i] == x;
    }
  }

  /** One batch extends what was built, or starts it. */
  lemma ExecBatch(s: Shape, db: Db, key: bytes, acc: Argv, args: Argv)
    requires ShapeOk(s) && args != [] && |acc| % s.width == 0 && |args| % s.width == 0
    ensures Exec(db[key := Built(s, acc)], [s.name, key] + args) == Some(db[key := Built(s, acc + args)])
    ensures key !in db ==> Exec(db, [s.name, key] + args) == Some(db[key := Built(s, args)])
  {
    var argv := [s.name, key] + args;
    assert argv[2..] == args;
    var before, after := db[key := Built(s, acc)], db[key := Built(s, acc + args)];
    assert before[key := Built(s, acc + args)] == after;
    if s.name == SADD {
      ElementsConcat(acc, args);
    } else if s.name == ZADD {
      PutPairsConcat(map[], acc, args, true);
    } else if s.name == HMSET {
      PutPairsConcat(map[], acc, args, false);
    }
  }

  /** Replaying the remaining batches extends the value built from the earlier ones. */
  lemma {:induction false} ExecMore(s: Shape, db: Db, key: bytes, acc: Argv, items: seq<Argv>)
    requires ShapeOk(s) && Items(items, s.width) && |acc| % s.width == 0
    ensures ExecAll(db[key := Built(s, acc)], Commands(s.name, key, items))
              == Some(db[key := Built(s, acc + Flatten(items))])
    decreases |items|
  {
    hide Exec, Built, Flatten;
    if items == [] {
      FlattenNone(acc, items);
    } else {
      var k := BatchSize(|items|);
      var args := Flatten(items[..k]);
      BatchArgs(items, k, s.width);
      ExecBatch(s, db, key, acc, args);
      ExecMore(s, db, key, acc + args, items[k..]);
      CommandsFirst(s.name, key, items);
      assert acc + args + Flatten(items[k..]) == acc + Flatten(items);
    }
  }

  lemma FlattenNone(acc: Argv, items: seq<Argv>)
    requires items == []
    ensures acc + Flatten(items) == acc
  {
  }

  lemma CommandsFirst(name: bytes, key: bytes, items: seq<Argv>)
    requires items != []
    ensures var k := BatchSize(|items|);
            && Commands(name, key, items) != []
            && Commands(name, key, items)[0] == [name, key] + Flatten(items[..k])
            && Commands(name, key, items)[1..] == Commands(name, key, items[k..])
  {
  }

  lemma BatchArgs(items: seq<Argv>, k: nat, width: nat)
    requires Items(items, width) && 0 < k <= |items| && 1 <= width <= 2
    ensures Flatten(items) == Flatten(items[..k]) + Flatten(items[k..])
    ensures Flatten(items[..k]) != [] && |Flatten(items[..k])| % width == 0
  {
    hide Flatten;
    FlattenConcat(items[..k], items[k..]);
    assert items[..k] + items[k..] == items;
    FlattenLength(items[..k], width);
    if width == 1 {
      assert |Flatten(items[..k])| == k;
    } else {
      assert |Flatten(items[..k])| == k * 2;
    }
  }

  /** Replay of a whole rewritten value into a database without the key. */
  lemma ExecCommands(s: Shape, db: Db, key: bytes, items: seq<Argv>)
    requires ShapeOk(s) && Items(items, s.width) && items != [] && key !in db
    ensures ExecAll(db, Commands(s.name, key, items)) == Some(db[key := Built(s, Flatten(items))])
  {
    hide Exec, Built, Flatten, Commands;
    var k := BatchSize(|items|);
    var args := Flatten(items[..k]);
    BatchArgs(items, k, s.width);
    assert 0 % s.width == 0;
    ExecBatch(s, db, key, [], args);
    CommandsFirst(s.name, key, items);
    ExecMore(s, db, key, args, items[k..]);
  }

  // ---------------------------------------------------------------- the four object types

  /** The bytes read back and replayed into any database without the key add exactly this value. */
  ghost predicate Rebuilds(out: bytes, key: bytes, v: Value) {
    forall db: Db :: key !in db ==> ExecAll(db, AofFeed.ReadAll(out)) == Some(db[key := v])
  }

  /** Each element as an item of its own. */
  function Singles(elems: seq<bytes>): (r: seq<Argv>)
    ensures |r| == |elems| && forall i :: 0 <= i < |r| ==> r[i] == [elems[i]]
  {
    seq(|elems|, i requires 0 <= i < |elems| => [elems[i]])
  }

  lemma {:induction false} FlattenSingles(elems: seq<bytes>)
    ensures Flatten(Singles(elems)) == elems
  {
    if elems != [] {
      assert Singles(elems)[1..] == Singles(elems[1..]);
      FlattenSingles(elems[1..]);
      assert [elems[0]] + elems[1..] == elems;
    }
  }

  lemma RewrittenRebuilds(s: Shape, key: bytes, items: seq<Argv>, out: bytes)
    requires ShapeOk(s) && Items(items, s.width) && items != [] && ItemsFit(items) && Fits(key)
    requires out == EncodeAll(Commands(s.name, key, items))
    ensures Rebuilds(out, key, Built(s, Flatten(items)))
  {
    hide Commands, EncodeAll, Flatten, Built, ExecAll, AofFeed.ReadAll;
    ReadAllOfCommands(s.name, key, items, s.width);
    forall db: Db | key !in db
      ensures ExecAll(db, AofFeed.ReadAll(out)) == Some(db[key := Built(s, Flatten(items))])
    {
      ExecCommands(s, db, key, items);
    }
  }

  lemma NoCommands(name: bytes, key: bytes)
    ensures EncodeAll(Commands(name, key, [])) == []
  {
  }

  /** rewriteListObject */
  method RewriteListObject(key: bytes, elems: seq<bytes>) returns (out: bytes)
    requires Fits(key) && forall i :: 0 <= i < |elems| ==> Fits(elems[i])
    ensures elems != [] ==> Rebuilds(out, key, List(elems))
    ensures elems == [] ==> out == []
  {
    hide Commands, EncodeAll, Flatten, Rebuilds, Fits;
    var items := Singles(elems);
    out := RewriteItems(RPUSH, key, items, 1);
    if elems == [] {
      NoCommands(RPUSH, key);
    } else {
      RewrittenRebuilds(Shape(RPUSH, 1), key, items, out);
      FlattenSingles(elems);
    }
  }

  /** rewriteSetObject, with the members in any iteration order. */
  method RewriteSetObject(key: bytes, order: seq<bytes>) returns (out: bytes)
    requires Fits(key) && forall i :: 0 <= i < |order| ==> Fits(order[i])
    ensures order != [] ==> Rebuilds(out, key, Set(Elements(order)))
    ensures order == [] ==> out == []
  {
    hide Commands, EncodeAll, Flatten, Rebuilds, Fits;
    var items := Singles(order);
    out := RewriteItems(SADD, key, items, 1);
    if order == [] {
      NoCommands(SADD, key);
    } else {
      RewrittenRebuilds(Shape(SADD, 1), key, items, out);
      FlattenSingles(order);
    }
  }

  /** `items` lists every entry of `m` once: value then key when `valueFirst`, else key then value. */
  ghost predicate Enumerates(items: seq<Argv>, m: map<bytes, bytes>, valueFirst: bool) {
    var k := if valueFirst then 1 else 0;
    && Items(items, 2)
    && (forall i :: 0 <= i < |items| ==> items[i][k] in m && m[items[i][k]] == items[i][1 - k])
    && (forall i, j :: 0 <= i < j < |items| ==> items[i][k] != items[j][k])
    && (forall x :: x in m ==> exists i :: 0 <= i < |items| && items[i][k] == x)
  }

  /** Entry by entry, the pairs of an enumeration rebuild the map. */
  lemma {:induction false} PutEnumerated(items: seq<Argv>, n: nat, m: map<bytes, bytes>, valueFirst: bool)
    requires Enumerates(items, m, valueFirst) && n <= |items|
    ensures var k := if valueFirst then 1 else 0;
            var r := PutPairs(map[], Flatten(items[..n]), valueFirst);
            && (forall x :: x in r <==> exists i :: 0 <= i < n && items[i][k] == x)
            && (forall x :: x in r ==> x in m && r[x] == m[x])
  {
    if n > 0 {
      var k := if valueFirst then 1 else 0;
      PutEnumerated(items, n - 1, m, valueFirst);
      FlattenPairs(items, n - 1);
      var before := Flatten(items[..n - 1]);
      var x := items[n - 1];
      PutPairsConcat(map[], before, x, valueFirst);
      var r := PutPairs(map[], before, valueFirst);
      assert PutPairs(r, x, valueFirst) == if valueFirst then r[x[1] := x[0]] else r[x[0] := x[1]] by {
        assert |x[2..]| == 0;
      }
    }
  }

  lemma FlattenPairs(items: seq<Argv>, n: nat)
    requires Items(items, 2) && n < |items|
    ensures |Flatten(items[..n])| % 2 == 0
    ensures Flatten(items[..n + 1]) == Flatten(items[..n]) + items[n]
  {
    FlattenLength(items[..n], 2);
    assert items[..n + 1] == items[..n] + [items[n]];
    FlattenConcat(items[..n], [items[n]]);
    assert Flatten([items[n]]) == items[n] + Flatten([items[n]][1..]) == items[n];
  }

  lemma EnumeratedMap(items: seq<Argv>, m: map<bytes, bytes>, valueFirst: bool)
    requires Enumerates(items, m, valueFirst)
    ensures PutPairs(map[], Flatten(items), valueFirst) == m
  {
    hide PutPairs, Flatten;
    PutEnumerated(items, |items|, m, valueFirst);
    assert items[..|items|] == items;
  }

  /** rewriteSortedSetObject, with score and member per entry, in any iteration order. */
  method RewriteSortedSetObject(key: bytes, order: seq<Argv>, ghost scores: map<bytes, bytes>) returns (out: bytes)
    requires order != [] && Fits(key) && ItemsFit(order) && Enumerates(order, scores, true)
    ensures Rebuilds(out, key, SortedSet(scores))
  {
    hide Commands, EncodeAll, Flatten, Rebuilds, PutPairs;
    out := RewriteItems(ZADD, key, order, 2);
    RewrittenRebuilds(Shape(ZADD, 2), key, order, out);
    EnumeratedMap(order, scores, true);
  }

  /** rewriteHashObject, with field and value per entry, in any iteration order. */
  method RewriteHashObject(key: bytes, order: seq<Argv>, ghost fields: map<bytes, bytes>) returns (out: bytes)
    requires Fits(key) && ItemsFit(order) && Enumerates(order, fields, false)
    ensures order != [] ==> Rebuilds(out, key, Hash(fields))
    ensures order == [] ==> out == []
  {
    hide Commands, EncodeAll, Flatten, Rebuilds, PutPairs;
    out := RewriteItems(HMSET, key, order, 2);
    if order == [] {
      NoCommands(HMSET, key);
    } else {
      RewrittenRebuilds(Shape(HMSET, 2), key, order, out);
      EnumeratedMap(order, fields, false);
    }
  }
}
