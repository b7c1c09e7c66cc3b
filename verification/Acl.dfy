/** ACL command permissions: a bitmap and first-argument lists changed in place, next to the list of
    kept rules from which the same permissions must be rebuilt at any time. */
module Acl {
  import opened Collections

  /** USER_COMMAND_BITS_COUNT; the last bit is reserved for "future commands". */
  const BITS: nat := 1024
  const RESERVED: nat := 1023

  // ---------------------------------------------------------------- command table

  datatype Subcommand = Subcommand(name: string, id: nat, cats: set<string>)

  datatype Command = Command(name: string, id: nat, cats: set<string>, subs: seq<Subcommand>)

  /** server.orig_commands, and the known category names. */
  datatype Table = Table(commands: seq<Command>, categories: set<string>)

  function FindCommand(cmds: seq<Command>, name: string): (r: Option<Command>)
    ensures r.Some? ==> r.value in cmds && r.value.name == name
    ensures r.None? ==> forall c :: c in cmds ==> c.name != name
  {
    if cmds == [] then None
    else if cmds[0].name == name then Some(cmds[0])
    else FindCommand(cmds[1..], name)
  }

  function FindSub(subs: seq<Subcommand>, name: string): (r: Option<Subcommand>)
    ensures r.Some? ==> r.value in subs && r.value.name == name
    ensures r.None? ==> forall c :: c in subs ==> c.name != name
  {
    if subs == [] then None
    else if subs[0].name == name then Some(subs[0])
    else FindSub(subs[1..], name)
  }

  function SubIds(subs: seq<Subcommand>): set<nat> {
    set i | 0 <= i < |subs| :: subs[i].id
  }

  /** What ACLGetCommandID guarantees: no command gets the reserved bit, and a subcommand's id is
      the id of no top-level command. */
  ghost predicate TableOk(t: Table) {
    && (forall c :: c in t.commands ==> c.id != RESERVED && RESERVED !in SubIds(c.subs))
    && (forall c, d :: c in t.commands && d in t.commands ==> d.id !in SubIds(c.subs))
    && (forall c, d :: c in t.commands && d in t.commands && c.id == d.id ==> c == d)
    && (forall c, d :: c in t.commands && d in t.commands && c.name == d.name ==> c == d)
    && (forall c :: c in t.commands ==> forall a, b :: a in c.subs && b in c.subs && a.name == b.name ==> a == b)
    && "all" !in t.categories
  }

  // ---------------------------------------------------------------- rules

  /** The text of a rule without its sign: "cmd", "cmd|arg" or "@category". */
  datatype Text = Cmd(name: string) | Pipe(name: string, arg: string) | Category(cat: string)

  datatype Rule = Rule(allow: bool, text: Text)

  /** The rules that adding `n` makes redundant: the same text, or an argument of the same command. */
  predicate Covers(n: Text, kept: Text) {
    n == kept || (n.Cmd? && kept.Pipe? && kept.name == n.name)
  }

  /** ACLSetSelector finds the command, subcommand or category. First arguments can only be allowed. */
  predicate Resolves(t: Table, r: Rule) {
    match r.text
    case Cmd(name) => FindCommand(t.commands, name).Some?
    case Pipe(name, arg) =>
      var c := FindCommand(t.commands, name);
      c.Some? && arg != "" && (if c.value.subs != [] then FindSub(c.value.subs, arg).Some? else r.allow)
    case Category(cat) => cat in t.categories
  }

  function Fitting(ids: set<nat>): set<nat> {
    set id | id in ids && id < BITS
  }

  /** Ids whose bit a category rule sets through one command: its own and its subcommands' when it
      is in the category, and those of its subcommands that are. */
  function CommandCategoryIds(c: Command, cat: string): set<nat> {
    (if cat in c.cats then {c.id} + SubIds(c.subs) else {})
        + (set i | 0 <= i < |c.subs| && cat in c.subs[i].cats :: c.subs[i].id)
  }

  function CommandCategoryResets(c: Command, cat: string): set<nat> {
    (if cat in c.cats then {c.id} else {}) + (set i | 0 <= i < |c.subs| && cat in c.subs[i].cats :: c.subs[i].id)
  }

  function CategoryIds(cmds: seq<Command>, cat: string): set<nat> {
    if cmds == [] then {} else CommandCategoryIds(cmds[0], cat) + CategoryIds(cmds[1..], cat)
  }

  function CategoryResets(cmds: seq<Command>, cat: string): set<nat> {
    if cmds == [] then {} else CommandCategoryResets(cmds[0], cat) + CategoryResets(cmds[1..], cat)
  }

  /** Command ids whose bit a rule sets or clears. */
  function Touched(t: Table, x: Text): set<nat> {
    match x
    case Cmd(name) =>
      var c := FindCommand(t.commands, name);
      if c.None? then {} else {c.value.id} + SubIds(c.value.subs)
    case Pipe(name, arg) =>
      var c := FindCommand(t.commands, name);
      if c.None? then {} else
        var s := FindSub(c.value.subs, arg);
        if s.None? then {} else {s.value.id}
    case Category(cat) => CategoryIds(t.commands, cat)
  }

  /** Command ids whose first-argument list a rule empties. */
  function Resets(t: Table, x: Text): set<nat> {
    match x
    case Cmd(name) =>
      var c := FindCommand(t.commands, name);
      if c.None? then {} else {c.value.id}
    case Pipe(_, _) => Touched(t, x)
    case Category(cat) => CategoryResets(t.commands, cat)
  }

  /** The id to whose first-argument list a rule adds its argument. */
  predicate AddsTo(t: Table, x: Text, id: nat) {
    x.Pipe? && var c := FindCommand(t.commands, x.name); c.Some? && c.value.subs == [] && id == c.value.id
  }

  // ---------------------------------------------------------------- replay

  function BitsBelow(n: nat): (r: set<nat>)
    ensures forall id: nat :: id in r <==> id < n
  {
    if n == 0 then {} else BitsBelow(n - 1) + {n - 1}
  }

  /** memset(allowed_commands, 255) */
  function AllBits(): set<nat> {
    BitsBelow(BITS)
  }

  function ApplyBits(t: Table, bits: set<nat>, r: Rule): set<nat> {
    if r.allow then bits + Fitting(Touched(t, r.text)) else bits - Fitting(Touched(t, r.text))
  }

  /** The bitmap after "+@all" or "-@all" and then the rules in order. */
  function BitsAfter(t: Table, all: bool, rules: seq<Rule>): set<nat> {
    if rules == [] then (if all then AllBits() else {})
    else ApplyBits(t, BitsAfter(t, all, rules[..|rules| - 1]), rules[|rules| - 1])
  }

  function ApplyArgs(t: Table, args: set<string>, x: Text, id: nat): set<string> {
    if AddsTo(t, x, id) then args + {x.arg}
    else if id in Resets(t, x) then {}
    else args
  }

  /** The first arguments allowed for command `id` after the rules in order. */
  function ArgsAfter(t: Table, rules: seq<Rule>, id: nat): set<string> {
    if rules == [] then {}
    else ApplyArgs(t, ArgsAfter(t, rules[..|rules| - 1], id), rules[|rules| - 1].text, id)
  }

  /** No rule touches the reserved bit. */
  lemma {:induction false} CategoryNotReserved(t: Table, n: nat, cat: string)
    requires TableOk(t) && n <= |t.commands|
    ensures RESERVED !in CategoryIds(t.commands[n..], cat)
    decreases |t.commands| - n
  {
    if n < |t.commands| {
      assert t.commands[n] in t.commands;
      var c := t.commands[n];
      assert t.commands[n..][0] == c && t.commands[n..][1..] == t.commands[n + 1..];
      forall i | 0 <= i < |c.subs| ensures c.subs[i].id != RESERVED {
        assert c.subs[i].id in SubIds(c.subs);
      }
      CategoryNotReserved(t, n + 1, cat);
    }
  }

  lemma NotReserved(t: Table, x: Text)
    requires TableOk(t)
    ensures RESERVED !in Touched(t, x)
  {
    match x
    case Cmd(_) =>
    case Pipe(name, arg) =>
      var c := FindCommand(t.commands, name);
      if c.Some? {
        var s := FindSub(c.value.subs, arg);
        if s.Some? {
          assert s.value.id in SubIds(c.value.subs);
        }
      }
    case Category(cat) =>
      CategoryNotReserved(t, 0, cat);
      assert t.commands[0..] == t.commands;
  }

  /** The reserved bit tells which of "+@all" and "-@all" the permissions started from. */
  lemma {:induction false} ReservedBit(t: Table, all: bool, rules: seq<Rule>)
    requires TableOk(t)
    ensures RESERVED in BitsAfter(t, all, rules) <==> all
  {
    if rules != [] {
      ReservedBit(t, all, rules[..|rules| - 1]);
      NotReserved(t, rules[|rules| - 1].text);
    }
  }

  // ---------------------------------------------------------------- what a rule asks for, in terms of the table

  ghost predicate HasSub(c: Command, id: nat) {
    exists i :: 0 <= i < |c.subs| && c.subs[i].id == id
  }

  /** The command or subcommand is one of the category, or a subcommand of a command of the category. */
  ghost predicate InCategory(c: Command, cat: string, id: nat) {
    || (cat in c.cats && (id == c.id || HasSub(c, id)))
    || exists i :: 0 <= i < |c.subs| && cat in c.subs[i].cats && c.subs[i].id == id
  }

  /** The rule is about the command or subcommand with this id. */
  ghost predicate Concerns(t: Table, x: Text, id: nat) {
    match x
    case Cmd(name) => exists c :: c in t.commands && c.name == name && (id == c.id || HasSub(c, id))
    case Pipe(name, arg) =>
      exists c :: c in t.commands && c.name == name &&
        exists i :: 0 <= i < |c.subs| && c.subs[i].name == arg && c.subs[i].id == id
    case Category(cat) => exists c :: c in t.commands && InCategory(c, cat, id)
  }

  /** The rule is about the first arguments of the command with this id. */
  ghost predicate AboutArguments(t: Table, x: Text, id: nat) {
    x.Pipe? && exists c :: c in t.commands && c.name == x.name && c.subs == [] && c.id == id
  }

  /** The rule makes first arguments of this command pointless. */
  ghost predicate Empties(t: Table, x: Text, id: nat) {
    match x
    case Cmd(name) => exists c :: c in t.commands && c.name == name && c.id == id
    case Pipe(_, _) => Concerns(t, x, id)
    case Category(cat) =>
      exists c :: c in t.commands && ((cat in c.cats && c.id == id) ||
        exists i :: 0 <= i < |c.subs| && cat in c.subs[i].cats && c.subs[i].id == id)
  }

  /** The rule names something that exists; first arguments can only be allowed. */
  ghost predicate Names(t: Table, r: Rule) {
    match r.text
    case Cmd(name) => exists c :: c in t.commands && c.name == name
    case Pipe(name, arg) =>
      && arg != ""
      && exists c :: c in t.commands && c.name == name &&
           if c.subs == [] then r.allow else exists i :: 0 <= i < |c.subs| && c.subs[i].name == arg
    case Category(cat) => cat in t.categories
  }

  lemma FindIs(t: Table, name: string, c: Command)
    requires TableOk(t) && c in t.commands && c.name == name
    ensures FindCommand(t.commands, name) == Some(c)
  {
  }

  lemma FindSubIs(t: Table, c: Command, i: nat)
    requires TableOk(t) && c in t.commands && i < |c.subs|
    ensures FindSub(c.subs, c.subs[i].name) == Some(c.subs[i])
  {
  }

  lemma {:induction false} CategoryIdsIs(cmds: seq<Command>, cat: string, id: nat)
    ensures id in CategoryIds(cmds, cat) <==> exists c :: c in cmds && InCategory(c, cat, id)
  {
    hide InCategory, CommandCategoryIds;
    if cmds != [] {
      CategoryIdsIs(cmds[1..], cat, id);
      CommandCategoryIs(cmds[0], cat, id);
      assert cmds == [cmds[0]] + cmds[1..];
    }
  }

  lemma CommandCategoryIs(c: Command, cat: string, id: nat)
    ensures id in CommandCategoryIds(c, cat) <==> InCategory(c, cat, id)
  {
  }

  lemma {:induction false} CategoryResetsIs(cmds: seq<Command>, cat: string, id: nat)
    ensures id in CategoryResets(cmds, cat) <==>
            exists c :: c in cmds && ((cat in c.cats && c.id == id) ||
              exists i :: 0 <= i < |c.subs| && cat in c.subs[i].cats && c.subs[i].id == id)
  {
    if cmds != [] {
      CategoryResetsIs(cmds[1..], cat, id);
      assert cmds == [cmds[0]] + cmds[1..];
    }
  }

  /** The ids whose bit a rule changes are exactly those it is about. */
  lemma TouchedIs(t: Table, x: Text, id: nat)
    requires TableOk(t)
    ensures id in Touched(t, x) <==> Concerns(t, x, id)
  {
    hide TableOk;
    match x
    case Cmd(name) =>
      forall c | c in t.commands && c.name == name ensures FindCommand(t.commands, name) == Some(c) {
        FindIs(t, name, c);
      }
    case Pipe(name, arg) =>
      forall c | c in t.commands && c.name == name ensures FindCommand(t.commands, name) == Some(c) {
        FindIs(t, name, c);
      }
      forall c, i | c in t.commands && 0 <= i < |c.subs| ensures FindSub(c.subs, c.subs[i].name) == Some(c.subs[i]) {
        FindSubIs(t, c, i);
      }
    case Category(cat) => CategoryIdsIs(t.commands, cat, id);
  }

  lemma ResetsIs(t: Table, x: Text, id: nat)
    requires TableOk(t)
    ensures id in Resets(t, x) <==> Empties(t, x, id)
    ensures AddsTo(t, x, id) <==> AboutArguments(t, x, id)
  {
    hide TableOk;
    TouchedIs(t, x, id);
    if x.Category? {
      CategoryResetsIs(t.commands, x.cat, id);
    } else {
      forall c | c in t.commands && c.name == x.name ensures FindCommand(t.commands, x.name) == Some(c) {
        FindIs(t, x.name, c);
      }
    }
  }

  lemma ResolvesIs(t: Table, r: Rule)
    requires TableOk(t)
    ensures Resolves(t, r) <==> Names(t, r)
  {
    hide TableOk;
    if !r.text.Category? {
      var name := r.text.name;
      forall c | c in t.commands && c.name == name ensures FindCommand(t.commands, name) == Some(c) {
        FindIs(t, name, c);
      }
      forall c, i | c in t.commands && 0 <= i < |c.subs| ensures FindSub(c.subs, c.subs[i].name) == Some(c.subs[i]) {
        FindSubIs(t, c, i);
      }
    }
  }

  // ---------------------------------------------------------------- dropping covered rules

  /** A covered rule touches no bit that the new rule does not set itself. */
  lemma CoveredTouchesLess(t: Table, n: Text, kept: Text)
    requires Covers(n, kept)
    ensures Touched(t, kept) <= Touched(t, n)
  {
    if n != kept {
      var c := FindCommand(t.commands, n.name);
      if c.Some? {
        var s := FindSub(c.value.subs, kept.arg);
        if s.Some? {
          var i :| 0 <= i < |c.value.subs| && c.value.subs[i] == s.value;
          assert c.value.subs[i].id in SubIds(c.value.subs);
        }
      }
    }
  }

  /** Subcommands never have first arguments. */
  lemma {:induction false} NoArgsForSubcommands(t: Table, rules: seq<Rule>, c: Command, id: nat)
    requires TableOk(t) && c in t.commands && id in SubIds(c.subs)
    ensures ArgsAfter(t, rules, id) == {}
  {
    if rules != [] {
      NoArgsForSubcommands(t, rules[..|rules| - 1], c, id);
      assert !AddsTo(t, rules[|rules| - 1].text, id);
    }
  }

  /** An argument added early is either emptied later or still there. */
  lemma {:induction false} ArgsMonotone(t: Table, a: seq<Rule>, b: seq<Rule>, more: seq<Rule>, id: nat, x: set<string>)
    requires ArgsAfter(t, b, id) <= ArgsAfter(t, a, id) <= ArgsAfter(t, b, id) + x
    ensures ArgsAfter(t, b + more, id) <= ArgsAfter(t, a + more, id) <= ArgsAfter(t, b + more, id) + x
    decreases |more|
  {
    if more == [] {
      assert a + more == a && b + more == b;
    } else {
      var n := |more| - 1;
      assert (a + more)[..|a + more| - 1] == a + more[..n] && (b + more)[..|b + more| - 1] == b + more[..n];
      ArgsMonotone(t, a, b, more[..n], id, x);
    }
  }

  /** Bits that two rule lists disagree on are among those they disagreed on before the common tail. */
  lemma {:induction false} BitsAgree(t: Table, all: bool, a: seq<Rule>, b: seq<Rule>, more: seq<Rule>, apart: set<nat>)
    requires forall id :: id !in apart ==> (id in BitsAfter(t, all, a) <==> id in BitsAfter(t, all, b))
    ensures forall id :: id !in apart ==> (id in BitsAfter(t, all, a + more) <==> id in BitsAfter(t, all, b + more))
    decreases |more|
  {
    hide Touched;
    if more == [] {
      assert a + more == a && b + more == b;
    } else {
      var n := |more| - 1;
      assert (a + more)[..|a + more| - 1] == a + more[..n] && (b + more)[..|b + more| - 1] == b + more[..n];
      BitsAgree(t, all, a, b, more[..n], apart);
    }
  }

  lemma BitsSnoc(t: Table, all: bool, a: seq<Rule>, r: Rule)
    ensures BitsAfter(t, all, a + [r]) == ApplyBits(t, BitsAfter(t, all, a), r)
  {
    assert (a + [r])[..|a|] == a;
  }

  lemma ArgsSnoc(t: Table, a: seq<Rule>, r: Rule, id: nat)
    ensures ArgsAfter(t, a + [r], id) == ApplyArgs(t, ArgsAfter(t, a, id), r.text, id)
  {
    assert (a + [r])[..|a|] == a;
  }

  lemma DropBits(t: Table, all: bool, a: seq<Rule>, r: Rule, b: seq<Rule>, n: Rule)
    requires Covers(n.text, r.text)
    ensures BitsAfter(t, all, a + [r] + b + [n]) == BitsAfter(t, all, a + b + [n])
  {
    hide Touched, BitsAfter;
    CoveredTouchesLess(t, n.text, r.text);
    BitsSnoc(t, all, a, r);
    BitsAgree(t, all, a + [r], a, b, Fitting(Touched(t, r.text)));
    BitsSnoc(t, all, a + [r] + b, n);
    BitsSnoc(t, all, a + b, n);
  }

  lemma DropArgs(t: Table, a: seq<Rule>, r: Rule, b: seq<Rule>, n: Rule, id: nat)
    requires TableOk(t) && Covers(n.text, r.text)
    ensures ArgsAfter(t, a + [r] + b + [n], id) == ArgsAfter(t, a + b + [n], id)
  {
    ArgsSnoc(t, a, r, id);
    ArgsSnoc(t, a + [r] + b, n, id);
    ArgsSnoc(t, a + b, n, id);
    if AddsTo(t, n.text, id) {
      hide ArgsAfter;
      ArgsMonotone(t, a + [r], a, b, id, {n.text.arg});
    } else if id !in Resets(t, n.text) {
      hide ArgsAfter;
      DroppedRuleIdle(t, a, r, n, id);
      ArgsMonotone(t, a + [r], a, b, id, {});
    }
  }

  lemma DroppedRuleIdle(t: Table, a: seq<Rule>, r: Rule, n: Rule, id: nat)
    requires TableOk(t) && Covers(n.text, r.text) && !AddsTo(t, n.text, id) && id !in Resets(t, n.text)
    ensures ApplyArgs(t, ArgsAfter(t, a, id), r.text, id) == ArgsAfter(t, a, id)
  {
    if n.text != r.text && id in Resets(t, r.text) {
      var c := FindCommand(t.commands, r.text.name).value;
      assert id in SubIds(c.subs);
      NoArgsForSubcommands(t, a, c, id);
    }
  }

  /** `kept` is `rules` without some (any) of the rules that `n` covers. */
  ghost predicate Pruned(rules: seq<Rule>, kept: seq<Rule>, n: Text) {
    if rules == [] then kept == []
    else
      || (kept != [] && kept[0] == rules[0] && Pruned(rules[1..], kept[1..], n))
      || (Covers(n, rules[0].text) && Pruned(rules[1..], kept, n))
  }

  /** Whichever covered rules are dropped, replay gives the same permissions once the new rule is added. */
  lemma {:induction false} PruneKeeps(t: Table, all: bool, a: seq<Rule>, rules: seq<Rule>, kept: seq<Rule>, n: Rule,
                                      id: nat)
    requires TableOk(t) && Pruned(rules, kept, n.text)
    ensures BitsAfter(t, all, a + rules + [n]) == BitsAfter(t, all, a + kept + [n])
    ensures ArgsAfter(t, a + rules + [n], id) == ArgsAfter(t, a + kept + [n], id)
    decreases |rules|
  {
    hide BitsAfter, ArgsAfter, TableOk;
    if rules != [] {
      var r, rest := rules[0], rules[1..];
      assert a + rules == a + [r] + rest;
      if kept != [] && kept[0] == r && Pruned(rest, kept[1..], n.text) {
        assert a + kept == a + [r] + kept[1..];
        PruneKeeps(t, all, a + [r], rest, kept[1..], n, id);
      } else {
        DropBits(t, all, a, r, rest, n);
        DropArgs(t, a, r, rest, n, id);
        PruneKeeps(t, all, a, rest, kept, n, id);
      }
    }
  }

  lemma ReplayAfterPrune(t: Table, all: bool, rules: seq<Rule>, kept: seq<Rule>, n: Rule)
    requires TableOk(t) && Pruned(rules, kept, n.text)
    ensures BitsAfter(t, all, kept + [n]) == BitsAfter(t, all, rules + [n])
    ensures forall id: nat :: ArgsAfter(t, kept + [n], id) == ArgsAfter(t, rules + [n], id)
  {
    hide *;
    assert [] + rules == rules && [] + kept == kept;
    forall id: nat ensures ArgsAfter(t, kept + [n], id) == ArgsAfter(t, rules + [n], id) {
      PruneKeeps(t, all, [], rules, kept, n, id);
    }
    PruneKeeps(t, all, [], rules, kept, n, 0);
  }

  // ---------------------------------------------------------------- command ids

  /** commandId and nextid: sequential ids that skip the reserved bit. */
  class CommandIds {
    var ids: map<string, nat>
    var next: nat

    ghost predicate Valid()
      reads this
    {
      && next != RESERVED
      && (forall n :: n in ids ==> ids[n] < next && ids[n] != RESERVED)
      && (forall m, n :: m in ids && n in ids && ids[m] == ids[n] ==> m == n)
    }

    constructor ()
      ensures Valid() && ids == map[]
    {
      ids, next := map[], 0;
    }

    /** ACLGetCommandID: the same id for the same name, a new one otherwise, never the reserved one. */
    method GetCommandID(name: string) returns (id: nat)
      requires Valid()
      modifies this
      ensures Valid() && name in ids && ids[name] == id && id != RESERVED
      ensures name in old(ids) ==> ids == old(ids)
      ensures name !in old(ids) ==> ids == old(ids)[name := id] && id !in old(ids).Values
    {
      if name in ids { return ids[name]; }
      id := next;
      ids := ids[name := next];
      next := next + 1;
      if next == BITS - 1 { next := next + 1; }
    }
  }
}
