/** An ACL selector's command permissions, changed in place one operation at a time. */
module AclSelector {
  import opened Collections
  import opened Acl
  import opened AclText
  import opened AclHistory
  import AclScan

  function SetBits(bits: set<nat>, ids: set<nat>, allow: bool): set<nat> {
    if allow then bits + Fitting(ids) else bits - Fitting(ids)
  }

  /** The first arguments listed for a command; the executor compares them without case. */
  function ArgSet(firstArgs: map<nat, seq<string>>, id: nat): set<string> {
    if id in firstArgs then set i | 0 <= i < |firstArgs[id]| :: Lower(firstArgs[id][i]) else {}
  }

  /** The operation comes as a C string. */
  predicate NoNul(op: Op) {
    op.Set? ==> AclScan.NUL !in TextOf(op.rule.text)
  }

  predicate AllNoNul(ops: seq<Op>) {
    forall i :: 0 <= i < |ops| ==> NoNul(ops[i])
  }

  /** Exactly the commands and subcommands the rule is about are allowed, or not, as it says. */
  ghost predicate BitsAsked(t: Table, r: Rule, before: set<nat>, after: set<nat>) {
    forall id: nat :: id in after <==> if id < BITS && Concerns(t, r.text, id) then r.allow else id in before
  }

  /** The rule takes nothing away. */
  ghost predicate KeepsAll(t: Table, r: Rule) {
    r.allow || forall id: nat :: id < BITS ==> !Concerns(t, r.text, id)
  }

  ghost predicate ArgsAsked(t: Table, x: Text, before: map<nat, seq<string>>, after: map<nat, seq<string>>) {
    forall id: nat :: ArgSet(after, id) ==
                      if AboutArguments(t, x, id) then ArgSet(before, id) + {x.arg}
                      else if Empties(t, x, id) then {} else ArgSet(before, id)
  }

  class Selector {
    const table: Table
    var allowed: set<nat>
    var allCommands: bool
    var firstArgs: map<nat, seq<string>>
    var commandRules: string
    ghost var history: seq<Op>

    /** Every field is what the operations so far make it. */
    ghost predicate Valid()
      reads this
    {
      && TableOk(table) && AclScan.NUL !in commandRules
      && allowed == BitsOfHistory(table, history)
      && allCommands == FlagOfHistory(table, history)
      && commandRules == TextOfHistory(table, history)
      && (forall id: nat :: ArgSet(firstArgs, id) == ArgsOfHistory(table, history, id))
    }

    /** ACLCreateSelector */
    constructor (table: Table)
      requires TableOk(table)
      ensures Valid() && this.table == table && history == []
    {
      this.table := table;
      allowed, allCommands, firstArgs, commandRules, history := {}, false, map[], "", [];
    }

    /** ACLSetSelectorCommandBit; an id beyond the bitmap is ignored. */
    method SetCommandBit(id: nat, value: bool)
      modifies this`allowed, this`allCommands
      ensures allowed == SetBits(old(allowed), {id}, value)
      ensures allCommands == FlagAfter(old(allCommands), {id}, value)
    {
      assert id < BITS ==> id in Fitting({id});
      if id >= BITS { return; }
      if value {
        allowed := allowed + {id};
      } else {
        allowed := allowed - {id};
        allCommands := false;
      }
    }

    /** ACLAddAllowedFirstArg: nothing happens when the argument is already listed, in any case. */
    method AddAllowedFirstArg(id: nat, arg: string)
      modifies this`firstArgs
      ensures var list := if id in old(firstArgs) then old(firstArgs)[id] else [];
              firstArgs == if Lower(arg) in ArgSet(old(firstArgs), id) then old(firstArgs)
                  else old(firstArgs)[id := list + [arg]]
    {
      var list := if id in firstArgs then firstArgs[id] else [];
      var items := 0;
      while items < |list|
        invariant 0 <= items <= |list|
        invariant forall i :: 0 <= i < items ==> Lower(list[i]) != Lower(arg)
      {
        if Lower(list[items]) == Lower(arg) {
          return;
        }
        items := items + 1;
      }
      firstArgs := firstArgs[id := list + [arg]];
    }

    /** ACLChangeSelectorPerm: the command's bit and those of its subcommands. */
    method ChangeSelectorPerm(id: nat, subs: seq<Subcommand>, allow: bool)
      modifies this`allowed, this`allCommands, this`firstArgs
      ensures allowed == SetBits(old(allowed), {id} + SubIds(subs), allow)
      ensures allCommands == FlagAfter(old(allCommands), {id} + SubIds(subs), allow)
      ensures firstArgs == old(firstArgs) - {id}
    {
      hide SetBits, FlagAfter;
      SetCommandBit(id, allow);
      firstArgs := firstArgs - {id};
      NoSubIds(id);
      for i := 0 to |subs|
        invariant allowed == SetBits(old(allowed), {id} + SubIds(subs[..i]), allow)
        invariant allCommands == FlagAfter(old(allCommands), {id} + SubIds(subs[..i]), allow)
        invariant firstArgs == old(firstArgs) - {id}
      {
        SetBitsTwice(old(allowed), old(allCommands), {id} + SubIds(subs[..i]), {subs[i].id}, allow);
        SetCommandBit(subs[i].id, allow);
        SubIdsSnoc(subs, i);
        assert {id} + SubIds(subs[..i + 1]) == {id} + SubIds(subs[..i]) + {subs[i].id};
      }
      assert subs[..|subs|] == subs;
    }

    /** ACLSetSelectorCommandBitsForCategory over the whole table. */
    method SetBitsForCategory(cat: string, allow: bool)
      modifies this`allowed, this`allCommands, this`firstArgs
      ensures allowed == SetBits(old(allowed), CategoryIds(table.commands, cat), allow)
      ensures allCommands == FlagAfter(old(allCommands), CategoryIds(table.commands, cat), allow)
      ensures firstArgs == old(firstArgs) - CategoryResets(table.commands, cat)
    {
      hide SetBits, FlagAfter, CategoryIds, CategoryResets, CommandCategoryIds, CommandCategoryResets;
      var cmds := table.commands;
      CategoryNone(allowed, allCommands, cmds, cat, allow);
      for n := 0 to |cmds|
        invariant allowed == SetBits(old(allowed), CategoryIds(cmds[..n], cat), allow)
        invariant allCommands == FlagAfter(old(allCommands), CategoryIds(cmds[..n], cat), allow)
        invariant firstArgs == old(firstArgs) - CategoryResets(cmds[..n], cat)
      {
        SetBitsTwice(old(allowed), old(allCommands), CategoryIds(cmds[..n], cat), CommandCategoryIds(cmds[n], cat),
            allow);
        RemoveTwice(old(firstArgs), CategoryResets(cmds[..n], cat), CommandCategoryResets(cmds[n], cat));
        CategorySnoc(cmds, n, cat);
        SetBitsOfCommand(cmds[n], cat, allow);
      }
      assert cmds[..|cmds|] == cmds;
    }

    method SetBitsOfCommand(c: Command, cat: string, allow: bool)
      modifies this`allowed, this`allCommands, this`firstArgs
      ensures allowed == SetBits(old(allowed), CommandCategoryIds(c, cat), allow)
      ensures allCommands == FlagAfter(old(allCommands), CommandCategoryIds(c, cat), allow)
      ensures firstArgs == old(firstArgs) - CommandCategoryResets(c, cat)
    {
      hide SetBits, FlagAfter, SubIds;
      SetNoBits(allowed, allCommands, allow);
      if cat in c.cats {
        ChangeSelectorPerm(c.id, c.subs, allow);
      }
      assert IdsUpTo(c, cat, 0) == if cat in c.cats then {c.id} + SubIds(c.subs) else {};
      for i := 0 to |c.subs|
        invariant allowed == SetBits(old(allowed), IdsUpTo(c, cat, i), allow)
        invariant allCommands == FlagAfter(old(allCommands), IdsUpTo(c, cat, i), allow)
        invariant firstArgs == old(firstArgs) - ResetsUpTo(c, cat, i)
      {
        if cat in c.subs[i].cats {
          SetBitsTwice(old(allowed), old(allCommands), IdsUpTo(c, cat, i), {c.subs[i].id}, allow);
          RemoveTwice(old(firstArgs), ResetsUpTo(c, cat, i), {c.subs[i].id});
          NoSubIds(c.subs[i].id);
          ChangeSelectorPerm(c.subs[i].id, [], allow);
        }
        UpToStep(c, cat, i);
      }
    }

    /** The part of ACLSetSelector that changes bits and first arguments. */
    method ApplyRule(r: Rule)
      requires Resolves(table, LowRule(r))
      modifies this`allowed, this`allCommands, this`firstArgs
      ensures allowed == ApplyBits(table, old(allowed), LowRule(r))
      ensures allCommands == FlagAfter(old(allCommands), Touched(table, LowText(r.text)), r.allow)
      ensures forall id: nat :: ArgSet(firstArgs, id)
                == ApplyArgs(table, ArgSet(old(firstArgs), id), LowText(r.text), id)
    {
      hide Lower;
      SetNoBits(allowed, allCommands, r.allow);
      match r.text {
        case Cmd(name) =>
          var c := FindCommand(table.commands, Lower(name)).value;
          ChangeSelectorPerm(c.id, c.subs, r.allow);
        case Pipe(name, arg) =>
          var c := FindCommand(table.commands, Lower(name)).value;
          if c.subs != [] {
            var sub := FindSub(c.subs, Lower(arg)).value;
            NoSubIds(sub.id);
            ChangeSelectorPerm(sub.id, [], r.allow);
          } else {
            NoneTouched(table, r.text, c);
            AddAllowedFirstArg(c.id, arg);
            ArgAdded(old(firstArgs), firstArgs, c.id, arg);
          }
        case Category(cat) =>
          SetBitsForCategory(Lower(cat), r.allow);
      }
    }

    /** ACLUpdateCommandRules: the scan in place, then the new rule at the end. */
    method UpdateCommandRules(r: Rule)
      requires AclScan.NUL !in commandRules && AclScan.NUL !in TextOf(r.text)
      modifies this`commandRules
      ensures commandRules == Updated(old(commandRules), r) && AclScan.NUL !in commandRules
    {
      hide ScanAt;
      var text := commandRules + [AclScan.NUL];
      var buf := new char[|text|](i requires 0 <= i < |text| => text[i]);
      assert buf[..] == text;
      Terminates(commandRules);
      AclScan.RemoveCommandRule(buf, TextOf(r.text));
      var len := AclScan.Length(buf, 0);
      commandRules := buf[..len];
      assert buf[..len] == AclScan.CStr(buf[..]);
      if |commandRules| > 0 { commandRules := commandRules + " "; }
      commandRules := commandRules + Show(r);
    }

    /** The operations of ACLSetSelector about commands; a refused one changes nothing. */
    method SetSelector(op: Op) returns (ok: bool)
      requires Valid() && NoNul(op)
      modifies this
      ensures Valid() && history == old(history) + [op]
      ensures ok == Accepts(table, op) == (op.Set? ==> Names(table, LowRule(op.rule)))
      ensures op.All? ==>
                && (forall id: nat :: id in allowed <==> op.allow && id < BITS) && allCommands == op.allow
                && commandRules == "" && forall id: nat :: ArgSet(firstArgs, id) == {}
      ensures ok && op.Set? ==>
                && BitsAsked(table, LowRule(op.rule), old(allowed), allowed)
                && ArgsAsked(table, LowText(op.rule.text), old(firstArgs), firstArgs)
                && (allCommands <==> old(allCommands) && KeepsAll(table, LowRule(op.rule)))
      ensures !ok ==>
                allowed == old(allowed) && firstArgs == old(firstArgs) && commandRules == old(commandRules)
                    && allCommands == old(allCommands)
    {
      hide TableOk, Resolves, ApplyArgs, ApplyBits, FlagAfter, LowRule, LowText, Updated, BitsOfHistory, TextOfHistory,
        FlagOfHistory, ArgsOfHistory, Touched, Names, BitsAsked, ArgsAsked, KeepsAll;
      history := history + [op];
      HistoryStep(table, old(history), op, 0);
      forall id: nat { HistoryStep(table, old(history), op, id); }
      match op {
        case All(allow) =>
          allowed := if allow then AllBits() else {};
          allCommands, commandRules, firstArgs := allow, "", map[];
          return true;
        case Set(r) =>
          ResolvesIs(table, LowRule(r));
          if !Resolves(table, LowRule(r)) { return false; }
          LowIs(r);
          LowNoNul(r);
          ApplyRule(r);
          AsAsked(table, LowRule(r), old(allowed), old(allCommands), old(firstArgs), firstArgs);
          UpdateCommandRules(LowRule(r));
          return true;
      }
    }

    /** ACLDescribeSelectorCommandRules: replays the kept text on a fresh selector, starting from the "@all" that
        the reserved bit tells, and stops the server when a rule is refused or the bitmaps differ. */
    method DescribeCommandRules() returns (d: Description)
      requires Valid()
      ensures d == Describe(table, commandRules, allowed)
      ensures KeptOfHistory(table, history).Some? ==> d.Shown? && SetsAgain(table, d.text, history)
    {
      hide TableOk, KeptOfHistory, BitsOfHistory, TextOfHistory, FlagOfHistory, ArgsOfHistory, ArgSet, Accepts,
          SetsAgain, Words,
        OpsOf, Header, BitsAsked, ArgsAsked, KeepsAll, Names, LowRule, LowText;
      if KeptOfHistory(table, history).Some? {
        DescriptionSetsAgain(table, history);
      }
      var all := RESERVED in allowed;
      var words := Words(commandRules);
      if words.None? { return Stopped; }
      if exists i :: 0 <= i < |words.value| && Elsewhere(words.value[i]) { return NotAboutCommands; }
      var ops := OpsOf(words.value);
      if ops.None? { return Stopped; }
      WordsNoNul(commandRules);
      OpsNoNul(words.value);
      assert AllNoNul(ops.value);
      var fake := new Selector(table);
      var _ := fake.SetSelector(All(all));
      var i := 0;
      while i < |ops.value|
        invariant 0 <= i <= |ops.value| && fresh(fake) && fake.Valid() && fake.table == table
        invariant fake.history == [All(all)] + ops.value[..i]
        invariant AllAccepted(table, ops.value[..i])
      {
        assert NoNul(ops.value[i]);
        var res := fake.SetSelector(ops.value[i]);
        assert ops.value[..i + 1] == ops.value[..i] + [ops.value[i]];
        if !res { return Stopped; }
        i := i + 1;
      }
      assert ops.value[..i] == ops.value;
      if fake.allowed != allowed { return Stopped; }
      var text := Header(all);
      if commandRules != "" { text := text + " " + commandRules; }
      assert commandRules != "" ==> Header(all) + " " + commandRules == Header(all) + (" " + commandRules);
      return Shown(text);
    }
  }

  /** Any history of operations, accepted or refused, applied one by one: bitmap, flag, first arguments and text
      are those of the history, the flag means every bit, and the selector can be shown and set again from what is
      shown unless a scan has damaged a kept rule. */
  method EditHistory(table: Table, ops: seq<Op>) returns (s: Selector, d: Description)
    requires TableOk(table) && AllNoNul(ops)
    ensures fresh(s) && s.Valid() && s.table == table && s.history == ops
    ensures s.allCommands ==> s.allowed == AllBits()
    ensures d == Describe(table, TextOfHistory(table, ops), BitsOfHistory(table, ops))
    ensures KeptOfHistory(table, ops).Some? ==> d.Shown? && SetsAgain(table, d.text, ops)
  {
    hide TableOk, Describe, SetsAgain, KeptOfHistory, TextOfHistory, BitsOfHistory, FlagOfHistory, ArgsOfHistory,
      ArgSet, BitsAsked, ArgsAsked, KeepsAll, Names, Accepts, LowRule, LowText;
    s := new Selector(table);
    for i := 0 to |ops|
      invariant s.Valid() && fresh(s) && s.table == table && s.history == ops[..i]
    {
      var _ := s.SetSelector(ops[i]);
      assert ops[..i + 1] == ops[..i] + [ops[i]];
    }
    assert ops[..|ops|] == ops;
    FlagMeansAll(table, ops);
    d := s.DescribeCommandRules();
  }

  /** What the rule does to bits, flag and first arguments is what it asks for. */
  lemma AsAsked(t: Table, r: Rule, bits: set<nat>, flag: bool, before: map<nat, seq<string>>,
                after: map<nat, seq<string>>)
    requires TableOk(t)
    requires forall id: nat :: ArgSet(after, id) == ApplyArgs(t, ArgSet(before, id), r.text, id)
    ensures BitsAsked(t, r, bits, ApplyBits(t, bits, r)) && ArgsAsked(t, r.text, before, after)
    ensures FlagAfter(flag, Touched(t, r.text), r.allow) <==>
            flag && KeepsAll(t, r)
  {
    hide TableOk, Touched, Concerns, Resets, AddsTo, Empties, AboutArguments, ArgSet;
    forall id: nat
      ensures id in Touched(t, r.text) <==> Concerns(t, r.text, id)
      ensures id in Resets(t, r.text) <==> Empties(t, r.text, id)
      ensures AddsTo(t, r.text, id) <==> AboutArguments(t, r.text, id)
    {
      TouchedIs(t, r.text, id);
      ResetsIs(t, r.text, id);
    }
    var ids := Fitting(Touched(t, r.text));
    if ids != {} {
      var id: nat :| id in ids;
      assert id < BITS && Concerns(t, r.text, id);
    } else {
      forall id: nat | id < BITS ensures !Concerns(t, r.text, id) {
        assert id !in ids;
      }
    }
  }

  // ---------------------------------------------------------------- helpers

  lemma Terminates(s: string)
    requires AclScan.NUL !in s
    ensures AclScan.Terminated(s + [AclScan.NUL]) && AclScan.CStr(s + [AclScan.NUL]) == s
  {
    AclScan.StrLenIs(s + [AclScan.NUL], 0, |s|);
  }

  lemma LowNoNul(r: Rule)
    requires AclScan.NUL !in TextOf(r.text)
    ensures AclScan.NUL !in TextOf(LowText(r.text))
  {
    assert TextOf(LowText(r.text)) == Lower(TextOf(r.text));
  }

  lemma WordsNoNul(text: string)
    ensures var ws := Words(text); ws.Some? ==> forall i :: 0 <= i < |ws.value| ==> AclScan.NUL !in ws.value[i]
  {
  }

  lemma {:induction false} OpsNoNul(words: seq<string>)
    requires forall i :: 0 <= i < |words| ==> AclScan.NUL !in words[i]
    ensures OpsOf(words).Some? ==> AllNoNul(OpsOf(words).value)
  {
    if words != [] {
      OpsNoNul(words[1..]);
      TextKept(words[0]);
    }
  }

  lemma NoneTouched(t: Table, x: Text, c: Command)
    requires x.Pipe? && FindCommand(t.commands, Lower(x.name)) == Some(c) && c.subs == []
    ensures Touched(t, LowText(x)) == {}
  {
  }

  lemma ArgAdded(before: map<nat, seq<string>>, after: map<nat, seq<string>>, id: nat, arg: string)
    requires var list := if id in before then before[id] else [];
             after == if Lower(arg) in ArgSet(before, id) then before else before[id := list + [arg]]
    ensures forall x: nat :: ArgSet(after, x) == if x == id then ArgSet(before, id) + {Lower(arg)}
              else ArgSet(before, x)
  {
    hide Lower;
    var list := if id in before then before[id] else [];
    assert (list + [arg])[|list|] == arg;
    assert forall i :: 0 <= i < |list| ==> (list + [arg])[i] == list[i];
    assert ArgSet(after, id) == ArgSet(before, id) + {Lower(arg)};
  }

  function IdsUpTo(c: Command, cat: string, n: nat): set<nat>
    requires n <= |c.subs|
  {
    (if cat in c.cats then {c.id} + SubIds(c.subs) else {})
        + (set i | 0 <= i < n && cat in c.subs[i].cats :: c.subs[i].id)
  }

  function ResetsUpTo(c: Command, cat: string, n: nat): set<nat>
    requires n <= |c.subs|
  {
    (if cat in c.cats then {c.id} else {}) + (set i | 0 <= i < n && cat in c.subs[i].cats :: c.subs[i].id)
  }

  lemma SetBitsTwice(bits: set<nat>, flag: bool, x: set<nat>, y: set<nat>, allow: bool)
    ensures SetBits(SetBits(bits, x, allow), y, allow) == SetBits(bits, x + y, allow)
    ensures FlagAfter(FlagAfter(flag, x, allow), y, allow) == FlagAfter(flag, x + y, allow)
  {
    assert Fitting(x + y) == Fitting(x) + Fitting(y);
  }

  lemma SetNoBits(bits: set<nat>, flag: bool, allow: bool)
    ensures SetBits(bits, {}, allow) == bits && FlagAfter(flag, {}, allow) == flag
  {
  }

  lemma UpToStep(c: Command, cat: string, i: nat)
    requires i < |c.subs|
    ensures IdsUpTo(c, cat, i + 1) == if cat in c.subs[i].cats then IdsUpTo(c, cat, i) + {c.subs[i].id}
              else IdsUpTo(c, cat, i)
    ensures ResetsUpTo(c, cat, i + 1) == if cat in c.subs[i].cats then ResetsUpTo(c, cat, i) + {c.subs[i].id}
              else ResetsUpTo(c, cat, i)
  {
    hide SubIds;
  }

  lemma RemoveTwice(m: map<nat, seq<string>>, x: set<nat>, y: set<nat>)
    ensures m - x - y == m - (x + y)
  {
  }

  lemma NoSubIds(id: nat)
    ensures {id} + SubIds([]) == {id}
  {
  }

  lemma CategoryNone(bits: set<nat>, flag: bool, cmds: seq<Command>, cat: string, allow: bool)
    ensures SetBits(bits, CategoryIds(cmds[..0], cat), allow) == bits
    ensures FlagAfter(flag, CategoryIds(cmds[..0], cat), allow) == flag
    ensures CategoryResets(cmds[..0], cat) == {}
  {
  }

  lemma {:induction false} CategorySnoc(cmds: seq<Command>, n: nat, cat: string)
    requires n < |cmds|
    ensures CategoryIds(cmds[..n + 1], cat) == CategoryIds(cmds[..n], cat) + CommandCategoryIds(cmds[n], cat)
    ensures CategoryResets(cmds[..n + 1], cat) == CategoryResets(cmds[..n], cat) + CommandCategoryResets(cmds[n], cat)
    decreases n
  {
    hide CommandCategoryIds, CommandCategoryResets;
    if n == 0 {
      assert cmds[..1][1..] == [];
    } else {
      assert cmds[..n + 1][1..] == cmds[1..][..n] && cmds[..n][1..] == cmds[1..][..n - 1];
      CategorySnoc(cmds[1..], n - 1, cat);
    }
  }

  lemma SubIdsSnoc(subs: seq<Subcommand>, i: nat)
    requires i < |subs|
    ensures SubIds(subs[..i + 1]) == SubIds(subs[..i]) + {subs[i].id}
  {
    assert forall j :: 0 <= j < i ==> subs[..i][j] == subs[..i + 1][j];
    assert subs[..i + 1][i] == subs[i];
    forall x | x in SubIds(subs[..i]) ensures x in SubIds(subs[..i + 1]) {
      var j :| 0 <= j < i && subs[..i][j].id == x;
      assert subs[..i + 1][j].id == x;
    }
  }
}
