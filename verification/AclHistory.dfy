/** What a history of ACL operations on commands means: bitmap, first arguments, kept text, and the text shown
    for the selector, which must set the same permissions again. */
module AclHistory {
  import opened Bytes
  import opened Collections
  import opened Acl
  import opened AclText
  import SdsSplit

  // ---------------------------------------------------------------- operations

  /** An ACLSetSelector operation about commands: "+@all" / "-@all", or a rule. */
  datatype Op = All(allow: bool) | Set(rule: Rule)

  /** Names are looked up, and rules kept, in lower case. */
  function Low(c: char): (r: char)
    ensures if 'A' <= c <= 'Z' then r as int == c as int + ('a' as int - 'A' as int) else r == c
  {
    if 'A' <= c <= 'Z' then (c as int + 32) as char else c
  }

  function Lower(s: string): (r: string)
    ensures |r| == |s| && forall i :: 0 <= i < |s| ==> r[i] == Low(s[i])
  {
    seq(|s|, i requires 0 <= i < |s| => Low(s[i]))
  }

  function LowText(x: Text): Text {
    match x
    case Cmd(name) => Cmd(Lower(name))
    case Pipe(name, arg) => Pipe(Lower(name), Lower(arg))
    case Category(cat) => Category(Lower(cat))
  }

  function LowRule(r: Rule): Rule {
    Rule(r.allow, LowText(r.text))
  }

  predicate Accepts(t: Table, op: Op) {
    op.Set? ==> Resolves(t, LowRule(op.rule))
  }

  // ---------------------------------------------------------------- histories

  /** The bitmap as the operations define it, with no rule list involved. */
  function BitsOfHistory(t: Table, ops: seq<Op>): set<nat> {
    if ops == [] then {} else
      var before, op := BitsOfHistory(t, ops[..|ops| - 1]), ops[|ops| - 1];
      match op
      case All(allow) => if allow then AllBits() else {}
      case Set(r) => if Accepts(t, op) then ApplyBits(t, before, LowRule(r)) else before
  }

  function ArgsOfHistory(t: Table, ops: seq<Op>, id: nat): set<string> {
    if ops == [] then {} else
      var before, op := ArgsOfHistory(t, ops[..|ops| - 1], id), ops[|ops| - 1];
      match op
      case All(_) => {}
      case Set(r) => if Accepts(t, op) then ApplyArgs(t, before, LowText(r.text), id) else before
  }

  /** ACLUpdateCommandRules: the new rule goes to the end, after the scan. */
  function Updated(text: string, r: Rule): string {
    var rest := ScanAt(text, TextOf(r.text), 0);
    (if rest == "" then "" else rest + " ") + Show(r)
  }

  function TextOfHistory(t: Table, ops: seq<Op>): string {
    if ops == [] then "" else
      var before, op := TextOfHistory(t, ops[..|ops| - 1]), ops[|ops| - 1];
      match op
      case All(_) => ""
      case Set(r) => if Accepts(t, op) then Updated(before, LowRule(r)) else before
  }

  predicate AllResolve(t: Table, rules: seq<Rule>) {
    forall i :: 0 <= i < |rules| ==> Resolves(t, rules[i])
  }

  /** The rules the text is the print of, as long as no scan has damaged one. */
  function KeptAfter(t: Table, kept: Option<seq<Rule>>, r: Rule): Option<seq<Rule>> {
    if kept.Some? && Plain(r.text) && Left(kept.value, r.text).Some?
        && AllResolve(t, Left(kept.value, r.text).value) then
      Some(Left(kept.value, r.text).value + [r])
    else None
  }

  function KeptOfHistory(t: Table, ops: seq<Op>): Option<seq<Rule>> {
    if ops == [] then Some([]) else
      var before, op := KeptOfHistory(t, ops[..|ops| - 1]), ops[|ops| - 1];
      match op
      case All(_) => Some([])
      case Set(r) => if Accepts(t, op) then KeptAfter(t, before, LowRule(r)) else before
  }

  /** The last of "+@all" and "-@all". */
  function FromAll(ops: seq<Op>): bool {
    if ops == [] then false else
      var op := ops[|ops| - 1];
      if op.All? then op.allow else FromAll(ops[..|ops| - 1])
  }

  /** SELECTOR_FLAG_ALLCOMMANDS: raised by "+@all", lowered when a bit is cleared. */
  function FlagAfter(flag: bool, ids: set<nat>, allow: bool): bool {
    flag && (allow || Fitting(ids) == {})
  }

  function FlagOfHistory(t: Table, ops: seq<Op>): bool {
    if ops == [] then false else
      var before, op := FlagOfHistory(t, ops[..|ops| - 1]), ops[|ops| - 1];
      match op
      case All(allow) => allow
      case Set(r) => if Accepts(t, op) then FlagAfter(before, Touched(t, LowText(r.text)), r.allow) else before
  }

  /** One more operation. */
  lemma HistoryStep(t: Table, ops: seq<Op>, op: Op, id: nat)
    ensures BitsOfHistory(t, ops + [op]) ==
            if op.All? then (if op.allow then AllBits() else {})
            else if Accepts(t, op) then ApplyBits(t, BitsOfHistory(t, ops), LowRule(op.rule)) else BitsOfHistory(t, ops)
    ensures FlagOfHistory(t, ops + [op]) ==
            if op.All? then op.allow
            else if Accepts(t, op) then FlagAfter(FlagOfHistory(t, ops), Touched(t, LowText(op.rule.text)),
                op.rule.allow)
            else FlagOfHistory(t, ops)
    ensures TextOfHistory(t, ops + [op]) ==
            if op.All? then "" else if Accepts(t, op) then Updated(TextOfHistory(t, ops), LowRule(op.rule))
                else TextOfHistory(t, ops)
    ensures ArgsOfHistory(t, ops + [op], id) ==
            if op.All? then {}
            else if Accepts(t, op) then ApplyArgs(t, ArgsOfHistory(t, ops, id), LowText(op.rule.text), id)
            else ArgsOfHistory(t, ops, id)
  {
    hide Accepts, ApplyBits, ApplyArgs, LowRule, LowText, Updated, Touched, FlagAfter;
    assert (ops + [op])[..|ops|] == ops;
  }

  /** The reserved bit tells, after any history, which "@all" came last. */
  lemma {:induction false} ReservedTells(t: Table, ops: seq<Op>)
    requires TableOk(t)
    ensures RESERVED in BitsOfHistory(t, ops) <==> FromAll(ops)
  {
    hide Resolves, Touched, LowText;
    if ops != [] {
      var op := ops[|ops| - 1];
      ReservedTells(t, ops[..|ops| - 1]);
      if op.Set? {
        NotReserved(t, LowText(op.rule.text));
      }
    }
  }

  /** A selector with the flag has every bit, so skipping the test of the bit is right. */
  lemma {:induction false} FlagMeansAll(t: Table, ops: seq<Op>)
    ensures FlagOfHistory(t, ops) ==> BitsOfHistory(t, ops) == AllBits()
  {
    hide Resolves, Touched, LowText;
    if ops != [] {
      FlagMeansAll(t, ops[..|ops| - 1]);
    }
  }

  // ---------------------------------------------------------------- the kept rules

  ghost predicate AllLower(rules: seq<Rule>) {
    forall i :: 0 <= i < |rules| ==> LowRule(rules[i]) == rules[i]
  }

  lemma LowerTwice(s: string)
    ensures Lower(Lower(s)) == Lower(s)
  {
    assert forall i :: 0 <= i < |s| ==> Lower(s)[i] == Low(s[i]) && Lower(Lower(s))[i] == Low(Low(s[i]));
  }

  lemma LowRuleTwice(r: Rule)
    ensures LowRule(LowRule(r)) == LowRule(r)
  {
    match r.text
    case Cmd(name) => LowerTwice(name);
    case Pipe(name, arg) =>
      LowerTwice(name);
      LowerTwice(arg);
    case Category(cat) => LowerTwice(cat);
  }

  lemma LowerFront(s: string, k: nat)
    requires Lower(s) == s && k <= |s|
    ensures Lower(s[..k]) == s[..k]
  {
    assert forall i :: 0 <= i < k ==> Lower(s)[i] == Low(s[i]);
  }

  lemma LowerDrop(s: string, k: nat)
    requires k <= |s|
    ensures Lower(s[k..]) == Lower(s)[k..]
  {
  }

  lemma LowerAt(s: string)
    requires s != ""
    ensures Lower(s)[0] == '@' <==> s[0] == '@'
  {
  }

  lemma {:induction false} LeftLower(rules: seq<Rule>, n: Text)
    requires AllPlain(rules) && Plain(n) && AllLower(rules) && LowText(n) == n && Left(rules, n).Some?
    ensures AllLower(Left(rules, n).value)
  {
    hide WalkFrom, Plain, Lower, Outcome, Pruned, ScanAt, Print, Matches;
    var w := WalkFacts(rules, n);
    match w
    case Whole(left) =>
      PlainParts(left, rules, n);
      assert forall i :: 0 <= i < |left| ==> left[i] in left;
    case Cut(before, rule, at, after) =>
      var all := before + [rule] + after;
      PlainParts(all, rules, n);
      assert all[|before|] == rule && rule in all;
      assert forall i :: 0 <= i < |before| ==> before[i] == all[i] && all[i] in all;
      if at != |n.name| + 2 {
        LuckyArg(rule, at, n);
        LowerFront(rule.text.arg, at - |n.name| - 3);
      }
  }

  lemma LuckyArg(rule: Rule, at: nat, n: Text)
    requires n.Cmd? && rule.text.Pipe? && rule.text.name == n.name && |n.name| + 3 < at < |Show(rule)|
    ensures at - |n.name| - 3 <= |rule.text.arg|
  {
  }

  /** Text and permissions agree with the kept rules. */
  ghost predicate Agrees(t: Table, ops: seq<Op>, rules: seq<Rule>) {
    && TextOfHistory(t, ops) == Print(rules) && AllPlain(rules) && AllLower(rules) && AllResolve(t, rules)
    && BitsOfHistory(t, ops) == BitsAfter(t, FromAll(ops), rules)
    && forall id: nat :: ArgsOfHistory(t, ops, id) == ArgsAfter(t, rules, id)
  }

  lemma {:induction false} KeptAgrees(t: Table, ops: seq<Op>)
    requires TableOk(t) && KeptOfHistory(t, ops).Some?
    ensures Agrees(t, ops, KeptOfHistory(t, ops).value)
  {
    if ops != [] {
      var front, op := ops[..|ops| - 1], ops[|ops| - 1];
      if op.Set? {
        KeptAgrees(t, front);
        if Accepts(t, op) {
          AcceptedAgrees(t, ops, KeptOfHistory(t, front).value);
        }
      }
    }
  }

  lemma {:induction false} AcceptedAgrees(t: Table, ops: seq<Op>, k: seq<Rule>)
    requires TableOk(t) && ops != [] && ops[|ops| - 1].Set? && Accepts(t, ops[|ops| - 1])
    requires Agrees(t, ops[..|ops| - 1], k)
    requires KeptAfter(t, Some(k), LowRule(ops[|ops| - 1].rule)).Some?
    ensures Agrees(t, ops, KeptAfter(t, Some(k), LowRule(ops[|ops| - 1].rule)).value)
  {
    hide TableOk, Resolves, Left, Print, ScanAt, Uncovered, BitsAfter, ArgsAfter, ApplyBits, ApplyArgs, Plain, LowRule,
        Show;
    var front, r := ops[..|ops| - 1], LowRule(ops[|ops| - 1].rule);
    var left := Left(k, r.text).value;
    LowRuleTwice(ops[|ops| - 1].rule);
    LowIs(ops[|ops| - 1].rule);
    LowIs(r);
    LeftIsText(k, r.text);
    LeftLower(k, r.text);
    UpdatedIsPrint(TextOfHistory(t, front), left, r);
    UncoveredReplay(t, FromAll(ops), left, k, r);
    BitsSnoc(t, FromAll(ops), k, r);
    forall id: nat ensures ArgsOfHistory(t, ops, id) == ArgsAfter(t, left + [r], id) {
      ArgsSnoc(t, k, r, id);
      assert ArgsOfHistory(t, front, id) == ArgsAfter(t, k, id);
    }
  }

  lemma LowIs(r: Rule)
    ensures LowRule(r).allow == r.allow && LowRule(r).text == LowText(r.text)
  {
  }

  lemma {:induction false} UpdatedIsPrint(text: string, left: seq<Rule>, r: Rule)
    requires ScanAt(text, TextOf(r.text), 0) == Print(left)
    ensures Updated(text, r) == Print(left + [r])
  {
    hide ScanAt, Show;
    PrintSnoc(left, r);
    NothingElse(left);
  }

  /** One of the accepted operations. */
  ghost predicate Came(t: Table, ops: seq<Op>, r: Rule) {
    exists i :: 0 <= i < |ops| && Accepted(t, ops[i], r)
  }

  ghost predicate Accepted(t: Table, op: Op, r: Rule) {
    op.Set? && Accepts(t, op) && LowRule(op.rule) == r
  }

  /** No scan damages anything when no end of one rule's text reads like another rule. */
  lemma {:induction false} TailFreeHistory(t: Table, ops: seq<Op>)
    requires forall r :: Came(t, ops, r) ==> Plain(r.text)
    requires forall r, n :: Came(t, ops, r) && Came(t, ops, n) ==> TailFree(r.text, n.text)
    ensures KeptOfHistory(t, ops).Some?
    ensures forall r :: r in KeptOfHistory(t, ops).value ==> Came(t, ops, r)
  {
    hide Resolves, LowRule, Left, Plain, TailFree, Pruned;
    if ops != [] {
      var front, op := ops[..|ops| - 1], ops[|ops| - 1];
      CameFront(t, ops);
      TailFreeHistory(t, front);
      if op.Set? && Accepts(t, op) {
        var k, r := KeptOfHistory(t, front).value, LowRule(op.rule);
        assert Accepted(t, op, r) && Came(t, ops, r);
        assert forall i :: 0 <= i < |k| ==> k[i] in k;
        TailFreeLeaves(k, r.text);
        var left := Left(k, r.text).value;
        PlainParts(left, k, r.text);
        CameResolve(t, ops, left);
      }
    }
  }

  lemma CameFront(t: Table, ops: seq<Op>)
    requires ops != []
    ensures forall r :: Came(t, ops[..|ops| - 1], r) ==> Came(t, ops, r)
  {
    hide Accepted;
    forall r | Came(t, ops[..|ops| - 1], r) ensures Came(t, ops, r) {
      var i :| 0 <= i < |ops| - 1 && Accepted(t, ops[..|ops| - 1][i], r);
      assert Accepted(t, ops[i], r);
    }
  }

  lemma CameResolve(t: Table, ops: seq<Op>, rules: seq<Rule>)
    requires forall r :: r in rules ==> Came(t, ops, r)
    ensures AllResolve(t, rules)
  {
    hide Resolves, LowRule;
    forall i | 0 <= i < |rules| ensures Resolves(t, rules[i]) {
      assert rules[i] in rules;
    }
  }

  // ---------------------------------------------------------------- texts read back

  function ToBytes(s: string): bytes {
    seq(|s|, i requires 0 <= i < |s| => (s[i] as int) % 256)
  }

  function ToString(b: bytes): string {
    seq(|b|, i requires 0 <= i < |b| => b[i] as char)
  }

  /** What a C function sees of a string. */
  function CString(s: string): (r: string)
    ensures forall i :: 0 <= i < |r| ==> r[i] != '\0'
  {
    if s == "" || s[0] == '\0' then "" else [s[0]] + CString(s[1..])
  }

  function CStrings(ws: seq<bytes>): seq<string> {
    seq(|ws|, i requires 0 <= i < |ws| => CString(ToString(ws[i])))
  }

  /** sdssplitargs, each string as a C string. */
  function Words(text: string): Option<seq<string>> {
    var ws := SdsSplit.SplitArgs(ToBytes(text));
    if ws.None? then None else Some(CStrings(ws.value))
  }

  /** strrchr(s, '|'), or the length. */
  function LastBar(s: string): (i: nat)
    ensures i <= |s| && (i < |s| ==> s[i] == '|') && forall j :: i < j < |s| ==> s[j] != '|'
    ensures i == |s| ==> '|' !in s
  {
    if s == "" then 0
    else if s[|s| - 1] == '|' then |s| - 1
    else var i := LastBar(s[..|s| - 1]); if i == |s| - 1 then |s| else i
  }

  function ParseText(s: string): Text {
    var i := LastBar(s);
    if s != "" && s[0] == '@' then Category(s[1..])
    else if i == |s| then Cmd(s)
    else Pipe(s[..i], s[i + 1..])
  }

  /** An operation about keys or channels. */
  predicate Elsewhere(w: string) {
    w != "" && (w[0] in {'~', '%', '&'} || Lower(w) in {"allkeys", "resetkeys", "allchannels", "resetchannels"})
  }

  /** None when the operation is not one about commands. */
  function ParseOp(w: string): Option<Op> {
    var l := Lower(w);
    if l == "allcommands" || l == "+@all" then Some(All(true))
    else if l == "nocommands" || l == "-@all" then Some(All(false))
    else if w != "" && IsSign(w[0]) then Some(Set(Rule(w[0] == '+', ParseText(w[1..]))))
    else None
  }

  lemma TextKept(w: string)
    ensures ParseOp(w).Some? && ParseOp(w).value.Set? ==> w != "" && TextOf(ParseOp(w).value.rule.text) == w[1..]
  {
    hide Lower, ParseText, TextOf;
    if w != "" { ParsedText(w[1..]); }
  }

  lemma ParsedText(s: string)
    ensures TextOf(ParseText(s)) == s
  {
    var i := LastBar(s);
    if i < |s| { assert s == s[..i] + "|" + s[i + 1..]; }
    if s != "" && s[0] == '@' { assert s == "@" + s[1..]; }
  }

  function OpsOf(words: seq<string>): Option<seq<Op>> {
    if words == [] then Some([]) else
      var first, more := ParseOp(words[0]), OpsOf(words[1..]);
      if first.Some? && more.Some? then Some([first.value] + more.value) else None
  }

  /** The text shown; the server stops when a kept rule is refused or the bitmaps differ. */
  datatype Description = Shown(text: string) | Stopped | NotAboutCommands

  predicate AllAccepted(t: Table, ops: seq<Op>) {
    forall i :: 0 <= i < |ops| ==> Accepts(t, ops[i])
  }

  function Header(all: bool): string {
    if all then "+@all" else "-@all"
  }

  /** ACLDescribeSelectorCommandRules */
  function Describe(t: Table, text: string, allowed: set<nat>): Description {
    var all := RESERVED in allowed;
    var words := Words(text);
    if words.None? then Stopped
    else if exists i :: 0 <= i < |words.value| && Elsewhere(words.value[i]) then NotAboutCommands
    else
      var ops := OpsOf(words.value);
      if ops.None? then Stopped
      else if AllAccepted(t, ops.value) && BitsOfHistory(t, [All(all)] + ops.value) == allowed then
        Shown(Header(all) + if text == "" then "" else " " + text)
      else Stopped
  }

  // ---------------------------------------------------------------- printed rules read back

  lemma {:induction false} TextsBack(x: Text)
    requires Plain(x)
    ensures ParseText(TextOf(x)) == x
  {
    var s := TextOf(x);
    TextParts(x);
    match x
    case Cmd(name) =>
      assert forall j :: 0 <= j < |s| ==> s[j] != '|';
    case Pipe(name, arg) =>
      OnlyBar(x, LastBar(s));
      assert s[..|name|] == name && s[|name| + 1..] == arg;
    case Category(cat) =>
  }

  lemma {:induction false} RulesBack(r: Rule)
    requires Plain(r.text) && (r.text.Category? ==> Lower(r.text.cat) != "all")
    ensures ParseOp(Show(r)) == Some(Set(r))
  {
    hide Plain, ParseText, Lower;
    TextsBack(r.text);
    ShowIsWord(r);
    SignStays(r);
    NotHeader(r, "+@all");
    NotHeader(r, "-@all");
  }

  lemma SignStays(r: Rule)
    ensures var w := Show(r);
            Lower(w) != "allcommands" && Lower(w) != "nocommands" && IsSign(w[0]) && (w[0] == '+') == r.allow
  {
    hide TextOf;
    var w := Show(r);
    assert Lower(w)[0] == w[0] && "allcommands"[0] == 'a' && "nocommands"[0] == 'n';
  }

  lemma {:induction false} NotHeader(r: Rule, h: string)
    requires Plain(r.text) && (r.text.Category? ==> Lower(r.text.cat) != "all") && (h == "+@all" || h == "-@all")
    ensures Lower(Show(r)) != h
  {
    hide Lower;
    var w := Show(r);
    assert h[1..] == "@all" && h[2..] == "all";
    LowerDrop(w, 1);
    LowerDrop(w, 2);
    ShowIsWord(r);
    if Lower(w) == h {
      assert w[2..] == w[1..][1..];
      LowerAt(w[1..]);
      TextParts(r.text);
    }
  }

  function Shows(rules: seq<Rule>): seq<string> {
    seq(|rules|, i requires 0 <= i < |rules| => Show(rules[i]))
  }

  function Sets(rules: seq<Rule>): seq<Op> {
    seq(|rules|, i requires 0 <= i < |rules| => Set(rules[i]))
  }

  lemma {:induction false} OpsBack(rules: seq<Rule>)
    requires AllPlain(rules)
    requires forall i :: 0 <= i < |rules| ==> rules[i].text.Category? ==> Lower(rules[i].text.cat) != "all"
    ensures OpsOf(Shows(rules)) == Some(Sets(rules))
  {
    hide Show, ParseOp, Plain, Lower;
    if rules != [] {
      assert Plain(rules[0].text);
      RulesBack(rules[0]);
      OpsBack(rules[1..]);
      assert Shows(rules)[1..] == Shows(rules[1..]) && [Set(rules[0])] + Sets(rules[1..]) == Sets(rules);
    }
  }

  lemma {:induction false} BytesConcat(a: string, b: string)
    ensures ToBytes(a + b) == ToBytes(a) + ToBytes(b)
  {
  }

  /** A word of byte characters that the splitter takes as it is. */
  predicate TakenAsIs(w: string) {
    w != "" && !IsSpace(w[0] as int % 256) && forall i :: 0 <= i < |w| ==>
        w[i] !in {' ', '"', '\'', '\n', '\r', '\t', '\0'} && w[i] as int < 256
  }

  lemma {:induction false} WordBack(w: string)
    requires TakenAsIs(w)
    ensures SdsSplit.PlainWord(ToBytes(w)) && ToBytes(w) != [] && !IsSpace(ToBytes(w)[0])
    ensures CString(ToString(ToBytes(w))) == w
  {
    assert ToString(ToBytes(w)) == w;
    CStringIs(w);
  }

  lemma {:induction false} CStringIs(w: string)
    requires forall i :: 0 <= i < |w| ==> w[i] != '\0'
    ensures CString(w) == w
  {
    if w != "" { CStringIs(w[1..]); }
  }

  lemma {:induction false} WordFirst(w: string, text: string)
    requires TakenAsIs(w)
    ensures Words(w + " " + text) == if Words(text).None? then None else Some([w] + Words(text).value)
  {
    hide CString, ToBytes, ToString, TakenAsIs;
    WordBack(w);
    BytesConcat(w, " " + text);
    BytesConcat(" ", text);
    assert w + " " + text == w + (" " + text);
    assert ToBytes(" ") == [SdsSplit.SPACE] by { SpaceByte(); }
    SdsSplit.SplitWord(ToBytes(w), ToBytes(text));
    var ws := SdsSplit.SplitArgs(ToBytes(text));
    if ws.Some? {
      assert CStrings([ToBytes(w)] + ws.value) == [w] + CStrings(ws.value);
    }
  }

  lemma SpaceByte()
    ensures ToBytes(" ") == [SdsSplit.SPACE]
  {
  }

  lemma {:induction false} WordLast(w: string)
    requires TakenAsIs(w)
    ensures Words(w) == Some([w])
  {
    hide CString, ToBytes, ToString, TakenAsIs;
    WordBack(w);
    SdsSplit.SplitLastWord(ToBytes(w));
    assert CStrings([ToBytes(w)]) == [w];
  }

  lemma {:induction false} NoWords()
    ensures Words("") == Some([])
  {
    hide CString;
    SdsSplit.SplitNothing();
    assert ToBytes("") == [] && CStrings([]) == [];
  }

  lemma {:induction false} ShowIsTaken(r: Rule)
    requires Plain(r.text)
    ensures TakenAsIs(Show(r)) && !Elsewhere(Show(r))
  {
    assert Lower(Show(r))[0] == Show(r)[0];
  }

  lemma {:induction false} WordsBack(rules: seq<Rule>)
    requires AllPlain(rules)
    ensures Words(Print(rules)) == Some(Shows(rules))
  {
    hide Words, Show, Plain, TakenAsIs;
    if rules == [] {
      NoWords();
    } else {
      assert Plain(rules[0].text);
      ShowIsTaken(rules[0]);
      if |rules| == 1 {
        WordLast(Show(rules[0]));
        assert Shows(rules) == [Show(rules[0])];
      } else {
        WordsBack(rules[1..]);
        WordFirst(Show(rules[0]), Print(rules[1..]));
        assert [Show(rules[0])] + Shows(rules[1..]) == Shows(rules);
      }
    }
  }

  // ---------------------------------------------------------------- the description sets the same permissions

  lemma {:induction false} SetsReplay(t: Table, all: bool, rules: seq<Rule>, id: nat)
    requires AllResolve(t, rules) && AllLower(rules)
    ensures AllAccepted(t, Sets(rules))
    ensures BitsOfHistory(t, [All(all)] + Sets(rules)) == BitsAfter(t, all, rules)
    ensures ArgsOfHistory(t, [All(all)] + Sets(rules), id) == ArgsAfter(t, rules, id)
  {
    hide Resolves, ApplyBits, ApplyArgs, LowRule;
    var ops := [All(all)] + Sets(rules);
    if rules != [] {
      var n := |rules| - 1;
      SetsReplay(t, all, rules[..n], id);
      assert ops[..|ops| - 1] == [All(all)] + Sets(rules[..n]) && ops[|ops| - 1] == Set(rules[n]);
      LowIs(rules[n]);
    }
  }

  /** Setting the shown text on any selector gives the permissions of the history. */
  ghost predicate SetsAgain(t: Table, text: string, ops: seq<Op>) {
    var words := Words(text);
    && words.Some? && OpsOf(words.value).Some?
    && var again := OpsOf(words.value).value;
    && AllAccepted(t, again) && BitsOfHistory(t, again) == BitsOfHistory(t, ops)
    && forall id: nat :: ArgsOfHistory(t, again, id) == ArgsOfHistory(t, ops, id)
  }

  lemma {:induction false} HeaderFirst(all: bool, text: string)
    ensures var h := Header(all) + if text == "" then "" else " " + text;
            && (Words(text).Some? ==> Words(h) == Some([Header(all)] + Words(text).value))
            && ParseOp(Header(all)) == Some(All(all))
  {
    hide Words;
    var h := Header(all);
    assert TakenAsIs(h);
    assert Lower(h) == h;
    if text == "" {
      NoWords();
      WordLast(h);
      assert h + "" == h && [h] + [] == [h];
    } else {
      WordFirst(h, text);
      assert h + (" " + text) == h + " " + text;
    }
  }

  /** Whatever the history, as long as no scan has damaged a kept rule, the server can show the selector, and
      the text shown sets exactly the same bitmap and first arguments again. */
  lemma {:induction false} DescriptionSetsAgain(t: Table, ops: seq<Op>)
    requires TableOk(t) && KeptOfHistory(t, ops).Some?
    ensures var d := Describe(t, TextOfHistory(t, ops), BitsOfHistory(t, ops));
            d.Shown? && SetsAgain(t, d.text, ops)
  {
    hide Words, ParseOp, Header, TextOfHistory, BitsOfHistory, ArgsOfHistory, KeptOfHistory, BitsAfter, ArgsAfter,
        Resolves, Print;
    var k, all := KeptOfHistory(t, ops).value, FromAll(ops);
    var text := TextOfHistory(t, ops);
    KeptAgrees(t, ops);
    ReservedTells(t, ops);
    WordsBack(k);
    NoCategoryAll(t, k);
    NoneElsewhere(k);
    OpsBack(k);
    SetsReplay(t, all, k, 0);
    HeaderFirst(all, text);
    OpsCons(Header(all), Shows(k));
    forall id: nat ensures ArgsOfHistory(t, [All(all)] + Sets(k), id) == ArgsOfHistory(t, ops, id) {
      SetsReplay(t, all, k, id);
    }
  }

  lemma {:induction false} OpsCons(h: string, ws: seq<string>)
    ensures OpsOf([h] + ws) == if ParseOp(h).Some? && OpsOf(ws).Some? then Some([ParseOp(h).value] + OpsOf(ws).value)
              else None
  {
    hide ParseOp;
    assert ([h] + ws)[1..] == ws;
  }

  lemma NoneElsewhere(rules: seq<Rule>)
    requires AllPlain(rules)
    ensures forall i :: 0 <= i < |rules| ==> !Elsewhere(Shows(rules)[i])
  {
    hide Elsewhere, Show, Plain, TakenAsIs;
    forall i | 0 <= i < |rules| ensures !Elsewhere(Shows(rules)[i]) {
      assert Plain(rules[i].text);
      ShowIsTaken(rules[i]);
    }
  }

  lemma NoCategoryAll(t: Table, rules: seq<Rule>)
    requires TableOk(t) && AllResolve(t, rules) && AllLower(rules)
    ensures forall i :: 0 <= i < |rules| ==> rules[i].text.Category? ==> Lower(rules[i].text.cat) != "all"
  {
  }

  // ---------------------------------------------------------------- a history that stops the server

  /** get and lcs, neither with subcommands. */
  const GET_LCS := Table([Command("get", 0, {}, []), Command("lcs", 1, {}, [])], {})

  const PLUS_GET := Rule(true, Cmd("get"))
  const PLUS_LCS_AGET := Rule(true, Pipe("lcs", "aget"))
  const GET_TWICE := [Set(PLUS_GET), Set(PLUS_LCS_AGET), Set(PLUS_GET)]

  lemma GetLcsOk()
    ensures TableOk(GET_LCS)
    ensures FindCommand(GET_LCS.commands, "get") == Some(Command("get", 0, {}, []))
    ensures FindCommand(GET_LCS.commands, "lcs") == Some(Command("lcs", 1, {}, []))
    ensures SubIds([]) == {}
  {
    assert GET_LCS.commands[1..] == [Command("lcs", 1, {}, [])];
  }

  /** The second "+get" drops the first and then cuts the end off "+lcs|aget", which it takes for another "get". */
  lemma {:induction false} ScanCutsAnother()
    ensures ScanAt("", "get", 0) == ""
    ensures ScanAt("+get", "lcs|aget", 0) == "+get"
    ensures ScanAt("+get +lcs|aget", "get", 0) == "+lcs"
  {
    hide ScanAt;
    ScanPast("", "get", 0);
    ScanLast("", "+get", "lcs|aget");
    assert "" + "+get" == "+get" && "+get"[1..] == "get";
    ScanInside("", "+get", "+lcs|aget", "get");
    assert "" + "+get" + " " + "+lcs|aget" == "+get +lcs|aget" && "" + "+lcs|aget" == "+lcs|aget";
    ScanLast("+lcs|", "aget", "get");
    assert "+lcs|" + "aget" == "+lcs|aget" && "aget"[1..] == "get" && "+lcs|"[..4] == "+lcs";
  }

  lemma {:induction false} LowerKeeps()
    ensures LowRule(PLUS_GET) == PLUS_GET && LowRule(PLUS_LCS_AGET) == PLUS_LCS_AGET
  {
    assert Lower("get") == "get" && Lower("lcs") == "lcs" && Lower("aget") == "aget";
  }

  /** "+get", "+lcs|aget", "+get": only get is allowed, but the kept text says "+lcs +get", and showing the
      selector stops the server. */
  lemma {:induction false} DamagedRuleStops()
    ensures TableOk(GET_LCS) && TextOfHistory(GET_LCS, GET_TWICE) == "+lcs +get"
    ensures BitsOfHistory(GET_LCS, GET_TWICE) == {0} && KeptOfHistory(GET_LCS, GET_TWICE).None?
    ensures Describe(GET_LCS, "+lcs +get", {0}) == Stopped
  {
    hide *;
    GetLcsOk();
    GetTwiceHistory();
    DamagedDescription();
    if KeptOfHistory(GET_LCS, GET_TWICE).Some? {
      DescriptionSetsAgain(GET_LCS, GET_TWICE);
      assert false;
    }
  }

  /** The rules that the damaged text names. */
  const DAMAGED := [Rule(true, Cmd("lcs")), PLUS_GET]

  lemma {:induction false} DamagedRules()
    ensures Print(DAMAGED) == "+lcs +get" && AllPlain(DAMAGED) && AllLower(DAMAGED) && AllResolve(GET_LCS, DAMAGED)
  {
    hide FindCommand, Lower, TableOk, LowRule;
    GetLcsOk();
    LowerKeeps();
    LowerLcs();
  }

  lemma {:induction false} DamagedDescription()
    ensures Describe(GET_LCS, "+lcs +get", {0}) == Stopped
  {
    hide Words, OpsOf, BitsOfHistory, Elsewhere, AllPlain, AllLower, AllResolve, Print, Shows, Sets, TableOk, BitsAfter,
      Lower, Accepts, AllAccepted;
    GetLcsOk();
    DamagedRules();
    WordsBack(DAMAGED);
    NoneElsewhere(DAMAGED);
    NoCategoryAll(GET_LCS, DAMAGED);
    OpsBack(DAMAGED);
    SetsReplay(GET_LCS, false, DAMAGED, 0);
    BothAllowed();
    ShowsLength(DAMAGED);
  }

  lemma ShowsLength(rules: seq<Rule>)
    ensures |Shows(rules)| == |rules|
  {
  }

  lemma LowerLcs()
    ensures LowRule(Rule(true, Cmd("lcs"))) == Rule(true, Cmd("lcs"))
  {
    assert Lower("lcs") == "lcs";
  }

  lemma {:induction false} GetTwiceTexts()
    ensures Updated("", PLUS_GET) == "+get"
    ensures Updated("+get", PLUS_LCS_AGET) == "+get +lcs|aget"
    ensures Updated("+get +lcs|aget", PLUS_GET) == "+lcs +get"
  {
    hide ScanAt;
    ScanCutsAnother();
    assert TextOf(PLUS_LCS_AGET.text) == "lcs|aget";
  }

  lemma {:induction false} GetTwiceBits()
    ensures Accepts(GET_LCS, Set(PLUS_GET)) && Accepts(GET_LCS, Set(PLUS_LCS_AGET))
    ensures forall bits :: ApplyBits(GET_LCS, bits, PLUS_GET) == bits + {0}
    ensures forall bits :: ApplyBits(GET_LCS, bits, PLUS_LCS_AGET) == bits
  {
    hide FindCommand, SubIds, LowRule;
    GetLcsOk();
    LowerKeeps();
    assert Fitting({0}) == {0} && Fitting({}) == {};
  }

  lemma {:induction false} GetTwiceHistory()
    ensures TextOfHistory(GET_LCS, GET_TWICE) == "+lcs +get" && BitsOfHistory(GET_LCS, GET_TWICE) == {0}
  {
    hide Accepts, Updated, ApplyBits, LowRule, BitsOfHistory, TextOfHistory;
    GetTwiceTexts();
    GetTwiceBits();
    LowerKeeps();
    var one, two := [Set(PLUS_GET)], [Set(PLUS_GET), Set(PLUS_LCS_AGET)];
    assert [] + [Set(PLUS_GET)] == one && one + [Set(PLUS_LCS_AGET)] == two && two + [Set(PLUS_GET)] == GET_TWICE;
    NoHistory(GET_LCS);
    HistoryStep(GET_LCS, [], Set(PLUS_GET), 0);
    HistoryStep(GET_LCS, one, Set(PLUS_LCS_AGET), 0);
    HistoryStep(GET_LCS, two, Set(PLUS_GET), 0);
  }

  lemma NoHistory(t: Table)
    ensures BitsOfHistory(t, []) == {} && TextOfHistory(t, []) == ""
  {
  }

  lemma {:induction false} BothAllowed()
    ensures BitsAfter(GET_LCS, false, [Rule(true, Cmd("lcs")), PLUS_GET]) == {0, 1}
  {
    hide FindCommand, SubIds;
    GetLcsOk();
    BitsSnoc(GET_LCS, false, [], Rule(true, Cmd("lcs")));
    BitsSnoc(GET_LCS, false, [Rule(true, Cmd("lcs"))], PLUS_GET);
    assert [] + [Rule(true, Cmd("lcs"))] == [Rule(true, Cmd("lcs"))]
        && [Rule(true, Cmd("lcs"))] + [PLUS_GET] == [Rule(true, Cmd("lcs")), PLUS_GET];
  }
}
