/** First arguments of a command: kept unquoted in the text of the rules, and so read back only if they are words. */
module AclArguments {
  import opened Bytes
  import opened Collections
  import opened Acl
  import opened AclText
  import opened AclHistory
  import SdsSplit

  // ---------------------------------------------------------------- the scan meets a text that is not a word

  /** A rule with a blank in it, or with a character that the kept text does not have, matches nothing. */
  lemma {:induction false} ScanUntouched(t: string, n: string, p: nat, i: nat)
    requires i < |n| && (n[i] == ' ' || n[i] !in t)
    ensures ScanAt(t, n, p) == t
    decreases if p < |t| then |t| - p else 0
  {
    hide ScanAt;
    if p >= |t| {
      ScanPast(t, n, p);
    } else {
      var end := RuleEnd(t, p + 1);
      var v := t[p + 1..end];
      assert forall j :: 0 <= j < |v| ==> v[j] == t[p + 1 + j] && v[j] in t;
      if end == |t| {
        ScanEnd(t, n, p);
        assert t[p + 1..] == v;
      } else {
        ScanStep(t, n, p, end);
        ScanUntouched(t, n, end + 1, i);
      }
    }
  }

  /** Characters that keep a string from being one word. */
  predicate Splits(c: char) {
    c in {' ', '"', '\'', '\n', '\r', '\t'}
  }

  lemma {:induction false} PrintHasNone(rules: seq<Rule>, c: char)
    requires AllPlain(rules) && Splits(c) && c != ' '
    ensures c !in Print(rules)
  {
    if rules != [] {
      assert Plain(rules[0].text);
      PrintHasNone(rules[1..], c);
    }
  }

  // ---------------------------------------------------------------- the words of the text

  lemma {:induction false} WordsAfter(rules: seq<Rule>, s: string)
    requires AllPlain(rules)
    ensures Words(Prefix(rules) + s) == if Words(s).None? then None else Some(Shows(rules) + Words(s).value)
  {
    hide Words, Show, Plain, TakenAsIs;
    if rules == [] {
      assert "" + s == s;
      assert Words(s).Some? ==> Shows(rules) + Words(s).value == Words(s).value;
    } else {
      var rest := rules[1..];
      assert Plain(rules[0].text);
      ShowIsTaken(rules[0]);
      WordsAfter(rest, s);
      assert Prefix(rules) + s == Show(rules[0]) + " " + (Prefix(rest) + s);
      WordFirst(Show(rules[0]), Prefix(rest) + s);
      if Words(s).Some? {
        assert [Show(rules[0])] + (Shows(rest) + Words(s).value) == Shows(rules) + Words(s).value;
      }
    }
  }

  lemma {:induction false} CStringLength(s: string)
    ensures |CString(s)| <= |s|
  {
    if s != "" { CStringLength(s[1..]); }
  }

  /** No word of a text is longer than the text; one as long has no blanks and no quotes. */
  lemma {:induction false} WordLength(text: string, i: nat)
    requires Words(text).Some? && i < |Words(text).value|
    ensures var w := Words(text).value[i];
            |w| <= |text| && (|w| == |text| ==> forall j :: 0 <= j < |text| ==> !Splits(text[j]))
  {
    hide CString;
    var b := ToBytes(text);
    var ws := SdsSplit.SplitArgs(b).value;
    SdsSplit.SplitLengths(b, i);
    CStringLength(ToString(ws[i]));
    if |Words(text).value[i]| == |text| {
      forall j | 0 <= j < |text| ensures !Splits(text[j]) {
        assert SdsSplit.PlainChar(b[j]);
      }
    }
  }

  lemma {:induction false} OpAt(words: seq<string>, i: nat)
    requires OpsOf(words).Some? && i < |OpsOf(words).value|
    ensures i < |words| && ParseOp(words[i]) == Some(OpsOf(words).value[i])
  {
    hide ParseOp;
    if i > 0 { OpAt(words[1..], i - 1); }
  }

  // ---------------------------------------------------------------- where a first argument comes from

  /** A first argument that is set was added by one of the operations. */
  lemma {:induction false} ArgFrom(t: Table, ops: seq<Op>, id: nat, arg: string) returns (k: nat)
    requires arg in ArgsOfHistory(t, ops, id)
    ensures k < |ops| && ops[k].Set?
    ensures var x := LowText(ops[k].rule.text); AddsTo(t, x, id) && x.arg == arg
  {
    hide Resolves, LowText, AddsTo, Resets;
    var n := |ops| - 1;
    var op := ops[n];
    if op.Set? && AddsTo(t, LowText(op.rule.text), id) && ArgOf(LowText(op.rule.text)) == arg {
      AddsArg(t, LowText(op.rule.text), id);
      k := n;
    } else {
      if op.Set? { AddsArg(t, LowText(op.rule.text), id); }
      k := ArgFrom(t, ops[..n], id, arg);
    }
  }

  function ArgOf(x: Text): string {
    if x.Pipe? then x.arg else ""
  }

  lemma AddsArg(t: Table, x: Text, id: nat)
    ensures AddsTo(t, x, id) ==> x.Pipe? && x.arg == ArgOf(x)
  {
  }

  /** A command without subcommands, and an argument that a configuration line or a client can name: a C string
      without a bar, which would be taken for the one between the two. */
  predicate FirstArg(t: Table, name: string, arg: string) {
    && var c := FindCommand(t.commands, Lower(name));
    && c.Some? && c.value.subs == [] && arg != ""
    && forall i :: 0 <= i < |arg| ==> arg[i] != '|' && arg[i] != '\0' && arg[i] as int < 256
  }

  /** Whoever adds to the same command has a name as long. */
  lemma SameName(t: Table, name: string, arg: string, x: Text)
    requires TableOk(t) && FirstArg(t, name, arg)
    requires AddsTo(t, LowText(x), FindCommand(t.commands, Lower(name)).value.id)
    ensures x.Pipe? && |x.name| == |name|
  {
  }

  lemma LowerSplits(arg: string) returns (i: nat)
    requires arg != "" && !Word(Lower(arg))
    requires forall i :: 0 <= i < |arg| ==> arg[i] != '|' && arg[i] != '\0' && arg[i] as int < 256
    ensures i < |arg| && Splits(Lower(arg)[i])
  {
    var s := Lower(arg);
    i :| 0 <= i < |s| && !(s[i] !in {' ', '|', '"', '\'', '\n', '\r', '\t', '\0'} && s[i] as int < 256);
    assert s[i] == Low(arg[i]);
  }

  // ---------------------------------------------------------------- an argument that is not a word

  function ArgRule(name: string, arg: string): Rule {
    Rule(true, Pipe(name, arg))
  }

  /** The text kept: the new rule as it is, behind what was there. */
  lemma {:induction false} KeptUnquoted(kept: seq<Rule>, name: string, arg: string)
    requires AllPlain(kept) && arg != "" && !Word(Lower(arg))
    requires forall i :: 0 <= i < |arg| ==> arg[i] != '|' && arg[i] != '\0' && arg[i] as int < 256
    ensures var r := LowRule(ArgRule(name, arg)); Updated(Print(kept), r) == Prefix(kept) + Show(r)
  {
    hide ScanAt, Lower, Show;
    var r := LowRule(ArgRule(name, arg));
    var n := TextOf(r.text);
    var i := LowerSplits(arg);
    var j := |Lower(name)| + 1 + i;
    assert n == Lower(name) + "|" + Lower(arg) && n[j] == Lower(arg)[i];
    if n[j] != ' ' { PrintHasNone(kept, n[j]); }
    ScanUntouched(Print(kept), n, 0, j);
    NothingElse(kept);
  }

  /** No word of the new rule reads back as an argument as long. */
  lemma {:induction false} NotFromNew(name: string, arg: string, i: nat, x: Text)
    requires arg != "" && !Word(Lower(arg))
    requires forall i :: 0 <= i < |arg| ==> arg[i] != '|' && arg[i] != '\0' && arg[i] as int < 256
    requires var ws := Words(Show(LowRule(ArgRule(name, arg))));
             && ws.Some? && i < |ws.value| && ParseOp(ws.value[i]).Some? && ParseOp(ws.value[i]).value.Set?
             && x == ParseOp(ws.value[i]).value.rule.text
    ensures !(x.Pipe? && |x.name| == |name| && |x.arg| == |arg|)
  {
    hide Words, ParseOp, Lower;
    var text := Show(LowRule(ArgRule(name, arg)));
    WordLength(text, i);
    TextKept(Words(text).value[i]);
    TextParts(x);
    var k := LowerSplits(arg);
    assert text == "+" + Lower(name) + "|" + Lower(arg);
    assert text[|name| + 2 + k] == Lower(arg)[k];
  }

  /** Nor does a rule kept before. */
  lemma {:induction false} NotFromKept(t: Table, kept: seq<Rule>, i: nat, arg: string)
    requires TableOk(t) && AllPlain(kept) && AllLower(kept) && AllResolve(t, kept) && i < |kept| && !Word(Lower(arg))
    ensures ParseOp(Show(kept[i])) == Some(Set(kept[i]))
    ensures var x := LowText(kept[i].text); !(x.Pipe? && x.arg == Lower(arg))
  {
    hide ParseOp, Show, TableOk, Resolves;
    NoCategoryAll(t, kept);
    assert Plain(kept[i].text) && LowRule(kept[i]) == kept[i];
    RulesBack(kept[i]);
  }

  /** An argument that is not a word is never read back: the server stops, or the text shown sets something else. */
  lemma {:induction false} NotReadBack(t: Table, front: seq<Op>, name: string, arg: string)
    requires TableOk(t) && KeptOfHistory(t, front).Some? && FirstArg(t, name, arg) && !Word(Lower(arg))
    ensures var ops := front + [Set(ArgRule(name, arg))];
            var d := Describe(t, TextOfHistory(t, ops), BitsOfHistory(t, ops));
            !(d.Shown? && SetsAgain(t, d.text, ops))
  {
    hide Words, ParseOp, Header, TextOfHistory, BitsOfHistory, ArgsOfHistory, KeptOfHistory, BitsAfter, ArgsAfter,
      Resolves, Print, Prefix, Show, TableOk, Plain, Word, LowRule, LowText, Updated, AddsTo, Elsewhere, OpsOf;
    var op := Set(ArgRule(name, arg));
    var ops, k := front + [op], KeptOfHistory(t, front).value;
    var id := FindCommand(t.commands, Lower(name)).value.id;
    var r := LowRule(ArgRule(name, arg));
    KeptAgrees(t, front);
    FirstArgAdds(t, front, name, arg);
    KeptUnquoted(k, name, arg);
    var text := TextOfHistory(t, ops);
    var d := Describe(t, text, BitsOfHistory(t, ops));
    if d.Shown? && SetsAgain(t, d.text, ops) {
      var all := RESERVED in BitsOfHistory(t, ops);
      WordsAfter(k, Show(r));
      HeaderFirst(all, text);
      var words := Words(d.text).value;
      var j := ArgFrom(t, OpsOf(words).value, id, Lower(arg));
      OpAt(words, j);
      assert words == [Header(all)] + (Shows(k) + Words(Show(r)).value);
      var x := ParseOp(words[j]).value.rule.text;
      LowLengths(x);
      SameName(t, name, arg, x);
      if 0 < j <= |k| {
        NotFromKept(t, k, j - 1, arg);
      } else if j > |k| {
        NotFromNew(name, arg, j - 1 - |k|, x);
      }
    }
  }

  lemma LowLengths(x: Text)
    ensures LowText(x).Pipe? <==> x.Pipe?
    ensures x.Pipe? ==> |LowText(x).arg| == |x.arg| && LowText(x).arg == Lower(x.arg)
  {
  }

  /** The operation is accepted, and adds the argument. */
  lemma {:induction false} FirstArgAdds(t: Table, front: seq<Op>, name: string, arg: string)
    requires FirstArg(t, name, arg)
    ensures var op := Set(ArgRule(name, arg)); var id := FindCommand(t.commands, Lower(name)).value.id;
            && Accepts(t, op) && Lower(arg) in ArgsOfHistory(t, front + [op], id)
            && TextOfHistory(t, front + [op]) == Updated(TextOfHistory(t, front), LowRule(op.rule))
  {
    hide TextOfHistory, BitsOfHistory, ArgsOfHistory, Updated, Lower, FlagOfHistory;
    var id := FindCommand(t.commands, Lower(name)).value.id;
    HistoryStep(t, front, Set(ArgRule(name, arg)), id);
  }

  // ---------------------------------------------------------------- exactly the words

  /** After any history without a damaged rule, allow a first argument, no end of the kept rules reading like it. The
      selector can be shown, and the text shown sets the same permissions, exactly when the argument is a word. */
  lemma {:induction false} ArgumentReadBackIffWord(t: Table, front: seq<Op>, name: string, arg: string)
    requires TableOk(t) && KeptOfHistory(t, front).Some? && FirstArg(t, name, arg) && Plain(Cmd(Lower(name)))
    requires forall r :: r in KeptOfHistory(t, front).value ==> TailFree(r.text, LowText(Pipe(name, arg)))
    ensures var ops := front + [Set(ArgRule(name, arg))];
            var d := Describe(t, TextOfHistory(t, ops), BitsOfHistory(t, ops));
            d.Shown? && SetsAgain(t, d.text, ops) <==> Word(Lower(arg))
  {
    hide Describe, SetsAgain, TextOfHistory, BitsOfHistory, TableOk, TailFree;
    var ops := front + [Set(ArgRule(name, arg))];
    if Word(Lower(arg)) {
      WordIsKept(t, front, name, arg);
      DescriptionSetsAgain(t, ops);
    } else {
      NotReadBack(t, front, name, arg);
    }
  }

  lemma {:induction false} WordIsKept(t: Table, front: seq<Op>, name: string, arg: string)
    requires TableOk(t) && KeptOfHistory(t, front).Some? && FirstArg(t, name, arg) && Plain(Cmd(Lower(name)))
    requires forall r :: r in KeptOfHistory(t, front).value ==> TailFree(r.text, LowText(Pipe(name, arg)))
    requires Word(Lower(arg))
    ensures KeptOfHistory(t, front + [Set(ArgRule(name, arg))]).Some?
  {
    hide TailFree, TableOk, Left, Pruned, Lower, TextOfHistory, BitsOfHistory, ArgsOfHistory, BitsAfter, ArgsAfter,
      Print;
    var ops, k := front + [Set(ArgRule(name, arg))], KeptOfHistory(t, front).value;
    var n := LowText(Pipe(name, arg));
    assert ops[..|front|] == front;
    KeptAgrees(t, front);
    assert Plain(n);
    assert forall i :: 0 <= i < |k| ==> k[i] in k;
    TailFreeLeaves(k, n);
    var left := Left(k, n).value;
    PlainParts(left, k, n);
    forall i | 0 <= i < |left| ensures Resolves(t, left[i]) {
      assert left[i] in left;
      var j :| 0 <= j < |k| && k[j] == left[i];
      assert Resolves(t, k[j]);
    }
    FirstArgAdds(t, front, name, arg);
  }

  // ---------------------------------------------------------------- one that stops the server

  /** A first argument with a blank is kept as it is, and read back as two words, the second of which is no
      operation. */
  lemma {:induction false} BlankArgumentStops()
    ensures var ops := [Set(Rule(true, Pipe("lcs", "a b")))];
            && TextOfHistory(GET_LCS, ops) == "+lcs|a b" && BitsOfHistory(GET_LCS, ops) == {}
            && Describe(GET_LCS, "+lcs|a b", {}) == Stopped
  {
    BlankHistory();
    BlankWords();
    hide Words, ParseText;
    assert OpsOf(["b"][1..]) == Some([]);
    assert ParseOp("b") == None && !Elsewhere("b") by { assert Lower("b") == "b"; }
    var words := ["+lcs|a", "b"];
    assert words[1..] == ["b"] && OpsOf(["b"]) == None && OpsOf(words) == None;
    assert !Elsewhere("+lcs|a") by { assert Lower("+lcs|a")[0] == '+'; }
  }

  lemma {:induction false} BlankWords()
    ensures Words("+lcs|a b") == Some(["+lcs|a", "b"])
  {
    hide Words;
    assert TakenAsIs("+lcs|a") && TakenAsIs("b");
    WordLast("b");
    WordFirst("+lcs|a", "b");
    assert "+lcs|a" + " " + "b" == "+lcs|a b" && ["+lcs|a"] + ["b"] == ["+lcs|a", "b"];
  }

  lemma {:induction false} BlankHistory()
    ensures var ops := [Set(Rule(true, Pipe("lcs", "a b")))];
            TextOfHistory(GET_LCS, ops) == "+lcs|a b" && BitsOfHistory(GET_LCS, ops) == {}
  {
    hide Accepts, Updated, ApplyBits, BitsOfHistory, TextOfHistory, LowRule;
    var r := Rule(true, Pipe("lcs", "a b"));
    NoHistory(GET_LCS);
    BlankAccepted(r);
    assert [] + [Set(r)] == [Set(r)];
    HistoryStep(GET_LCS, [], Set(r), 0);
  }

  lemma {:induction false} BlankAccepted(r: Rule)
    requires r == Rule(true, Pipe("lcs", "a b"))
    ensures LowRule(r) == r && Accepts(GET_LCS, Set(r)) && ApplyBits(GET_LCS, {}, r) == {}
    ensures Updated("", r) == "+lcs|a b"
  {
    hide FindCommand, ScanAt, Lower;
    GetLcsOk();
    BlankLower();
    assert TextOf(r.text) == "lcs|a b";
    ScanPast("", "lcs|a b", 0);
  }

  lemma BlankLower()
    ensures Lower("lcs") == "lcs" && Lower("a b") == "a b"
  {
  }
}
