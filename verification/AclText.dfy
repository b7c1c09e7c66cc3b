/** The kept ACL command rules as the source keeps them: one text, searched and cut in place. */
module AclText {
  import opened Collections
  import opened Acl

  // ---------------------------------------------------------------- rules as text

  function TextOf(x: Text): string {
    match x
    case Cmd(name) => name
    case Pipe(name, arg) => name + "|" + arg
    case Category(cat) => "@" + cat
  }

  function Show(r: Rule): (s: string)
    ensures |s| >= 1
  {
    [if r.allow then '+' else '-'] + TextOf(r.text)
  }

  /** command_rules: the rules in order, one space between them. */
  function Print(rules: seq<Rule>): string {
    if rules == [] then ""
    else if |rules| == 1 then Show(rules[0])
    else Show(rules[0]) + " " + Print(rules[1..])
  }

  /** The text before a further rule. */
  function Prefix(kept: seq<Rule>): string {
    if kept == [] then "" else Print(kept) + " "
  }

  predicate IsSign(c: char) {
    c == '+' || c == '-'
  }

  /** A name or argument that stays one word when the text is split again. */
  predicate Word(s: string) {
    s != "" && forall i :: 0 <= i < |s| ==> s[i] !in {' ', '|', '"', '\'', '\n', '\r', '\t', '\0'} && s[i] as int < 256
  }

  /** A rule text that can be read back: its parts are words, and a command is not taken for something else. */
  predicate Plain(x: Text) {
    match x
    case Cmd(name) => Word(name) && !IsSign(name[0]) && name[0] != '@'
    case Pipe(name, arg) => Word(name) && !IsSign(name[0]) && name[0] != '@' && Word(arg)
    case Category(cat) => Word(cat)
  }

  // ---------------------------------------------------------------- the scan on the text

  /** Where the next space is, or the end. */
  function RuleEnd(t: string, from: nat): (e: nat)
    requires from <= |t|
    ensures from <= e <= |t| && (e < |t| ==> t[e] == ' ') && forall i :: from <= i < e ==> t[i] != ' '
    decreases |t| - from
  {
    if from == |t| || t[from] == ' ' then from else RuleEnd(t, from + 1)
  }

  /** Exact match, or a rule about an argument of the command. */
  predicate Matches(existing: string, n: string) {
    n <= existing && (|existing| == |n| || existing[|n|] == '|')
  }

  /** ACLSelectorRemoveCommandRule from offset p on. After a removal it goes on where the removed rule used to
      end, in the text that has moved. */
  function ScanAt(t: string, n: string, p: nat): string
    decreases if p < |t| then |t| - p else 0
  {
    if p >= |t| then t
    else
      var end := RuleEnd(t, p + 1);
      if end == |t| then
        if Matches(t[p + 1..end], n) then t[..if p == 0 then 0 else p - 1] else t
      else if Matches(t[p + 1..end], n) then ScanAt(t[..p] + t[end + 1..], n, end + 1)
      else ScanAt(t, n, end + 1)
  }

  lemma {:induction false} RuleEndIs(t: string, from: nat, k: nat)
    requires from <= k <= |t| && (k < |t| ==> t[k] == ' ') && forall i :: from <= i < k ==> t[i] != ' '
    ensures RuleEnd(t, from) == k
  {
    var e := RuleEnd(t, from);
  }

  lemma {:induction false} ScanStep(t: string, n: string, p: nat, end: nat)
    requires p < end < |t| && t[end] == ' ' && forall i :: p < i < end ==> t[i] != ' '
    ensures ScanAt(t, n, p) == if Matches(t[p + 1..end], n) then ScanAt(t[..p] + t[end + 1..], n, end + 1)
              else ScanAt(t, n, end + 1)
  {
    hide Matches;
    RuleEndIs(t, p + 1, end);
  }

  lemma {:induction false} ScanPast(t: string, n: string, p: nat)
    requires p >= |t|
    ensures ScanAt(t, n, p) == t
  {
  }

  /** The last turn. */
  lemma {:induction false} ScanEnd(t: string, n: string, p: nat)
    requires p < |t| && forall i :: p < i < |t| ==> t[i] != ' '
    ensures ScanAt(t, n, p) == if Matches(t[p + 1..], n) then t[..if p == 0 then 0 else p - 1] else t
  {
    hide Matches;
    RuleEndIs(t, p + 1, |t|);
    assert t[p + 1..|t|] == t[p + 1..];
  }

  /** Whatever is matched from p on, the text up to one character before p stays. */
  lemma {:induction false} ScanKeepsFront(t: string, n: string, p: nat, k: nat)
    requires k < p && k <= |t|
    ensures var r := ScanAt(t, n, p); |r| >= k && r[..k] == t[..k]
    decreases if p < |t| then |t| - p else 0
  {
    hide Matches, ScanAt;
    if p >= |t| {
      ScanPast(t, n, p);
    } else {
      var end := RuleEnd(t, p + 1);
      if end == |t| {
        ScanEnd(t, n, p);
      } else {
        ScanStep(t, n, p, end);
        var t' := if Matches(t[p + 1..end], n) then t[..p] + t[end + 1..] else t;
        assert t'[..k] == t[..k];
        ScanKeepsFront(t', n, end + 1, k);
      }
    }
  }

  /** One turn of the scan inside the text x + v + " " + y, at the start of v. */
  lemma {:induction false} ScanInside(x: string, v: string, y: string, n: string)
    requires v != "" && forall i :: 1 <= i < |v| ==> v[i] != ' '
    ensures ScanAt(x + v + " " + y, n, |x|)
         == ScanAt(if Matches(v[1..], n) then x + y else x + v + " " + y, n, |x| + |v| + 1)
  {
    hide Matches, ScanAt;
    var t, end := x + v + " " + y, |x| + |v|;
    assert forall i :: |x| < i < end ==> t[i] == v[i - |x|];
    ScanStep(t, n, |x|, end);
    assert t[|x| + 1..end] == v[1..];
    assert t[..|x|] == x && t[end + 1..] == y;
  }

  /** The last turn, on the text x + v. */
  lemma {:induction false} ScanLast(x: string, v: string, n: string)
    requires v != "" && forall i :: 1 <= i < |v| ==> v[i] != ' '
    ensures ScanAt(x + v, n, |x|) == if Matches(v[1..], n) then x[..if x == "" then 0 else |x| - 1] else x + v
  {
    hide Matches, ScanAt;
    var t := x + v;
    assert forall i :: |x| + 1 <= i < |t| ==> t[i] == v[i - |x|];
    ScanEnd(t, n, |x|);
    assert t[|x| + 1..] == v[1..];
  }

  // ---------------------------------------------------------------- the scan on the rules

  /** What the scan comes to: whole rules are dropped, or the first cut in the middle of a rule, of which `at`
      characters are before the place where the scan took it up. */
  datatype Walk = Whole(left: seq<Rule>) | Cut(before: seq<Rule>, rule: Rule, at: nat, after: seq<Rule>)

  /** At the start of a rule. */
  function WalkFrom(kept: seq<Rule>, rest: seq<Rule>, n: Text): Walk
    decreases |rest|, 0
  {
    if rest == [] then Whole(kept)
    else if !Covers(n, rest[0].text) then WalkFrom(kept + [rest[0]], rest[1..], n)
    else Resume(kept, rest[1..], |Show(rest[0])| + 1, n)
  }

  /** As many characters into the remaining text as the dropped rule took up. Rules passed over are kept unseen. */
  function Resume(kept: seq<Rule>, rest: seq<Rule>, skip: nat, n: Text): Walk
    decreases |rest|, 1
  {
    if rest == [] then Whole(kept)
    else if skip == 0 then WalkFrom(kept, rest, n)
    else
      var first := Show(rest[0]);
      if skip < |first| then
        if Matches(first[skip + 1..], TextOf(n)) then Cut(kept, rest[0], skip, rest[1..])
        else WalkFrom(kept + [rest[0]], rest[1..], n)
      else if skip > |first| then Resume(kept + [rest[0]], rest[1..], skip - |first| - 1, n)
      else if |rest| == 1 then Whole(kept + rest)
      else WalkFrom(kept + rest[..2], rest[2..], n)
  }

  /** The text the scan ends with, when it meets the first cut. */
  function Outcome(w: Walk, n: string): string
    requires w.Cut? ==> w.at <= |Show(w.rule)|
  {
    match w
    case Whole(left) => Print(left)
    case Cut(before, rule, at, after) =>
      var head := Prefix(before) + Show(rule)[..at];
      if after == [] then head[..if head == "" then 0 else |head| - 1]
      else ScanAt(head + Print(after), n, |Prefix(before)| + |Show(rule)| + 1)
  }

  /** A cut is inside its rule, and what follows it there matches. */
  predicate CutOk(w: Walk, n: string) {
    w.Cut? ==> 0 < w.at < |Show(w.rule)| && Matches(Show(w.rule)[w.at + 1..], n)
  }

  lemma {:induction false} CutInRule(kept: seq<Rule>, rest: seq<Rule>, skip: nat, n: Text)
    ensures CutOk(WalkFrom(kept, rest, n), TextOf(n))
    ensures CutOk(Resume(kept, rest, skip, n), TextOf(n))
    decreases |rest|
  {
    hide Show, Matches, Covers;
    if rest != [] {
      var l := |Show(rest[0])|;
      CutInRule(kept + [rest[0]], rest[1..], if skip > l then skip - l - 1 else 0, n);
      CutInRule(kept, rest[1..], l + 1, n);
      if |rest| > 1 { CutInRule(kept + rest[..2], rest[2..], 0, n); }
    }
  }

  lemma {:induction false} ShowIsWord(r: Rule)
    requires Plain(r.text)
    ensures forall i :: 0 <= i < |Show(r)| ==> Show(r)[i] != ' '
    ensures |Show(r)| >= 2 && Show(r)[1..] == TextOf(r.text)
  {
  }

  /** The only bar of a rule text is the one before its argument. */
  lemma {:induction false} OnlyBar(x: Text, i: nat)
    requires Plain(x) && i < |TextOf(x)|
    ensures TextOf(x)[i] == '|' <==> x.Pipe? && i == |x.name|
  {
    match x
    case Cmd(_) =>
    case Pipe(name, arg) =>
      if i > |name| { assert TextOf(x)[i] == arg[i - |name| - 1]; }
    case Category(cat) =>
      if i > 0 { assert TextOf(x)[i] == cat[i - 1]; }
  }

  lemma {:induction false} TextParts(x: Text)
    ensures x.Pipe? ==>
              |TextOf(x)| > |x.name| && TextOf(x)[|x.name|] == '|' && TextOf(x)[..|x.name|] == x.name
                  && TextOf(x)[|x.name| + 1..] == x.arg
    ensures x.Category? ==> TextOf(x)[0] == '@' && TextOf(x)[1..] == x.cat
  {
  }

  lemma {:induction false} TextInjective(x: Text, y: Text)
    requires Plain(x) && Plain(y) && TextOf(x) == TextOf(y)
    ensures x == y
  {
    TextParts(x);
    TextParts(y);
    if x.Pipe? {
      OnlyBar(y, |x.name|);
    } else if y.Pipe? {
      OnlyBar(x, |y.name|);
    }
  }

  /** Texts match exactly when the rule is covered. */
  lemma {:induction false} MatchIsCover(n: Text, x: Text)
    requires Plain(n) && Plain(x)
    ensures Matches(TextOf(x), TextOf(n)) <==> Covers(n, x)
  {
    var a, b := TextOf(x), TextOf(n);
    TextParts(x);
    TextParts(n);
    if Matches(a, b) {
      if |a| == |b| {
        TextInjective(x, n);
      } else {
        OnlyBar(x, |b|);
        assert b == x.name;
      }
    }
  }

  predicate AllPlain(rules: seq<Rule>) {
    forall i :: 0 <= i < |rules| ==> Plain(rules[i].text)
  }

  lemma {:induction false} PrintSnoc(kept: seq<Rule>, r: Rule)
    ensures Print(kept + [r]) == Prefix(kept) + Show(r)
  {
    hide Show;
    if kept != [] {
      assert (kept + [r])[1..] == kept[1..] + [r];
      PrintSnoc(kept[1..], r);
    }
  }

  /** The rule at the front of the remaining text, and what comes after it. */
  lemma {:induction false} PrintFirst(kept: seq<Rule>, rest: seq<Rule>)
    requires rest != []
    ensures |rest| == 1 ==> Print(rest) == Show(rest[0]) && Prefix(kept) + Print(rest) == Print(kept + [rest[0]])
    ensures |rest| > 1 ==>
              Prefix(kept) + Print(rest) == Prefix(kept) + Show(rest[0]) + " " + Print(rest[1..])
                  == Prefix(kept + [rest[0]]) + Print(rest[1..])
    ensures |Prefix(kept + [rest[0]])| == |Prefix(kept)| + |Show(rest[0])| + 1
  {
    hide Show;
    PrintSnoc(kept, rest[0]);
  }

  lemma {:induction false} CutBack(kept: seq<Rule>)
    ensures var x := Prefix(kept); x[..if x == "" then 0 else |x| - 1] == Print(kept)
  {
  }

  /** The scan of the text is the walk over the rules, up to the first cut. */
  lemma {:induction false} WalkScans(kept: seq<Rule>, rest: seq<Rule>, n: Text)
    requires rest != [] && AllPlain(rest) && Plain(n)
    ensures var w := WalkFrom(kept, rest, n);
            && (w.Cut? ==> w.at <= |Show(w.rule)|)
            && ScanAt(Prefix(kept) + Print(rest), TextOf(n), |Prefix(kept)|) == Outcome(w, TextOf(n))
    decreases |rest|, 0
  {
    hide Show, Print, Prefix, ScanAt, Matches, Covers, Plain, Outcome;
    CutInRule(kept, rest, 0, n);
    var x, v, more := Prefix(kept), Show(rest[0]), rest[1..];
    assert Plain(rest[0].text) && AllPlain(more);
    ShowIsWord(rest[0]);
    MatchIsCover(n, rest[0].text);
    PrintFirst(kept, rest);
    if more == [] {
      ScanLast(x, v, TextOf(n));
      CutBack(kept);
      OutcomeWhole(kept, TextOf(n));
      OutcomeWhole(kept + [rest[0]], TextOf(n));
    } else {
      ScanInside(x, v, Print(more), TextOf(n));
      if Covers(n, rest[0].text) {
        ResumeScans(kept, more, |v| + 1, n);
      } else {
        WalkScans(kept + [rest[0]], more, n);
      }
    }
  }

  lemma {:induction false} OutcomeWhole(left: seq<Rule>, n: string)
    ensures Outcome(Whole(left), n) == Print(left)
  {
  }

  lemma {:induction false} ResumeScans(kept: seq<Rule>, rest: seq<Rule>, skip: nat, n: Text)
    requires rest != [] && AllPlain(rest) && Plain(n)
    ensures var w := Resume(kept, rest, skip, n);
            && (w.Cut? ==> w.at <= |Show(w.rule)|)
            && ScanAt(Prefix(kept) + Print(rest), TextOf(n), |Prefix(kept)| + skip) == Outcome(w, TextOf(n))
    decreases |rest|, 1
  {
    hide Show, Print, Prefix, ScanAt, Matches, Covers, Plain, Outcome;
    CutInRule(kept, rest, skip, n);
    var v, more := Show(rest[0]), rest[1..];
    assert Plain(rest[0].text) && AllPlain(more);
    PrintFirst(kept, rest);
    if skip == 0 {
      WalkScans(kept, rest, n);
    } else if skip < |v| {
      ResumeInside(kept, rest, skip, n);
    } else if skip > |v| {
      if more == [] {
        ScanPast(Print(kept + [rest[0]]), TextOf(n), |Prefix(kept)| + skip);
        OutcomeWhole(kept + [rest[0]], TextOf(n));
      } else {
        ResumeScans(kept + [rest[0]], more, skip - |v| - 1, n);
      }
    } else if more == [] {
      ScanPast(Print(kept + [rest[0]]), TextOf(n), |Prefix(kept)| + skip);
      OutcomeWhole(kept + rest, TextOf(n));
      assert kept + rest == kept + [rest[0]];
    } else {
      ResumeOnSpace(kept, rest, n);
    }
  }

  /** Taken up in the middle of a rule. */
  lemma {:induction false} ResumeInside(kept: seq<Rule>, rest: seq<Rule>, skip: nat, n: Text)
    requires rest != [] && AllPlain(rest) && Plain(n) && 0 < skip < |Show(rest[0])|
    ensures var w := Resume(kept, rest, skip, n);
            && (w.Cut? ==> w.at <= |Show(w.rule)|)
            && ScanAt(Prefix(kept) + Print(rest), TextOf(n), |Prefix(kept)| + skip) == Outcome(w, TextOf(n))
    decreases |rest|, 0
  {
    hide Show, Print, Prefix, ScanAt, Matches, Covers, Plain, Outcome, WalkFrom;
    CutInRule(kept, rest, skip, n);
    assert Plain(rest[0].text) && AllPlain(rest[1..]);
    InsideRule(kept, rest, skip, TextOf(n));
    OutcomeWhole(kept + [rest[0]], TextOf(n));
    WalkNothing(kept + [rest[0]], [], n);
    if rest[1..] != [] && !Matches(Show(rest[0])[skip + 1..], TextOf(n)) {
      WalkScans(kept + [rest[0]], rest[1..], n);
    }
  }

  /** One turn of the scan there. */
  lemma {:induction false} InsideRule(kept: seq<Rule>, rest: seq<Rule>, skip: nat, n: string)
    requires rest != [] && Plain(rest[0].text) && 0 < skip < |Show(rest[0])|
    ensures var more := rest[1..]; var longer := kept + [rest[0]];
            ScanAt(Prefix(kept) + Print(rest), n, |Prefix(kept)| + skip) ==
            if Matches(Show(rest[0])[skip + 1..], n) then Outcome(Cut(kept, rest[0], skip, more), n)
            else if more == [] then Print(longer)
            else ScanAt(Prefix(longer) + Print(more), n, |Prefix(longer)|)
  {
    hide Show, Print, Prefix, ScanAt, Matches, Plain, Outcome;
    var x, v, more := Prefix(kept), Show(rest[0]), rest[1..];
    ShowIsWord(rest[0]);
    PrintFirst(kept, rest);
    var x', v' := x + v[..skip], v[skip..];
    assert x + v == x' + v' && v'[1..] == v[skip + 1..];
    OutcomeCut(kept, rest[0], skip, more, n);
    if more == [] {
      ScanLast(x', v', n);
    } else {
      ScanInside(x', v', Print(more), n);
    }
  }

  lemma {:induction false} OutcomeCut(before: seq<Rule>, rule: Rule, at: nat, after: seq<Rule>, n: string)
    requires 0 < at <= |Show(rule)|
    ensures var head := Prefix(before) + Show(rule)[..at];
            Outcome(Cut(before, rule, at, after), n) ==
            if after == [] then head[..|head| - 1]
                else ScanAt(head + Print(after), n, |Prefix(before)| + |Show(rule)| + 1)
  {
    hide ScanAt;
  }

  /** Taken up on the space between two rules: the second is compared together with its sign. */
  lemma {:induction false} ResumeOnSpace(kept: seq<Rule>, rest: seq<Rule>, n: Text)
    requires |rest| > 1 && AllPlain(rest) && Plain(n)
    ensures var w := WalkFrom(kept + rest[..2], rest[2..], n);
            && (w.Cut? ==> w.at <= |Show(w.rule)|)
            && ScanAt(Prefix(kept) + Print(rest), TextOf(n), |Prefix(kept)| + |Show(rest[0])|) == Outcome(w, TextOf(n))
    decreases |rest|, 0
  {
    hide Show, Print, Prefix, ScanAt, Matches, Covers, Plain, Outcome, WalkFrom;
    CutInRule(kept + rest[..2], rest[2..], 0, n);
    assert Plain(rest[1].text);
    OnSpace(kept, rest, n);
    if |rest| == 2 {
      WalkNothing(kept + rest[..2], rest[2..], n);
    } else {
      WalkScans(kept + rest[..2], rest[2..], n);
    }
  }

  lemma {:induction false} WalkNothing(kept: seq<Rule>, rest: seq<Rule>, n: Text)
    requires rest == []
    ensures WalkFrom(kept, rest, n) == Whole(kept) && Outcome(Whole(kept), TextOf(n)) == Print(kept)
  {
  }

  lemma {:induction false} OnSpace(kept: seq<Rule>, rest: seq<Rule>, n: Text)
    requires |rest| > 1 && Plain(rest[1].text) && Plain(n)
    ensures var two := kept + rest[..2];
            ScanAt(Prefix(kept) + Print(rest), TextOf(n), |Prefix(kept)| + |Show(rest[0])|) ==
            if |rest| == 2 then Print(two) else ScanAt(Prefix(two) + Print(rest[2..]), TextOf(n), |Prefix(two)|)
  {
    hide *;
    var x, v, second := Prefix(kept), Show(rest[0]), Show(rest[1]);
    assert rest[1..][0] == rest[1] && rest[1..][1..] == rest[2..] && kept + [rest[0]] + [rest[1]] == kept + rest[..2];
    ShowIsWord(rest[1]);
    SignApart(rest[1], n);
    PrintFirst(kept, rest);
    PrintFirst(kept + [rest[0]], rest[1..]);
    if |rest| == 2 {
      SpaceLast(x, v, second, TextOf(n));
    } else {
      PrintMore(rest[1..]);
      SpaceInside(x, v, second, Print(rest[2..]), TextOf(n));
    }
  }

  lemma {:induction false} SpaceLast(x: string, v: string, second: string, n: string)
    requires second != "" && !Matches(second, n) && forall i :: 0 <= i < |second| ==> second[i] != ' '
    ensures ScanAt(x + v + " " + second, n, |x| + |v|) == x + v + " " + second
  {
    hide ScanAt, Matches;
    var u := " " + second;
    assert u[1..] == second && x + v + " " + second == (x + v) + u;
    ScanLast(x + v, u, n);
  }

  lemma {:induction false} SpaceInside(x: string, v: string, second: string, more: string, n: string)
    requires second != "" && !Matches(second, n) && forall i :: 0 <= i < |second| ==> second[i] != ' '
    ensures var t := x + v + " " + (second + " " + more);
            ScanAt(t, n, |x| + |v|) == ScanAt(t, n, |x| + |v| + 1 + |second| + 1)
  {
    hide ScanAt, Matches;
    var u := " " + second;
    assert u[1..] == second;
    TwoWords(x, v, second, more, second + " " + more);
    ScanInside(x + v, u, more, n);
  }

  lemma {:induction false} PrintMore(rules: seq<Rule>)
    requires |rules| > 1
    ensures Print(rules) == Show(rules[0]) + " " + Print(rules[1..])
  {
  }

  lemma {:induction false} TwoWords(x: string, v: string, second: string, more: string, tail: string)
    requires tail == second + " " + more
    ensures x + v + " " + tail == (x + v) + (" " + second) + " " + more
  {
  }

  lemma {:induction false} SignApart(r: Rule, n: Text)
    requires Plain(n)
    ensures !Matches(Show(r), TextOf(n))
  {
    assert IsSign(Show(r)[0]) && !IsSign(TextOf(n)[0]);
  }

  // ---------------------------------------------------------------- what is left

  /** The walk drops covered rules only, and keeps the rest in order. */
  lemma {:induction false} WalkPrunes(kept: seq<Rule>, rest: seq<Rule>, n: Text)
    ensures WalkLeaves(WalkFrom(kept, rest, n), kept, rest, n)
    decreases |rest|, 0
  {
    hide Show, Matches, Covers, Resume, Pruned;
    if rest == [] {
      LeavesAll(kept, rest, n);
    } else if Covers(n, rest[0].text) {
      ResumePrunes(kept, rest[1..], |Show(rest[0])| + 1, n);
      LeavesDropped(Resume(kept, rest[1..], |Show(rest[0])| + 1, n), kept, rest, n);
    } else {
      WalkPrunes(kept + [rest[0]], rest[1..], n);
      LeavesFirst(WalkFrom(kept + [rest[0]], rest[1..], n), kept, rest, n);
    }
  }

  lemma {:induction false} ResumePrunes(kept: seq<Rule>, rest: seq<Rule>, skip: nat, n: Text)
    ensures WalkLeaves(Resume(kept, rest, skip, n), kept, rest, n)
    decreases |rest|, 1
  {
    hide Show, Matches, Covers, WalkFrom, Pruned, WalkLeaves;
    LeavesAll(kept, rest, n);
    if rest == [] {
      assert kept + rest == kept;
    } else if skip == 0 {
      WalkPrunes(kept, rest, n);
    } else {
      var more, l := rest[1..], |Show(rest[0])|;
      if skip < l {
        LeavesCut(kept, rest, skip, n);
        WalkPrunes(kept + [rest[0]], more, n);
        LeavesFirst(WalkFrom(kept + [rest[0]], more, n), kept, rest, n);
      } else if skip > l {
        ResumePrunes(kept + [rest[0]], more, skip - l - 1, n);
        LeavesFirst(Resume(kept + [rest[0]], more, skip - l - 1, n), kept, rest, n);
      } else if |rest| > 1 {
        var w := WalkFrom(kept + rest[..2], rest[2..], n);
        WalkPrunes(kept + rest[..2], rest[2..], n);
        assert more[0] == rest[1] && more[1..] == rest[2..] && kept + [rest[0]] + [more[0]] == kept + rest[..2];
        LeavesFirst(w, kept + [rest[0]], more, n);
        LeavesFirst(w, kept, rest, n);
      }
    }
  }

  lemma {:induction false} LeavesAll(kept: seq<Rule>, rest: seq<Rule>, n: Text)
    ensures WalkLeaves(Whole(kept + rest), kept, rest, n)
    ensures rest == [] ==> WalkLeaves(Whole(kept), kept, rest, n)
  {
    PrunedSelf(rest, n);
    assert (kept + rest)[|kept|..] == rest;
  }

  /** What a walk from here has to do with the rules: a pruned list, or the same uncovered rules around the cut. */
  ghost predicate WalkLeaves(w: Walk, kept: seq<Rule>, rest: seq<Rule>, n: Text) {
    match w
    case Whole(left) => |left| >= |kept| && left[..|kept|] == kept && Pruned(rest, left[|kept|..], n)
    case Cut(before, rule, at, after) =>
      |before| >= |kept| && before[..|kept|] == kept && Pruned(rest, before[|kept|..] + [rule] + after, n)
  }

  lemma {:induction false} LeavesFirst(w: Walk, kept: seq<Rule>, rest: seq<Rule>, n: Text)
    requires rest != [] && WalkLeaves(w, kept + [rest[0]], rest[1..], n)
    ensures WalkLeaves(w, kept, rest, n)
  {
    var k := |kept|;
    match w
    case Whole(left) =>
      assert left[k] == left[..k + 1][k] == rest[0];
      assert left[..k] == left[..k + 1][..k];
      assert left[k..][1..] == left[k + 1..];
    case Cut(before, rule, at, after) =>
      assert before[k] == before[..k + 1][k] == rest[0];
      assert before[..k] == before[..k + 1][..k];
      assert (before[k..] + [rule] + after)[1..] == before[k + 1..] + [rule] + after;
  }

  lemma {:induction false} LeavesDropped(w: Walk, kept: seq<Rule>, rest: seq<Rule>, n: Text)
    requires rest != [] && Covers(n, rest[0].text) && WalkLeaves(w, kept, rest[1..], n)
    ensures WalkLeaves(w, kept, rest, n)
  {
  }

  lemma {:induction false} LeavesCut(kept: seq<Rule>, rest: seq<Rule>, at: nat, n: Text)
    requires rest != []
    ensures WalkLeaves(Cut(kept, rest[0], at, rest[1..]), kept, rest, n)
  {
    PrunedSelf(rest, n);
    assert kept[|kept|..] + [rest[0]] + rest[1..] == rest;
  }

  lemma {:induction false} PrunedSelf(rules: seq<Rule>, n: Text)
    ensures Pruned(rules, rules, n)
  {
    if rules != [] { PrunedSelf(rules[1..], n); }
  }

  /** The rules that `n` does not cover, in order. */
  function Uncovered(rules: seq<Rule>, n: Text): seq<Rule> {
    if rules == [] then [] else (if Covers(n, rules[0].text) then [] else [rules[0]]) + Uncovered(rules[1..], n)
  }

  lemma {:induction false} PrunedUncovered(rules: seq<Rule>, kept: seq<Rule>, n: Text)
    requires Pruned(rules, kept, n)
    ensures Uncovered(kept, n) == Uncovered(rules, n)
    decreases |rules|
  {
    if rules != [] {
      if kept != [] && kept[0] == rules[0] && Pruned(rules[1..], kept[1..], n) {
        PrunedUncovered(rules[1..], kept[1..], n);
      } else {
        PrunedUncovered(rules[1..], kept, n);
      }
    }
  }

  lemma {:induction false} UncoveredConcat(a: seq<Rule>, b: seq<Rule>, n: Text)
    ensures Uncovered(a + b, n) == Uncovered(a, n) + Uncovered(b, n)
  {
    if a == [] {
      assert a + b == b;
    } else {
      assert (a + b)[1..] == a[1..] + b;
      UncoveredConcat(a[1..], b, n);
    }
  }

  lemma {:induction false} UncoveredIsPruned(rules: seq<Rule>, n: Text)
    ensures Pruned(rules, Uncovered(rules, n), n)
  {
    if rules != [] {
      UncoveredIsPruned(rules[1..], n);
      if Covers(n, rules[0].text) {
        assert Uncovered(rules, n) == Uncovered(rules[1..], n);
      } else {
        assert Uncovered(rules, n)[1..] == Uncovered(rules[1..], n);
      }
    }
  }

  /** Lists with the same uncovered rules give the same permissions once the new rule is added. */
  lemma {:induction false} UncoveredReplay(t: Table, all: bool, a: seq<Rule>, b: seq<Rule>, n: Rule)
    requires TableOk(t) && Uncovered(a, n.text) == Uncovered(b, n.text)
    ensures BitsAfter(t, all, a + [n]) == BitsAfter(t, all, b + [n])
    ensures forall id: nat :: ArgsAfter(t, a + [n], id) == ArgsAfter(t, b + [n], id)
  {
    hide *;
    UncoveredIsPruned(a, n.text);
    UncoveredIsPruned(b, n.text);
    ReplayAfterPrune(t, all, a, Uncovered(a, n.text), n);
    ReplayAfterPrune(t, all, b, Uncovered(b, n.text), n);
  }

  /** What the scan leaves as rules, if it does: everything when no rule is cut; and when the only cut is in the last
      rule, an argument of the new command, and leaves the command's name whole. */
  function Left(rules: seq<Rule>, n: Text): Option<seq<Rule>> {
    match WalkFrom([], rules, n)
    case Whole(left) => Some(left)
    case Cut(before, rule, at, after) =>
      if after == [] && n.Cmd? && rule.text.Pipe? && rule.text.name == n.name && |n.name| + 2 <= at < |Show(rule)|
          && at != |n.name| + 3 then
        Some(before + [LuckyRule(rule, at, n)])
      else None
  }

  lemma {:induction false} PlainParts(kept: seq<Rule>, rules: seq<Rule>, n: Text)
    requires Pruned(rules, kept, n)
    ensures forall r :: r in kept ==> r in rules
    decreases |rules|
  {
    if rules != [] {
      if kept != [] && kept[0] == rules[0] && Pruned(rules[1..], kept[1..], n) {
        PlainParts(kept[1..], rules[1..], n);
        assert kept == [kept[0]] + kept[1..] && rules == [rules[0]] + rules[1..];
      } else {
        PlainParts(kept, rules[1..], n);
      }
    }
  }

  lemma {:induction false} AllPlainOf(part: seq<Rule>, rules: seq<Rule>)
    requires AllPlain(rules) && forall r :: r in part ==> r in rules
    ensures AllPlain(part)
  {
    forall i | 0 <= i < |part| ensures Plain(part[i].text) {
      assert part[i] in part;
    }
  }

  /** Facts about the walk from the first rule on. */
  lemma {:induction false} WalkFacts(rules: seq<Rule>, n: Text) returns (w: Walk)
    requires AllPlain(rules) && Plain(n)
    ensures w == WalkFrom([], rules, n)
    ensures w.Whole? ==> Pruned(rules, w.left, n)
    ensures CutOk(w, TextOf(n)) && (w.Cut? ==> Pruned(rules, w.before + [w.rule] + w.after, n))
    ensures ScanAt(Print(rules), TextOf(n), 0) == Outcome(w, TextOf(n))
  {
    hide ScanAt, Print, Prefix, Show, TextOf, WalkFrom, Plain, Outcome, Pruned, WalkLeaves, Matches;
    w := WalkFrom([], rules, n);
    CutInRule([], rules, 0, n);
    WalkPrunes([], rules, n);
    LeavesFromStart(w, rules, n);
    NothingPrinted();
    if rules == [] {
      WalkNothing([], rules, n);
      ScanPast("", TextOf(n), 0);
    } else {
      WalkScans([], rules, n);
      assert "" + Print(rules) == Print(rules);
    }
  }

  lemma {:induction false} NothingPrinted()
    ensures Print([]) == "" && Prefix([]) == ""
  {
  }

  lemma {:induction false} LeavesFromStart(w: Walk, rules: seq<Rule>, n: Text)
    requires WalkLeaves(w, [], rules, n)
    ensures w.Whole? ==> Pruned(rules, w.left, n)
    ensures w.Cut? ==> Pruned(rules, w.before + [w.rule] + w.after, n)
  {
    match w
    case Whole(left) => assert left[0..] == left;
    case Cut(before, rule, at, after) => assert before[0..] == before;
  }

  /** When something is left as rules, the text is their print, and the uncovered rules are all there in order. */
  lemma {:induction false} LeftIsText(rules: seq<Rule>, n: Text)
    requires AllPlain(rules) && Plain(n) && Left(rules, n).Some?
    ensures var left := Left(rules, n).value;
            && ScanAt(Print(rules), TextOf(n), 0) == Print(left) && AllPlain(left)
            && Uncovered(left, n) == Uncovered(rules, n)
  {
    hide ScanAt, Print, Prefix, Show, TextOf, WalkFrom, Plain, Uncovered, Outcome, Pruned;
    var w := WalkFacts(rules, n);
    match w
    case Whole(left) =>
      OutcomeWhole(left, TextOf(n));
      PrunedUncovered(rules, left, n);
      PlainParts(left, rules, n);
      AllPlainOf(left, rules);
    case Cut(before, rule, at, after) =>
      PlainParts(before + [rule] + after, rules, n);
      AllPlainOf(before + [rule] + after, rules);
      assert rule in before + [rule] + after && before + [rule] + after == before + [rule];
      PrunedUncovered(rules, before + [rule], n);
      LuckyCut(before, rule, at, n);
      AllPlainOf(before, before + [rule] + after);
      OutcomeCut(before, rule, at, after, TextOf(n));
  }

  /** No end of the one text reads like the other rule, or like an argument of it. */
  predicate TailFree(x: Text, n: Text) {
    forall k :: 1 <= k < |TextOf(x)| ==> !Matches(TextOf(x)[k..], TextOf(n))
  }

  /** Then nothing is cut, and only covered rules go. */
  lemma {:induction false} TailFreeLeaves(rules: seq<Rule>, n: Text)
    requires AllPlain(rules) && Plain(n) && forall i :: 0 <= i < |rules| ==> TailFree(rules[i].text, n)
    ensures Left(rules, n).Some? && Pruned(rules, Left(rules, n).value, n)
  {
    hide ScanAt, Print, WalkFrom, Plain, Outcome, Pruned, Matches, TailFree;
    var w := WalkFacts(rules, n);
    if w.Cut? {
      var all := w.before + [w.rule] + w.after;
      PlainParts(all, rules, n);
      AllPlainOf(all, rules);
      assert all[|w.before|] == w.rule && w.rule in all;
      ShowIsWord(w.rule);
      var tail := TextOf(w.rule.text)[w.at..];
      assert Show(w.rule)[w.at + 1..] == tail;
      MatchesNothing(n);
      if tail != "" {
        TailFreeAt(w.rule.text, n, w.at);
      }
    }
  }

  lemma MatchesNothing(n: Text)
    requires Plain(n)
    ensures !Matches("", TextOf(n))
  {
  }

  lemma TailFreeAt(x: Text, n: Text, k: nat)
    requires 1 <= k < |TextOf(x)|
    ensures TailFree(x, n) ==> !Matches(TextOf(x)[k..], TextOf(n))
  {
  }

  function LuckyRule(rule: Rule, at: nat, n: Text): Rule
    requires n.Cmd? && rule.text.Pipe? && rule.text.name == n.name && |n.name| + 2 <= at < |Show(rule)|
    requires at != |n.name| + 3
  {
    Rule(rule.allow, if at == |n.name| + 2 then n else Pipe(n.name, rule.text.arg[..at - |n.name| - 3]))
  }

  lemma {:induction false} LuckyCut(before: seq<Rule>, rule: Rule, at: nat, n: Text)
    requires n.Cmd? && rule.text.Pipe? && rule.text.name == n.name && |n.name| + 2 <= at < |Show(rule)|
    requires at != |n.name| + 3
    requires Plain(n) && Plain(rule.text)
    ensures var x := LuckyRule(rule, at, n); var head := Prefix(before) + Show(rule)[..at];
            && Plain(x.text) && Covers(n, x.text) && Covers(n, rule.text) && |head| > 0
                && head[..|head| - 1] == Print(before + [x])
            && Uncovered(before + [x], n) == Uncovered(before + [rule], n)
  {
    hide Print, Prefix, Uncovered;
    var x, head := LuckyRule(rule, at, n), Prefix(before) + Show(rule)[..at];
    LuckyShow(rule, at, n);
    PrintSnoc(before, x);
    assert head[..|head| - 1] == Prefix(before) + Show(rule)[..at - 1];
    UncoveredConcat(before, [x], n);
    UncoveredConcat(before, [rule], n);
    UncoveredOne(x, n);
    UncoveredOne(rule, n);
  }

  lemma {:induction false} UncoveredOne(r: Rule, n: Text)
    ensures Uncovered([r], n) == if Covers(n, r.text) then [] else [r]
  {
    assert [r][1..] == [];
  }

  lemma {:induction false} LuckyShow(rule: Rule, at: nat, n: Text)
    requires n.Cmd? && rule.text.Pipe? && rule.text.name == n.name && |n.name| + 2 <= at < |Show(rule)|
    requires at != |n.name| + 3
    requires Plain(n) && Plain(rule.text)
    ensures var x := LuckyRule(rule, at, n); Plain(x.text) && Show(x) == Show(rule)[..at - 1]
  {
    var sign, name, arg := [if rule.allow then '+' else '-'], n.name, rule.text.arg;
    assert Show(rule) == sign + name + "|" + arg;
    if at == |name| + 2 {
      assert Show(rule)[..at - 1] == sign + name;
    } else {
      var k := at - |name| - 3;
      assert (sign + name + "|" + arg)[..at - 1] == sign + name + "|" + arg[..k];
    }
  }

  // ---------------------------------------------------------------- and nothing else is left as rules

  /** No sign but the one in front: then a rule cut and joined to the next shows. */
  predicate Clean(r: Rule) {
    Plain(r.text) && forall i :: 0 <= i < |TextOf(r.text)| ==> !IsSign(TextOf(r.text)[i])
  }

  predicate AllClean(rules: seq<Rule>) {
    forall i :: 0 <= i < |rules| ==> Clean(rules[i])
  }

  /** Each sign of a printed list starts a rule. */
  lemma {:induction false} SignsLead(rules: seq<Rule>, i: nat)
    requires AllClean(rules) && 0 < i < |Print(rules)|
    ensures IsSign(Print(rules)[i]) ==> Print(rules)[i - 1] == ' '
  {
    var v := Show(rules[0]);
    assert Clean(rules[0]);
    if i < |v| {
      assert Print(rules)[i] == v[i] == TextOf(rules[0].text)[i - 1];
    } else {
      var more := Print(rules[1..]);
      assert |rules| > 1 && Print(rules) == v + " " + more;
      if i > |v| + 1 {
        assert more[i - |v| - 1] == Print(rules)[i];
        SignsLead(rules[1..], i - |v| - 1);
        assert more[i - |v| - 2] == Print(rules)[i - 1];
      }
    }
  }

  /** A list ends with the last word of its text. */
  lemma {:induction false} LastWord(rules: seq<Rule>, x: string, y: string)
    requires AllPlain(rules) && rules != [] && Print(rules) == x + y && (forall i :: 0 <= i < |y| ==> y[i] != ' ')
    requires (x == "" || x[|x| - 1] == ' ')
    ensures var k := |rules| - 1; Show(rules[k]) == y && Prefix(rules[..k]) == x
  {
    hide Print, Prefix, Show, Plain;
    var k := |rules| - 1;
    assert rules == rules[..k] + [rules[k]] && Plain(rules[k].text);
    PrintSnoc(rules[..k], rules[k]);
    ShowIsWord(rules[k]);
    PrefixEnds(rules[..k]);
    SameSplit(Prefix(rules[..k]), Show(rules[k]), x, y);
  }

  lemma {:induction false} PrefixEnds(kept: seq<Rule>)
    ensures var x := Prefix(kept); x == "" || x[|x| - 1] == ' '
  {
  }

  lemma {:induction false} SameSplit(a: string, b: string, x: string, y: string)
    requires a + b == x + y && (forall i :: 0 <= i < |b| ==> b[i] != ' ') && (forall i :: 0 <= i < |y| ==> y[i] != ' ')
    requires (a == "" || a[|a| - 1] == ' ') && (x == "" || x[|x| - 1] == ' ')
    ensures a == x && b == y
  {
    SplitBound(a, b, x, y);
    SplitBound(x, y, a, b);
    assert a == (a + b)[..|a|] && x == (x + y)[..|x|];
    assert b == (a + b)[|a|..] && y == (x + y)[|x|..];
  }

  lemma {:induction false} SplitBound(a: string, b: string, x: string, y: string)
    requires a + b == x + y && (forall i :: 0 <= i < |b| ==> b[i] != ' ') && (x == "" || x[|x| - 1] == ' ')
    ensures |a| >= |x|
  {
    var t := a + b;
    assert forall i :: |a| <= i < |t| ==> t[i] == b[i - |a|];
    assert x != "" ==> t[|x| - 1] == (x + y)[|x| - 1] == x[|x| - 1];
  }

  lemma {:induction false} PrefixInjective(a: seq<Rule>, b: seq<Rule>)
    requires AllPlain(a) && AllPlain(b) && Prefix(a) == Prefix(b)
    ensures a == b
    decreases |a|
  {
    hide Print, Show, Plain;
    if a == [] || b == [] {
      assert a == b;
    } else {
      var k, l := |a| - 1, |b| - 1;
      assert a == a[..k] + [a[k]] && Plain(a[k].text) && b == b[..l] + [b[l]] && Plain(b[l].text);
      ShowIsWord(b[l]);
      PrintSnoc(b[..l], b[l]);
      PrefixEnds(b[..l]);
      assert Print(a) == Prefix(a)[..|Prefix(a)| - 1] && Print(b) == Prefix(b)[..|Prefix(b)| - 1];
      LastWord(a, Prefix(b[..l]), Show(b[l]));
      PrefixInjective(a[..k], b[..l]);
      ShowInjective(a[k], b[l]);
    }
  }

  lemma {:induction false} ShowInjective(a: Rule, b: Rule)
    requires Plain(a.text) && Plain(b.text) && Show(a) == Show(b)
    ensures a == b
  {
    assert Show(a)[0] == Show(b)[0] && Show(a)[1..] == Show(b)[1..];
    TextInjective(a.text, b.text);
  }

  lemma {:induction false} PrintInjective(a: seq<Rule>, b: seq<Rule>)
    requires AllPlain(a) && AllPlain(b) && Print(a) == Print(b)
    ensures a == b
  {
    hide Show, Plain;
    assert (a == [] <==> Print(a) == "") && (b == [] <==> Print(b) == "") by { NothingElse(a); NothingElse(b); }
    PrefixInjective(a, b);
  }

  lemma {:induction false} NothingElse(a: seq<Rule>)
    ensures a == [] <==> Print(a) == ""
  {
  }

  /** Where the first cut is in the front, if anything was passed over. */
  lemma {:induction false} CutPlace(kept: seq<Rule>, rest: seq<Rule>, skip: nat, n: Text)
    requires AllPlain(rest) && skip >= 3
    ensures var w := WalkFrom(kept, rest, n); w.Cut? && w.before == [] ==> w.at >= 3
    ensures var w := Resume(kept, rest, skip, n); w.Cut? && w.before == [] ==> w.at >= 3
    decreases |rest|
  {
    hide Matches, Covers, Plain;
    if rest != [] {
      var l := |Show(rest[0])|;
      assert Plain(rest[0].text) && AllPlain(rest[1..]);
      ShowIsWord(rest[0]);
      CutPlace(kept + [rest[0]], rest[1..], 3, n);
      CutGrows(kept + [rest[0]], rest[1..], if skip > l then skip - l - 1 else 0, n);
      CutPlace(kept, rest[1..], l + 1, n);
      if |rest| > 1 { CutGrows(kept + rest[..2], rest[2..], 0, n); }
    }
  }

  lemma {:induction false} CutGrows(kept: seq<Rule>, rest: seq<Rule>, skip: nat, n: Text)
    ensures var w := WalkFrom(kept, rest, n); w.Cut? ==> |w.before| >= |kept|
    ensures var w := Resume(kept, rest, skip, n); w.Cut? ==> |w.before| >= |kept|
  {
    WalkPrunes(kept, rest, n);
    ResumePrunes(kept, rest, skip, n);
  }

  /** A cut before further rules joins two of them: no list of clean rules prints like that. */
  lemma {:induction false} JoinShows(before: seq<Rule>, rule: Rule, at: nat, after: seq<Rule>, n: Text,
                                     other: seq<Rule>)
    requires Plain(rule.text) && 0 < at < |Show(rule)| && after != [] && AllClean(other)
    ensures Outcome(Cut(before, rule, at, after), TextOf(n)) != Print(other)
  {
    hide ScanAt, Print, Prefix, Clean;
    OutcomeCut(before, rule, at, after, TextOf(n));
    ShowIsWord(rule);
    var head, q := Prefix(before) + Show(rule)[..at], |Prefix(before)| + |Show(rule)| + 1;
    var p := |head|;
    var t := head + Print(after);
    SignFirst(after);
    assert t[p] == Print(after)[0] && t[p - 1] == head[p - 1] == Show(rule)[at - 1];
    ScanKeepsFront(t, TextOf(n), q, p + 1);
    var r := ScanAt(t, TextOf(n), q);
    assert r[p] == r[..p + 1][p] == t[p] && r[p - 1] == r[..p + 1][p - 1] == t[p - 1];
    if r == Print(other) {
      SignsLead(other, p);
      assert false;
    }
  }

  lemma {:induction false} SignFirst(rules: seq<Rule>)
    requires rules != []
    ensures Print(rules) != "" && IsSign(Print(rules)[0])
  {
  }

  /** A cut in the last rule, when what stays of it is no rule that the new one covers. */
  lemma {:induction false} StumpShows(before: seq<Rule>, rule: Rule, at: nat, n: Text, other: seq<Rule>)
    requires AllPlain(before) && Plain(rule.text) && Plain(n) && 0 < at < |Show(rule)| && (before == [] ==> at >= 3)
    requires AllPlain(other)
    requires Uncovered(other, n) == Uncovered(before + [rule], n)
    requires Outcome(Cut(before, rule, at, []), TextOf(n)) == Print(other)
    requires Covers(n, rule.text) ==> n.Cmd? && rule.text.Pipe? && rule.text.name == n.name
    ensures n.Cmd? && rule.text.Pipe? && rule.text.name == n.name && |n.name| + 2 <= at && at != |n.name| + 3
  {
    hide Outcome, Print, Plain, Uncovered, Covers, Show;
    var last := StumpIsLast(before, rule, at, n, other);
    UncoveredConcat(before, [last], n);
    UncoveredConcat(before, [rule], n);
    UncoveredOne(last, n);
    UncoveredOne(rule, n);
    Cancel(Uncovered(before, n), Uncovered([last], n), Uncovered([rule], n));
    assert |Show(last)| == at - 1;
    assert Covers(n, last.text) && Covers(n, rule.text);
    StumpLength(last, n);
  }

  /** The stump is the last rule of any list that prints like what is left. */
  lemma {:induction false} StumpIsLast(before: seq<Rule>, rule: Rule, at: nat, n: Text,
                                       other: seq<Rule>) returns (last: Rule)
    requires AllPlain(before) && Plain(rule.text) && 0 < at < |Show(rule)| && (before == [] ==> at >= 3)
    requires AllPlain(other)
    requires Outcome(Cut(before, rule, at, []), TextOf(n)) == Print(other)
    ensures Plain(last.text) && other == before + [last] && Show(last) == Show(rule)[..at - 1]
  {
    hide Outcome, Print, Prefix, Plain, Show;
    OutcomeCut(before, rule, at, [], TextOf(n));
    ShowIsWord(rule);
    var x, y := Prefix(before), Show(rule)[..at - 1];
    assert x + y == (x + Show(rule)[..at])[..|x| + at - 1];
    PrefixEnds(before);
    PrefixNotEmpty(before);
    assert other != [] by { NothingElse(other); }
    LastWord(other, x, y);
    var k := |other| - 1;
    last := other[k];
    PrefixInjective(other[..k], before);
    assert other == before + [last];
  }

  lemma {:induction false} Cancel(a: seq<Rule>, b: seq<Rule>, c: seq<Rule>)
    requires a + b == a + c
    ensures b == c
  {
    assert b == (a + b)[|a|..] && c == (a + c)[|a|..];
  }

  lemma {:induction false} StumpLength(r: Rule, n: Text)
    requires n.Cmd? && Plain(r.text) && Covers(n, r.text)
    ensures |Show(r)| == |n.name| + 1 || |Show(r)| >= |n.name| + 3
  {
  }

  lemma {:induction false} PrefixNotEmpty(kept: seq<Rule>)
    ensures kept == [] <==> Prefix(kept) == ""
  {
  }

  /** The text left is the print of rules, among them all that the new one does not cover, in order. */
  ghost predicate LeavesRules(rules: seq<Rule>, n: Text) {
    exists left :: AllClean(left) && Uncovered(left, n) == Uncovered(rules, n)
        && ScanAt(Print(rules), TextOf(n), 0) == Print(left)
  }

  lemma {:induction false} LeftClean(rules: seq<Rule>, n: Text)
    requires AllClean(rules) && Clean(Rule(true, n)) && Left(rules, n).Some?
    ensures AllClean(Left(rules, n).value)
  {
    hide ScanAt, Print, Prefix, WalkFrom, Uncovered, Outcome, Pruned, Clean, Matches;
    assert AllPlain(rules) && Plain(n) by { CleanIsPlain(rules, n); }
    var w := WalkFacts(rules, n);
    match w
    case Whole(left) =>
      PlainParts(left, rules, n);
      AllCleanOf(left, rules);
    case Cut(before, rule, at, after) =>
      PlainParts(before + [rule] + after, rules, n);
      AllCleanOf(before + [rule] + after, rules);
      AllCleanOf(before, before + [rule] + after);
      assert (before + [rule] + after)[|before|] == rule;
      LuckyClean(rule, at, n);
  }

  lemma {:induction false} CleanIsPlain(rules: seq<Rule>, n: Text)
    requires AllClean(rules) && Clean(Rule(true, n))
    ensures AllPlain(rules) && Plain(n)
  {
    CleanArePlain(rules);
  }

  lemma {:induction false} CleanArePlain(rules: seq<Rule>)
    requires AllClean(rules)
    ensures AllPlain(rules)
  {
    forall i | 0 <= i < |rules| ensures Plain(rules[i].text) {
      assert Clean(rules[i]);
    }
  }

  lemma {:induction false} AllCleanOf(part: seq<Rule>, rules: seq<Rule>)
    requires AllClean(rules) && forall r :: r in part ==> r in rules
    ensures AllClean(part)
  {
    forall i | 0 <= i < |part| ensures Clean(part[i]) {
      assert part[i] in part;
    }
  }

  lemma {:induction false} LuckyClean(rule: Rule, at: nat, n: Text)
    requires n.Cmd? && rule.text.Pipe? && rule.text.name == n.name && |n.name| + 2 <= at < |Show(rule)|
    requires at != |n.name| + 3
    requires Clean(Rule(true, n)) && Clean(rule)
    ensures Clean(LuckyRule(rule, at, n))
  {
    var x := LuckyRule(rule, at, n);
    LuckyShow(rule, at, n);
    forall i | 0 <= i < |TextOf(x.text)| ensures !IsSign(TextOf(x.text)[i]) {
      assert TextOf(x.text)[i] == Show(x)[i + 1] == Show(rule)[i + 1] == TextOf(rule.text)[i];
    }
  }

  /** Exactly when the scan leaves rules behind: when it cuts none, or only an argument off the last. */
  lemma {:induction false} LeftExact(rules: seq<Rule>, n: Text)
    requires AllClean(rules) && Clean(Rule(true, n))
    ensures LeavesRules(rules, n) <==> Left(rules, n).Some?
  {
    hide ScanAt, Print, Prefix, WalkFrom, Uncovered, Outcome, Pruned, Clean, Matches, Plain;
    CleanIsPlain(rules, n);
    if Left(rules, n).Some? {
      LeftIsText(rules, n);
      LeftClean(rules, n);
    } else if LeavesRules(rules, n) {
      var other :| AllClean(other) && Uncovered(other, n) == Uncovered(rules, n)
          && ScanAt(Print(rules), TextOf(n), 0) == Print(other);
      NothingLeft(rules, n, other);
      assert false;
    }
  }

  lemma {:induction false} NothingLeft(rules: seq<Rule>, n: Text, other: seq<Rule>)
    requires AllPlain(rules) && Plain(n) && Left(rules, n).None? && AllClean(other)
    requires Uncovered(other, n) == Uncovered(rules, n)
    ensures ScanAt(Print(rules), TextOf(n), 0) != Print(other)
  {
    hide ScanAt, Print, Prefix, WalkFrom, Uncovered, Outcome, Pruned, Clean, Matches, Plain;
    var w := WalkFacts(rules, n);
    var before, rule, at, after := w.before, w.rule, w.at, w.after;
    PlainParts(before + [rule] + after, rules, n);
    AllPlainOf(before + [rule] + after, rules);
    AllPlainOf(before, before + [rule] + after);
    assert (before + [rule] + after)[|before|] == rule;
    if after != [] {
      JoinShows(before, rule, at, after, n, other);
    } else {
      assert before + [rule] + after == before + [rule];
      PrunedUncovered(rules, before + [rule], n);
      CutPlace([], rules, 3, n);
      CutNotSame(rule, at, n);
      CleanArePlain(other);
      if ScanAt(Print(rules), TextOf(n), 0) == Print(other) {
        StumpShows(before, rule, at, n, other);
        assert false;
      }
    }
  }

  lemma {:induction false} CutNotSame(rule: Rule, at: nat, n: Text)
    requires Plain(rule.text) && Plain(n) && 0 < at < |Show(rule)| && Matches(Show(rule)[at + 1..], TextOf(n))
    ensures Covers(n, rule.text) ==> n.Cmd? && rule.text.Pipe? && rule.text.name == n.name
  {
    assert |Show(rule)| >= |TextOf(n)| + at + 1;
    assert rule.text == n ==> |Show(rule)| == |TextOf(n)| + 1;
  }

  /** With signs inside texts the condition is not necessary: here the end cut off a rule is put back by the rule that
      is joined to it. */
  lemma {:induction false} JoinedBack()
    ensures var get, other, n := Rule(true, Cmd("get")), Rule(true, Cmd("abcd+get")), Cmd("get");
            && AllPlain([get, other, get]) && Left([get, other, get], n).None?
            && ScanAt(Print([get, other, get]), "get", 0) == Print([other])
            && Uncovered([other], n) == Uncovered([get, other, get], n) == [other]
  {
    hide ScanAt, Print, Uncovered, WalkFrom;
    var get, other, n := Rule(true, Cmd("get")), Rule(true, Cmd("abcd+get")), Cmd("get");
    JoinedWalk(get, other, n);
    JoinedScan();
    JoinedPrints(get, other);
    JoinedUncovered(get, other, n);
  }

  lemma JoinedPrints(get: Rule, other: Rule)
    requires get == Rule(true, Cmd("get")) && other == Rule(true, Cmd("abcd+get"))
    ensures Print([other]) == "+abcd+get"
    ensures Print([get, other, get]) == "+get" + " " + ("+abcd+get" + " " + "+get")
  {
    var rules, rest := [get, other, get], [other, get];
    assert rules[1..] == rest && rest[1..] == [get];
    assert Print(rest) == Show(other) + " " + Print([get]);
  }

  lemma {:induction false} JoinedUncovered(get: Rule, other: Rule, n: Text)
    requires get == Rule(true, Cmd("get")) && other == Rule(true, Cmd("abcd+get")) && n == Cmd("get")
    ensures Uncovered([other], n) == Uncovered([get, other, get], n) == [other]
  {
    hide Uncovered;
    var rest := [other, get];
    assert n != other.text by { assert |"get"| == 3 && |"abcd+get"| == 8; }
    UncoveredOne(other, n);
    UncoveredOne(get, n);
    UncoveredConcat([get], rest, n);
    UncoveredConcat([other], [get], n);
    assert [get] + rest == [get, other, get] && [other] + [get] == rest;
  }

  lemma {:induction false} JoinedWalk(get: Rule, other: Rule, n: Text)
    requires get == Rule(true, Cmd("get")) && other == Rule(true, Cmd("abcd+get")) && n == Cmd("get")
    ensures WalkFrom([], [get, other, get], n) == Cut([], other, 5, [get])
  {
    var rules, rest := [get, other, get], [other, get];
    assert rules[1..] == rest && rest[1..] == [get];
    assert Show(get) == "+get" && Show(other) == "+abcd+get" && "+abcd+get"[6..] == "get";
    assert WalkFrom([], rules, n) == Resume([], rest, 5, n);
  }

  lemma {:induction false} JoinedScan()
    ensures ScanAt("+get" + " " + ("+abcd+get" + " " + "+get"), "get", 0) == "+abcd+get"
  {
    hide ScanAt;
    var all := "+abcd+get" + " " + "+get";
    ScanInside("", "+get", all, "get");
    assert "" + "+get" + " " + all == "+get" + " " + all && "" + all == all && "+get"[1..] == "get";
    ScanInside("+abcd", "+get", "+get", "get");
    assert "+abcd" + "+get" + " " + "+get" == all && "+abcd" + "+get" == "+abcd+get";
    ScanPast("+abcd+get", "get", 10);
  }
}
