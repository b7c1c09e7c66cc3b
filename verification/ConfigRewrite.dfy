/** CONFIG REWRITE: new option lines take the places of old ones, comments and unknown lines stay. */
module ConfigRewrite {

  const SIGNATURE := "# Generated by CONFIG REWRITE"
  const UNKNOWN_PREFIX := "# ??? "

  /** How a line that is neither blank nor a comment parses: it names a known option, or not. */
  datatype Parsed = Unknown | Known(option: string)

  /** Whose line it is: kept for its text, or one of an option's. */
  datatype Owner = Kept(text: string) | Owned(option: string, text: string)

  predicate IsComment(line: string) {
    line == "" || line[0] == '#'
  }

  /** What a line of the old file becomes. */
  function OwnerOf(line: string, parse: string -> Parsed): Owner {
    if IsComment(line) then Kept(line)
    else match parse(line)
      case Unknown => Kept(UNKNOWN_PREFIX + line)
      case Known(option) => Owned(option, line)
  }

  /** The line numbers still waiting to be reused for an option. */
  function Pending(m: map<string, seq<nat>>, o: string): seq<nat> {
    if o in m then m[o] else []
  }

  predicate Increasing(s: seq<nat>) {
    forall i, j :: 0 <= i < j < |s| ==> s[i] < s[j]
  }

  predicate Owns(owner: seq<Owner>, i: nat, o: string) {
    i < |owner| && owner[i].Owned? && owner[i].option == o
  }

  /** The option's lines among the first n that are not waiting for reuse, in file order. */
  function Used(lines: seq<string>, owner: seq<Owner>, pending: seq<nat>, o: string, n: nat): seq<string>
    requires n <= |lines| == |owner|
  {
    if n == 0 then [] else
      Used(lines, owner, pending, o, n - 1) +
      (if Owns(owner, n - 1, o) && (n - 1) !in pending then [lines[n - 1]] else [])
  }

  /** An option's waiting lines are its own, in file order, untouched, and after all its used ones. */
  ghost predicate PendingOk(lines: seq<string>, owner: seq<Owner>, pending: seq<nat>, o: string) {
    && |lines| == |owner| && Increasing(pending)
    && (forall k :: k in pending ==> Owns(owner, k, o) && lines[k] == owner[k].text)
    && (forall i, k :: Owns(owner, i, o) && i !in pending && k in pending ==> i < k)
  }

  ghost predicate KeptOk(lines: seq<string>, owner: seq<Owner>) {
    |lines| == |owner| && forall i :: 0 <= i < |lines| && owner[i].Kept? ==> lines[i] == owner[i].text
  }

  ghost predicate OptionOk(lines: seq<string>, owner: seq<Owner>, m: map<string, seq<nat>>,
                           emitted: map<string, seq<string>>, o: string) {
    && PendingOk(lines, owner, Pending(m, o), o)
    && Used(lines, owner, Pending(m, o), o, |lines|) == (if o in emitted then emitted[o] else [])
  }

  // ---------------------------------------------------------------- used lines under updates

  lemma {:induction false} UsedFrame(lines: seq<string>, lines': seq<string>, owner: seq<Owner>, owner': seq<Owner>,
                                     p: seq<nat>, p': seq<nat>, o: string, n: nat)
    requires |lines| == |owner| && |lines'| == |owner'| && n <= |lines| && n <= |lines'|
    requires forall i :: 0 <= i < n ==> owner[i] == owner'[i]
    requires forall i :: 0 <= i < n && Owns(owner, i, o) ==>
              (i in p <==> i in p') && (i !in p ==> lines[i] == lines'[i])
    ensures Used(lines, owner, p, o, n) == Used(lines', owner', p', o, n)
  {
    if n > 0 {
      UsedFrame(lines, lines', owner, owner', p, p', o, n - 1);
      assert Owns(owner, n - 1, o) <==> Owns(owner', n - 1, o);
    }
  }

  /** No used line of the option from k on. */
  lemma {:induction false} UsedNone(lines: seq<string>, owner: seq<Owner>, p: seq<nat>, o: string, k: nat, n: nat)
    requires k <= n <= |lines| == |owner|
    requires forall i :: k <= i < n && Owns(owner, i, o) ==> i in p
    ensures Used(lines, owner, p, o, n) == Used(lines, owner, p, o, k)
    decreases n
  {
    if k < n { UsedNone(lines, owner, p, o, k, n - 1); }
  }

  /** Reusing the option's first waiting line adds it after the used ones. */
  lemma UsedReuse(lines: seq<string>, owner: seq<Owner>, p: seq<nat>, o: string, line: string)
    requires PendingOk(lines, owner, p, o) && p != []
    ensures p[0] < |lines| && PendingOk(lines[p[0] := line], owner, p[1..], o)
    ensures Used(lines[p[0] := line], owner, p[1..], o, |lines|) == Used(lines, owner, p, o, |lines|) + [line]
  {
    hide Used;
    var k := p[0];
    assert k in p && Owns(owner, k, o);
    var lines' := lines[k := line];
    assert forall i :: 0 <= i < |p[1..]| ==> p[1..][i] == p[i + 1] && p[i + 1] in p;
    RestOf(p);
    forall i | k < i < |lines| && Owns(owner, i, o) ensures i in p && i in p[1..] {
    }
    forall i | 0 <= i < k && Owns(owner, i, o) ensures i !in p && i !in p[1..] {
    }
    UsedNone(lines', owner, p[1..], o, k + 1, |lines|);
    UsedNone(lines, owner, p, o, k, |lines|);
    UsedFrame(lines, lines', owner, owner, p, p[1..], o, k);
    UsedStep(lines', owner, p[1..], o, k);
  }

  lemma UsedStep(lines: seq<string>, owner: seq<Owner>, p: seq<nat>, o: string, k: nat)
    requires k < |lines| == |owner| && Owns(owner, k, o) && k !in p
    ensures Used(lines, owner, p, o, k + 1) == Used(lines, owner, p, o, k) + [lines[k]]
  {
  }

  lemma RestOf(p: seq<nat>)
    requires Increasing(p) && p != []
    ensures Increasing(p[1..]) && forall x :: x in p[1..] <==> x in p && x != p[0]
    ensures forall x :: x in p ==> x >= p[0]
  {
    forall x | x in p && x != p[0] ensures x in p[1..] {
      var i :| 0 <= i < |p| && p[i] == x;
      assert p[1..][i - 1] == x;
    }
  }

  lemma ReuseKeepsOthers(lines: seq<string>, owner: seq<Owner>, m: map<string, seq<nat>>, e: map<string, seq<string>>,
                         o: string, k: nat, line: string, other: string, m': map<string, seq<nat>>,
                         e': map<string, seq<string>>)
    requires OptionOk(lines, owner, m, e, other) && other != o && Owns(owner, k, o)
    requires Pending(m', other) == Pending(m, other) && (other in e' <==> other in e)
    requires (other in e ==> e'[other] == e[other])
    ensures OptionOk(lines[k := line], owner, m', e', other)
  {
    hide Used;
    var p := Pending(m, other);
    UsedFrame(lines, lines[k := line], owner, owner, p, p, other, |lines|);
  }

  /** Appending a line that is not the option's. */
  lemma AppendKeepsOthers(lines: seq<string>, owner: seq<Owner>, m: map<string, seq<nat>>, e: map<string, seq<string>>,
                          line: string, w: Owner, other: string, m': map<string, seq<nat>>,
                          e': map<string, seq<string>>)
    requires OptionOk(lines, owner, m, e, other) && !(w.Owned? && w.option == other)
    requires Pending(m', other) == Pending(m, other) && (other in e' <==> other in e)
    requires (other in e ==> e'[other] == e[other])
    ensures OptionOk(lines + [line], owner + [w], m', e', other)
  {
    hide Used;
    var p := Pending(m, other);
    var lines', owner' := lines + [line], owner + [w];
    forall i ensures Owns(owner', i, other) <==> Owns(owner, i, other) {
    }
    UsedFrame(lines, lines', owner, owner', p, p, other, |lines|);
    UsedNone(lines', owner', p, other, |lines|, |lines'|);
  }

  lemma {:induction false} AppendUsed(lines: seq<string>, owner: seq<Owner>, p: seq<nat>, o: string, line: string)
    requires |lines| == |owner| && |p| == 0
    ensures Used(lines + [line], owner + [Owned(o, line)], p, o, |lines| + 1)
              == Used(lines, owner, p, o, |lines|) + [line]
  {
    hide Used;
    var lines', owner' := lines + [line], owner + [Owned(o, line)];
    UsedFrame(lines, lines', owner, owner', p, p, o, |lines|);
    UsedStep(lines', owner', p, o, |lines|);
  }

  lemma NonePending(lines: seq<string>, owner: seq<Owner>, p: seq<nat>, o: string)
    requires |lines| == |owner| && |p| == 0
    ensures PendingOk(lines, owner, p, o)
  {
  }

  /** Reading one more line of an option from the old file: it waits at the end of the option's list. */
  lemma AppendPending(lines: seq<string>, owner: seq<Owner>, p: seq<nat>, o: string, line: string)
    requires PendingOk(lines, owner, p, o) && Used(lines, owner, p, o, |lines|) == []
    requires forall i :: Owns(owner, i, o) ==> i in p
    ensures PendingOk(lines + [line], owner + [Owned(o, line)], p + [|lines|], o)
    ensures Used(lines + [line], owner + [Owned(o, line)], p + [|lines|], o, |lines| + 1) == []
    ensures forall i :: Owns(owner + [Owned(o, line)], i, o) ==> i in p + [|lines|]
  {
    hide Used;
    var lines', owner', p' := lines + [line], owner + [Owned(o, line)], p + [|lines|];
    assert forall k :: k in p ==> Owns(owner, k, o) && k < |lines|;
    assert forall i :: i in p ==> i in p';
    assert p'[|p|] == |lines|;
    assert forall i :: 0 <= i < |p| ==> p'[i] == p[i] && p[i] in p;
    forall i: nat | Owns(owner', i, o) ensures i in p' {
      if i < |lines| { assert Owns(owner, i, o); }
    }
    forall k | k in p' ensures Owns(owner', k, o) && lines'[k] == owner'[k].text {
      if k < |lines| { assert k in p; }
    }
    UsedNone(lines', owner', p', o, 0, |lines'|);
    NoneUsed(lines', owner', p', o);
  }

  lemma NoneUsed(lines: seq<string>, owner: seq<Owner>, p: seq<nat>, o: string)
    requires |lines| == |owner|
    ensures Used(lines, owner, p, o, 0) == []
  {
  }

  /** The signature goes before the first appended line. */
  function Signed(needed: bool): seq<Owner> {
    if needed then [Kept(SIGNATURE)] else []
  }

  /** Nothing, or one line of one of the options, after the signature if that is needed. */
  ghost predicate Appends(more: seq<Owner>, needed: bool, options: set<string>) {
    || more == []
    || (more[|more| - 1].Owned? && more[|more| - 1].option in options && more[..|more| - 1] == Signed(needed))
  }

  /** Appended lines belong to processed options, but for a signature in front when the old file had none. */
  ghost predicate AppendedOk(owner: seq<Owner>, file: seq<string>, processed: set<string>) {
    |owner| >= |file| && forall i :: |file| <= i < |owner| ==>
      if i == |file| && SIGNATURE !in file then owner[i] == Kept(SIGNATURE)
      else owner[i].Owned? && owner[i].option in processed
  }

  // ---------------------------------------------------------------- the rewrite state

  class RewriteState {
    var lines: seq<string>
    var optionToLine: map<string, seq<nat>>
    var rewritten: set<string>
    var needsSignature: bool
    var forceWrite: bool
    ghost var owner: seq<Owner>
    ghost var emitted: map<string, seq<string>>

    ghost predicate Valid()
      reads this
    {
      && KeptOk(lines, owner)
      && (forall o :: OptionOk(lines, owner, optionToLine, emitted, o))
      && (forall o :: o in optionToLine ==> optionToLine[o] != [])
      && (forall o :: o in emitted ==> o in rewritten && "" !in emitted[o])
    }

    constructor ()
      ensures Valid() && lines == [] && owner == [] && optionToLine == map[] && emitted == map[] && rewritten == {}
      ensures needsSignature && !forceWrite
    {
      lines, optionToLine, rewritten, needsSignature, forceWrite := [], map[], {}, true, false;
      owner, emitted := [], map[];
    }

    method MarkAsProcessed(option: string)
      requires Valid()
      modifies `rewritten
      ensures Valid() && rewritten == old(rewritten) + {option}
    {
      rewritten := rewritten + {option};
    }

    /** A line that belongs to no option. */
    method AppendKept(line: string)
      requires Valid()
      modifies `lines, `owner
      ensures Valid() && lines == old(lines) + [line] && owner == old(owner) + [Kept(line)]
      ensures old(AllPending()) ==> AllPending()
    {
      hide OptionOk;
      forall o ensures OptionOk(lines + [line], owner + [Kept(line)], optionToLine, emitted, o) {
        AppendKeepsOthers(lines, owner, optionToLine, emitted, line, Kept(line), o, optionToLine, emitted);
      }
      lines := lines + [line];
      owner := owner + [Kept(line)];
    }

    /** rewriteConfigRewriteLine */
    method RewriteLine(option: string, line: string, force: bool)
      requires Valid() && line != ""
      modifies this
      ensures Valid() && forceWrite == old(forceWrite) && rewritten == old(rewritten) + {option}
      ensures var used := old(Pending(optionToLine, option)) != [] || force || forceWrite;
              var before := if option in old(emitted) then old(emitted)[option] else [];
              emitted == if used then old(emitted)[option := before + [line]] else old(emitted)
      ensures forall o :: Pending(optionToLine, o) ==
                          if o == option && old(Pending(optionToLine, o)) != []
                          then old(Pending(optionToLine, o))[1..] else old(Pending(optionToLine, o))
      ensures owner == old(owner) || owner == old(owner) + Signed(old(needsSignature)) + [Owned(option, line)]
      ensures needsSignature == (old(needsSignature) && |owner| == |old(owner)|)
    {
      hide OptionOk, KeptOk;
      MarkAsProcessed(option);
      if option !in optionToLine && !force && !forceWrite {
        return;
      }
      if option in optionToLine {
        Reuse(option, line);
      } else {
        if needsSignature {
          AppendKept(SIGNATURE);
          needsSignature := false;
        }
        AppendOption(option, line);
      }
    }

    /** The first waiting line of the option is replaced. */
    method Reuse(option: string, line: string)
      requires Valid() && option in optionToLine && option in rewritten && line != ""
      modifies `lines, `optionToLine, `emitted
      ensures Valid()
      ensures emitted == old(emitted)[option := old(if option in emitted then emitted[option] else []) + [line]]
      ensures forall o :: Pending(optionToLine, o) == if o == option then old(Pending(optionToLine, o))[1..]
                else old(Pending(optionToLine, o))
    {
      hide OptionOk, Owns, KeptOk;
      var list := optionToLine[option];
      var k := list[0];
      ghost var e := emitted[option := (if option in emitted then emitted[option] else []) + [line]];
      var m := if |list| == 1 then optionToLine - {option} else optionToLine[option := list[1..]];
      assert Pending(m, option) == list[1..];
      UsedReuseOf(option, line, m, e);
      ghost var ls := lines[k := line];
      forall o ensures OptionOk(ls, owner, m, e, o) {
        if o != option {
          ReuseKeepsOthers(lines, owner, optionToLine, emitted, option, k, line, o, m, e);
        }
      }
      lines := lines[k := line];
      optionToLine := m;
      emitted := e;
    }

    lemma UsedReuseOf(option: string, line: string, m: map<string, seq<nat>>, e: map<string, seq<string>>)
      requires Valid() && option in optionToLine && Pending(m, option) == optionToLine[option][1..]
      requires option in e && e[option] == (if option in emitted then emitted[option] else []) + [line]
      ensures var k := optionToLine[option][0];
              && k < |lines| && Owns(owner, k, option) && OptionOk(lines[k := line], owner, m, e, option)
                  && KeptOk(lines[k := line], owner)
    {
      hide Used;
      assert OptionOk(lines, owner, optionToLine, emitted, option);
      UsedReuse(lines, owner, optionToLine[option], option, line);
    }

    /** No line is waiting: a new one is added at the end. */
    method AppendOption(option: string, line: string)
      requires Valid() && option !in optionToLine && option in rewritten && line != ""
      modifies `lines, `owner, `emitted
      ensures Valid() && lines == old(lines) + [line] && owner == old(owner) + [Owned(option, line)]
      ensures emitted == old(emitted)[option := old(if option in emitted then emitted[option] else []) + [line]]
    {
      hide Used, PendingOk;
      ghost var w := Owned(option, line);
      assert OptionOk(lines, owner, optionToLine, emitted, option);
      AppendUsed(lines, owner, Pending(optionToLine, option), option, line);
      NonePending(lines + [line], owner + [w], Pending(optionToLine, option), option);
      ghost var e := emitted[option := (if option in emitted then emitted[option] else []) + [line]];
      forall o ensures OptionOk(lines + [line], owner + [w], optionToLine, e, o) {
        if o != option {
          AppendKeepsOthers(lines, owner, optionToLine, emitted, line, w, o, optionToLine, e);
        }
      }
      lines := lines + [line];
      owner := owner + [w];
      emitted := e;
    }

    /** Every line of every option is waiting for reuse, none having been written yet. */
    ghost predicate AllPending()
      reads this
    {
      emitted == map[] && forall o, i :: Owns(owner, i, o) ==> i in Pending(optionToLine, o)
    }

    /** A line of the old file that belongs to an option. */
    method AddOptionLine(option: string, line: string, linenum: nat)
      requires Valid() && AllPending() && linenum == |lines|
      modifies `lines, `owner, `optionToLine
      ensures Valid() && AllPending() && lines == old(lines) + [line] && owner == old(owner) + [Owned(option, line)]
      ensures forall o :: Pending(optionToLine, o) == if o == option then old(Pending(optionToLine, o)) + [linenum]
                else old(Pending(optionToLine, o))
    {
      hide OptionOk, Owns, KeptOk;
      ghost var w := Owned(option, line);
      var list := Pending(optionToLine, option) + [linenum];
      var m := optionToLine[option := list];
      ghost var ls, os := lines + [line], owner + [w];
      AddKeeps(option, line, m);
      forall o ensures OptionOk(ls, os, m, emitted, o) {
        if o != option {
          AppendKeepsOthers(lines, owner, optionToLine, emitted, line, w, o, m, emitted);
        }
      }
      lines := lines + [line];
      owner := owner + [w];
      optionToLine := m;
    }

    lemma AddKeeps(option: string, line: string, m: map<string, seq<nat>>)
      requires Valid() && AllPending() && m == optionToLine[option := Pending(optionToLine, option) + [|lines|]]
      ensures OptionOk(lines + [line], owner + [Owned(option, line)], m, emitted, option)
      ensures KeptOk(lines + [line], owner + [Owned(option, line)])
      ensures forall o, i :: Owns(owner + [Owned(option, line)], i, o) ==> i in Pending(m, o)
    {
      hide Used;
      assert OptionOk(lines, owner, optionToLine, emitted, option);
      AppendPending(lines, owner, Pending(optionToLine, option), option, line);
      forall o, i: nat | Owns(owner + [Owned(option, line)], i, o) ensures i in Pending(m, o) {
        if o != option { assert Owns(owner, i, o); }
      }
    }

    /** One line of the old file. */
    method ReadLine(line: string, parse: string -> Parsed, linenum: nat)
      requires Valid() && AllPending() && linenum == |lines|
      modifies `lines, `owner, `optionToLine, `needsSignature
      ensures Valid() && AllPending() && owner == old(owner) + [OwnerOf(line, parse)] && |lines| == |old(lines)| + 1
      ensures needsSignature == (old(needsSignature) && line != SIGNATURE)
      ensures lines == old(lines) + [lines[|old(lines)|]] && StaysAs(line, lines[|old(lines)|], parse, {})
      ensures forall o :: |Pending(optionToLine, o)|
                == |old(Pending(optionToLine, o))|
                    + (if OwnerOf(line, parse).Owned? && OwnerOf(line, parse).option == o then 1 else 0)
    {
      hide OptionOk, KeptOk, Owns;
      if IsComment(line) {
        if needsSignature && line == SIGNATURE {
          needsSignature := false;
        }
        AppendKept(line);
        return;
      }
      match parse(line)
      case Unknown => AppendKept(UNKNOWN_PREFIX + line);
      case Known(option) => AddOptionLine(option, line, linenum);
    }

    /** rewriteConfigReadOldFile, from the trimmed lines on. */
    method ReadOldFile(file: seq<string>, parse: string -> Parsed)
      requires Valid() && lines == [] && owner == [] && optionToLine == map[] && emitted == map[] && needsSignature
      modifies `lines, `owner, `optionToLine, `needsSignature
      ensures Valid() && AllPending() && owner == OwnersOf(file, parse) && CountsOk(optionToLine, file, parse)
      ensures needsSignature <==> SIGNATURE !in file
      ensures |lines| == |file| && forall i :: 0 <= i < |file| ==> StaysAs(file[i], lines[i], parse, {})
    {
      hide OptionOk, KeptOk, Owns, CountsOk, CountOf, StaysAs;
      assert AllPending() by { NothingOwned(owner, optionToLine); }
      NothingCounted(parse);
      var linenum := -1;
      assert file[..0] == [];
      for i := 0 to |file|
        invariant Valid() && AllPending() && |lines| == i && linenum == i - 1
        invariant owner == OwnersOf(file[..i], parse) && CountsOk(optionToLine, file[..i], parse)
        invariant forall k :: 0 <= k < i ==> StaysAs(file[k], lines[k], parse, {})
        invariant needsSignature <==> SIGNATURE !in file[..i]
      {
        linenum := linenum + 1;
        assert file[..i + 1] == file[..i] + [file[i]];
        ghost var m := optionToLine;
        ReadLine(file[i], parse, linenum);
        CountsStep(m, optionToLine, file[..i], file[i], parse);
      }
      assert file[..|file|] == file;
    }

    /** One request of an option writer. */
    method Perform(c: Call, ghost done: seq<Call>, ghost file: seq<string>, ghost parse: string -> Parsed)
      requires Valid() && (c.Line? ==> c.line != "")
      requires Progress(optionToLine, emitted, rewritten, done, forceWrite, file, parse)
      modifies this
      ensures Valid() && forceWrite == old(forceWrite) && |owner| >= |old(owner)| && owner[..|old(owner)|] == old(owner)
      ensures Progress(optionToLine, emitted, rewritten, done + [c], forceWrite, file, parse)
      ensures rewritten == old(rewritten) + {c.option}
      ensures needsSignature == (old(needsSignature) && |owner| == |old(owner)|)
      ensures Appends(owner[|old(owner)|..], old(needsSignature), {c.option})
    {
      hide OptionOk, KeptOk, Emits, CallsFor, CountOf, Processed, Appends, OptionProgress, Pending;
      ghost var m, e := optionToLine, emitted;
      AppendsNone(needsSignature, {c.option});
      match c {
        case Line(option, line, force) =>
          RewriteLine(option, line, force);
          AppendsLine(old(owner), owner, old(needsSignature), option, line);
        case Mark(option) =>
          MarkAsProcessed(option);
          assert owner[|old(owner)|..] == [];
      }
      CallsSnoc(done, c, forceWrite, c.option, 0);
      forall o ensures OptionProgress(optionToLine, emitted, done + [c], forceWrite, o, CountOf(file, parse, o)) {
        ProgressStep(m, optionToLine, e, emitted, done, c, forceWrite, o, CountOf(file, parse, o));
      }
    }

    /** Blank the lines in a list. */
    method BlankLines(list: seq<nat>)
      requires forall k :: k in list ==> k < |lines|
      modifies `lines
      ensures |lines| == |old(lines)|
      ensures forall i :: 0 <= i < |lines| ==> lines[i] == if i in list then "" else old(lines)[i]
    {
      for j := 0 to |list|
        invariant |lines| == |old(lines)|
        invariant forall i :: 0 <= i < |lines| ==> lines[i] == if i in list[..j] then "" else old(lines)[i]
      {
        assert list[..j + 1] == list[..j] + [list[j]];
        assert list[j] in list;
        lines := lines[list[j] := ""];
      }
      assert list[..|list|] == list;
    }

    /** rewriteConfigRemoveOrphaned: what is left of the processed options is blanked. */
    method RemoveOrphaned()
      requires Valid()
      modifies `lines, `optionToLine
      ensures |lines| == |owner|
      ensures forall i :: 0 <= i < |lines| ==>
                lines[i] == if Orphan(owner, old(optionToLine), rewritten, i) then "" else old(lines)[i]
      ensures optionToLine.Keys == old(optionToLine).Keys
      ensures forall o :: o in optionToLine ==> optionToLine[o] == if o in rewritten then [] else old(optionToLine)[o]
    {
      hide Used, OptionOk;
      ghost var m := optionToLine;
      var todo := optionToLine.Keys;
      ghost var done: set<string> := {};
      while todo != {}
        invariant todo + done == m.Keys && todo !! done && optionToLine.Keys == m.Keys
        invariant forall o :: o in todo ==> optionToLine[o] == m[o]
        invariant forall o :: o in done ==> optionToLine[o] == if o in rewritten then [] else m[o]
        invariant |lines| == |owner|
        invariant forall i :: 0 <= i < |lines| ==>
              lines[i] == if Orphan(owner, m, rewritten * done, i) then "" else old(lines)[i]
        decreases todo
      {
        var o :| o in todo;
        if o in rewritten {
          PendingIsOwn(owner, old(lines), m, emitted, o);
          BlankLines(optionToLine[o]);
          optionToLine := optionToLine[o := []];
        }
        todo, done := todo - {o}, done + {o};
      }
      assert done == m.Keys;
    }
  }

  function OwnersOf(file: seq<string>, parse: string -> Parsed): (r: seq<Owner>)
    ensures |r| == |file| && forall i :: 0 <= i < |file| ==> r[i] == OwnerOf(file[i], parse)
  {
    if file == [] then [] else OwnersOf(file[..|file| - 1], parse) + [OwnerOf(file[|file| - 1], parse)]
  }

  lemma NothingOwned(owner: seq<Owner>, m: map<string, seq<nat>>)
    requires owner == []
    ensures forall o, i :: Owns(owner, i, o) ==> i in Pending(m, o)
  {
  }

  /** As many lines wait for an option as the file has of it. */
  ghost predicate CountsOk(m: map<string, seq<nat>>, file: seq<string>, parse: string -> Parsed) {
    forall o :: |Pending(m, o)| == CountOf(file, parse, o)
  }

  lemma NothingCounted(parse: string -> Parsed)
    ensures CountsOk(map[], [], parse)
  {
  }

  lemma CountsStep(m: map<string, seq<nat>>, m': map<string, seq<nat>>, file: seq<string>, line: string,
                   parse: string -> Parsed)
    requires CountsOk(m, file, parse)
    requires forall o :: |Pending(m', o)|
               == |Pending(m, o)| + (if OwnerOf(line, parse).Owned? && OwnerOf(line, parse).option == o then 1 else 0)
    ensures CountsOk(m', file + [line], parse)
    ensures OwnersOf(file + [line], parse) == OwnersOf(file, parse) + [OwnerOf(line, parse)]
  {
    hide OwnerOf;
    assert (file + [line])[..|file|] == file;
    forall o ensures |Pending(m', o)| == CountOf(file + [line], parse, o) {
      assert |Pending(m, o)| == CountOf(file, parse, o);
    }
  }

  /** How many lines of the file belong to the option. */
  function CountOf(file: seq<string>, parse: string -> Parsed, o: string): nat {
    if file == [] then 0 else
      var w := OwnerOf(file[|file| - 1], parse);
      CountOf(file[..|file| - 1], parse, o) + (if w.Owned? && w.option == o then 1 else 0)
  }

  /** A line of a processed option that was not reused. */
  predicate Orphan(owner: seq<Owner>, m: map<string, seq<nat>>, rewritten: set<string>, i: nat) {
    i < |owner| && owner[i].Owned? && owner[i].option in rewritten && i in Pending(m, owner[i].option)
  }

  lemma PendingIsOwn(owner: seq<Owner>, lines: seq<string>, m: map<string, seq<nat>>,
                     emitted: map<string, seq<string>>, o: string)
    requires OptionOk(lines, owner, m, emitted, o)
    ensures forall k :: k in Pending(m, o) ==> k < |owner| && owner[k].Owned? && owner[k].option == o
  {
    assert forall k :: k in Pending(m, o) ==> Owns(owner, k, o);
  }

  // ---------------------------------------------------------------- what survives

  /** The non-blank lines of an option, in file order. */
  function Survivors(lines: seq<string>, owner: seq<Owner>, o: string, n: nat): seq<string>
    requires n <= |lines| == |owner|
  {
    if n == 0 then [] else
      Survivors(lines, owner, o, n - 1) +
      (if Owns(owner, n - 1, o) && lines[n - 1] != "" then [lines[n - 1]] else [])
  }

  lemma {:induction false} UsedHas(lines: seq<string>, owner: seq<Owner>, p: seq<nat>, o: string, i: nat, n: nat)
    requires i < n <= |lines| == |owner| && Owns(owner, i, o) && i !in p
    ensures lines[i] in Used(lines, owner, p, o, n)
    decreases n
  {
    if i < n - 1 { UsedHas(lines, owner, p, o, i, n - 1); }
  }

  lemma {:induction false} SurvivorsAreUsed(before: seq<string>, lines: seq<string>, owner: seq<Owner>, p: seq<nat>,
                                            o: string, n: nat)
    requires n <= |lines| == |before| == |owner|
    requires forall i :: 0 <= i < n && Owns(owner, i, o) ==> lines[i] == if i in p then "" else before[i]
    requires forall i :: 0 <= i < n && Owns(owner, i, o) && i !in p ==> before[i] != ""
    ensures Survivors(lines, owner, o, n) == Used(before, owner, p, o, n)
  {
    if n > 0 { SurvivorsAreUsed(before, lines, owner, p, o, n - 1); }
  }

  /** After the orphans are blanked, a processed option's lines are exactly those emitted, in order. */
  lemma ProcessedSurvive(before: seq<string>, lines: seq<string>, owner: seq<Owner>, m: map<string, seq<nat>>,
                         emitted: map<string, seq<string>>, rewritten: set<string>, o: string)
    requires OptionOk(before, owner, m, emitted, o) && o in rewritten && (o in emitted ==> "" !in emitted[o])
    requires |lines| == |owner|
    requires forall i :: 0 <= i < |lines| ==> lines[i] == if Orphan(owner, m, rewritten, i) then "" else before[i]
    ensures Survivors(lines, owner, o, |lines|) == if o in emitted then emitted[o] else []
  {
    hide Used, Survivors;
    var p := Pending(m, o);
    forall i: nat | i < |lines| && Owns(owner, i, o) && i !in p ensures before[i] != "" {
      UsedHas(before, owner, p, o, i, |lines|);
    }
    SurvivorsAreUsed(before, lines, owner, p, o, |lines|);
  }

  /** Lines of options that were not processed are untouched. */
  lemma UnprocessedSurvive(before: seq<string>, owner: seq<Owner>, m: map<string, seq<nat>>,
                           emitted: map<string, seq<string>>, i: nat)
    requires i < |owner| && owner[i].Owned? && OptionOk(before, owner, m, emitted, owner[i].option)
    requires owner[i].option !in emitted
    ensures before[i] == owner[i].text
  {
    hide Used;
    var o := owner[i].option;
    if i !in Pending(m, o) {
      UsedHas(before, owner, Pending(m, o), o, i, |before|);
    }
  }

  // ---------------------------------------------------------------- the new file

  /** Of a run of blank lines only the first is kept. */
  function Collapsed(lines: seq<string>): seq<string> {
    if lines == [] then []
    else
      var n := |lines| - 1;
      Collapsed(lines[..n]) + (if lines[n] == "" && n > 0 && lines[n - 1] == "" then [] else [lines[n]])
  }

  function NonBlank(lines: seq<string>): seq<string> {
    if lines == [] then [] else
      var n := |lines| - 1;
      NonBlank(lines[..n]) + (if lines[n] == "" then [] else [lines[n]])
  }

  function Joined(lines: seq<string>): string {
    if lines == [] then "" else Joined(lines[..|lines| - 1]) + lines[|lines| - 1] + "\n"
  }

  predicate NoNewlines(lines: seq<string>) {
    forall i :: 0 <= i < |lines| ==> '\n' !in lines[i]
  }

  /** Where the last line of a text starts. */
  function LineStart(t: string): (k: nat)
    ensures k <= |t| && (k > 0 ==> t[k - 1] == '\n') && '\n' !in t[k..]
  {
    if t == "" || t[|t| - 1] == '\n' then |t| else LineStart(t[..|t| - 1])
  }

  /** The lines of a text, each of which ends with a newline. */
  function LinesOf(t: string): seq<string> {
    if t == "" then [] else
      var body := t[..|t| - 1];
      var k := LineStart(body);
      LinesOf(t[..k]) + [body[k..]]
  }

  /** Joined lines are the lines of the text. */
  lemma {:induction false} LinesBack(lines: seq<string>)
    requires NoNewlines(lines)
    ensures LinesOf(Joined(lines)) == lines
  {
    if lines != [] {
      var n := |lines| - 1;
      var front, last := Joined(lines[..n]), lines[n];
      LinesBack(lines[..n]);
      JoinedEnds(lines[..n]);
      var t := Joined(lines);
      assert t == front + last + "\n" && t[..|t| - 1] == front + last;
      var k := LineStart(front + last);
      StartBehind(front, last, k);
      assert t[..|front|] == front && (front + last)[|front|..] == last && lines[..n] + [last] == lines;
    }
  }

  lemma JoinedEnds(lines: seq<string>)
    ensures var t := Joined(lines); t == "" || t[|t| - 1] == '\n'
  {
  }

  lemma StartBehind(front: string, last: string, k: nat)
    requires (front == "" || front[|front| - 1] == '\n') && '\n' !in last && k <= |front + last|
    requires (k > 0 ==> (front + last)[k - 1] == '\n') && '\n' !in (front + last)[k..]
    ensures k == |front|
  {
    var t := front + last;
    assert forall i :: |front| <= i < |t| ==> t[i] == last[i - |front|];
    assert forall i :: k <= i < |t| ==> t[i] == t[k..][i - k];
    assert front != "" ==> t[|front| - 1] == '\n';
  }

  lemma {:induction false} CollapsedFrom(lines: seq<string>)
    requires NoNewlines(lines)
    ensures NoNewlines(Collapsed(lines))
  {
    if lines != [] { CollapsedFrom(lines[..|lines| - 1]); }
  }

  lemma {:induction false} NonBlankSnoc(lines: seq<string>, l: string)
    ensures NonBlank(lines + [l]) == NonBlank(lines) + (if l == "" then [] else [l])
  {
    assert (lines + [l])[..|lines|] == lines;
  }

  /** Collapsing drops blank lines only, and leaves no two in a row. */
  lemma {:induction false} CollapsedKeeps(lines: seq<string>)
    ensures NonBlank(Collapsed(lines)) == NonBlank(lines)
    ensures lines != [] ==>
              Collapsed(lines) != [] && (lines[|lines| - 1] == "" <==> Collapsed(lines)[|Collapsed(lines)| - 1] == "")
    ensures forall i :: 0 < i < |Collapsed(lines)| ==> Collapsed(lines)[i] != "" || Collapsed(lines)[i - 1] != ""
  {
    if lines != [] {
      var n := |lines| - 1;
      CollapsedKeeps(lines[..n]);
      NonBlankSnoc(Collapsed(lines[..n]), lines[n]);
      NonBlankSnoc(lines[..n], lines[n]);
      assert lines == lines[..n] + [lines[n]];
      if lines[n] == "" && n > 0 && lines[n - 1] == "" {
        assert Collapsed(lines) == Collapsed(lines[..n]);
      } else {
        assert Collapsed(lines) == Collapsed(lines[..n]) + [lines[n]];
      }
    }
  }

  /** rewriteConfigGetContentFromState */
  method GetContent(lines: seq<string>) returns (content: string)
    ensures content == Joined(Collapsed(lines))
  {
    hide *;
    content := "";
    var wasEmpty := false;
    assert lines[..0] == [];
    NoLines();
    for j := 0 to |lines|
      invariant content == Joined(Collapsed(lines[..j])) && wasEmpty == (j > 0 && lines[j - 1] == "")
    {
      assert lines[..j + 1] == lines[..j] + [lines[j]];
      ContentStep(lines[..j], lines[j]);
      if |lines[j]| == 0 {
        if wasEmpty {
          continue;
        }
        wasEmpty := true;
      } else {
        wasEmpty := false;
      }
      content := content + lines[j] + "\n";
    }
    assert lines[..|lines|] == lines;
  }

  lemma NoLines()
    ensures Joined(Collapsed([])) == ""
  {
  }

  lemma {:induction false} ContentStep(lines: seq<string>, l: string)
    ensures Joined(Collapsed(lines + [l])) == if l == "" && lines != []
              && lines[|lines| - 1] == "" then Joined(Collapsed(lines)) else Joined(Collapsed(lines)) + l + "\n"
  {
    var all, kept := lines + [l], Collapsed(lines);
    assert all[..|lines|] == lines && all[|lines|] == l;
    if l == "" && lines != [] && lines[|lines| - 1] == "" {
      assert Collapsed(all) == kept;
    } else {
      assert Collapsed(all) == kept + [l];
      assert (kept + [l])[..|kept|] == kept;
    }
  }

  // ---------------------------------------------------------------- the whole rewrite

  /** What the option writers ask for, in order. */
  datatype Call = Line(option: string, line: string, force: bool) | Mark(option: string)

  function CallsFor(calls: seq<Call>, o: string): nat {
    if calls == [] then 0
    else
      var c := calls[|calls| - 1];
      CallsFor(calls[..|calls| - 1], o) + (if c.Line? && c.option == o then 1 else 0)
  }

  function Processed(calls: seq<Call>): set<string> {
    set c | c in calls :: c.option
  }

  /** The lines the rewrite emits for an option with `count` lines in the old file: one for each of the
      first `count` calls, which have a line to reuse, and one for each later call that is forced. */
  function Emits(calls: seq<Call>, forceWrite: bool, o: string, count: nat): seq<string> {
    if calls == [] then []
    else
      var c, before := calls[|calls| - 1], calls[..|calls| - 1];
      Emits(before, forceWrite, o, count) +
      (if c.Line? && c.option == o && (CallsFor(before, o) < count || c.force || forceWrite) then [c.line] else [])
  }

  predicate CallsOk(calls: seq<Call>) {
    forall c :: c in calls && c.Line? ==> c.line != ""
  }

  /** The state after some of the calls. */
  ghost predicate Progress(m: map<string, seq<nat>>, emitted: map<string, seq<string>>, rewritten: set<string>,
                           calls: seq<Call>, forceWrite: bool, file: seq<string>, parse: string -> Parsed) {
    && rewritten == Processed(calls)
    && forall o :: OptionProgress(m, emitted, calls, forceWrite, o, CountOf(file, parse, o))
  }

  ghost predicate OptionProgress(m: map<string, seq<nat>>, emitted: map<string, seq<string>>, calls: seq<Call>,
                                 forceWrite: bool, o: string, count: nat) {
    && |Pending(m, o)| == (if CallsFor(calls, o) < count then count - CallsFor(calls, o) else 0)
    && (if o in emitted then emitted[o] else []) == Emits(calls, forceWrite, o, count)
  }

  lemma {:induction false} CallsSnoc(calls: seq<Call>, c: Call, forceWrite: bool, o: string, count: nat)
    ensures CallsFor(calls + [c], o) == CallsFor(calls, o) + (if c.Line? && c.option == o then 1 else 0)
    ensures Emits(calls + [c], forceWrite, o, count)
              == Emits(calls, forceWrite, o, count)
                  + (if c.Line? && c.option == o && (CallsFor(calls, o) < count || c.force || forceWrite)
                     then [c.line] else [])
    ensures Processed(calls + [c]) == Processed(calls) + {c.option}
  {
    assert (calls + [c])[..|calls|] == calls;
    assert c in calls + [c];
    assert forall d :: d in calls ==> d in calls + [c];
  }

  /** The file is rewritten as a whole. Comments, unknown lines and the lines of options nobody asked about
      keep their text and place; each option asked about is left with exactly the lines emitted for it, in order. */
  method Rewrite(file: seq<string>, parse: string -> Parsed, forceWrite: bool,
                 calls: seq<Call>) returns (st: RewriteState, content: string)
    requires CallsOk(calls)
    ensures fresh(st) && |st.lines| == |st.owner| >= |file| && content == Joined(Collapsed(st.lines))
    ensures forall i :: 0 <= i < |file| ==> st.owner[i] == OwnerOf(file[i], parse)
    ensures forall i :: 0 <= i < |file| ==> StaysAs(file[i], st.lines[i], parse, Processed(calls))
    ensures NoNewlines(st.lines) ==> NonBlank(LinesOf(content)) == NonBlank(st.lines)
    ensures AppendedOk(st.owner, file, Processed(calls))
    ensures forall i :: 0 <= i < |st.lines| && (st.owner[i].Kept? || st.owner[i].option !in Processed(calls)) ==>
              st.lines[i] == st.owner[i].text
    ensures forall o :: o in Processed(calls) ==>
              Survivors(st.lines, st.owner, o, |st.lines|) == Emits(calls, forceWrite, o, CountOf(file, parse, o))
  {
    hide OptionOk, KeptOk, Used, Survivors, Emits, CallsFor, CountOf, Orphan, Joined, Collapsed, Progress, OwnerOf,
      StaysAs, NonBlank, LinesOf, NoNewlines, AppendedOk;
    st := new RewriteState();
    st.ReadOldFile(file, parse);
    st.forceWrite := forceWrite;
    ReadProgress(st.optionToLine, forceWrite, file, parse);
    assert st.owner[..|file|] == st.owner;
    NothingAppended(st.owner, file);
    PerformAll(st, calls, file, parse);
    ghost var before, m := st.lines, st.optionToLine;
    st.RemoveOrphaned();
    Finished(before, st.lines, st.owner, m, st.emitted, st.rewritten);
    Settled(m, st.emitted, st.rewritten, calls, forceWrite, file, parse);
    OldLinesStay(st.lines, st.owner, file, parse, Processed(calls));
    ContentBack(st.lines);
    content := GetContent(st.lines);
  }

  lemma NothingAppended(owner: seq<Owner>, file: seq<string>)
    requires |owner| == |file|
    ensures AppendedOk(owner, file, {})
  {
  }

  /** The option writers, one after the other. */
  method PerformAll(st: RewriteState, calls: seq<Call>, ghost file: seq<string>, ghost parse: string -> Parsed)
    requires st.Valid() && CallsOk(calls) && st.rewritten == {} && |st.owner| == |file|
    requires st.owner[..|file|] == OwnersOf(file, parse) && AppendedOk(st.owner, file, {})
    requires st.needsSignature <==> SIGNATURE !in file
    requires Progress(st.optionToLine, st.emitted, st.rewritten, [], st.forceWrite, file, parse)
    modifies st
    ensures st.Valid() && st.forceWrite == old(st.forceWrite)
    ensures |st.owner| >= |file| && st.owner[..|file|] == OwnersOf(file, parse)
    ensures AppendedOk(st.owner, file, st.rewritten)
    ensures Progress(st.optionToLine, st.emitted, st.rewritten, calls, st.forceWrite, file, parse)
  {
    hide OptionOk, KeptOk, Emits, CallsFor, CountOf, Orphan, Progress, OwnerOf, AppendedOk, OwnersOf, Appends;
    assert calls[..0] == [];
    for j := 0 to |calls|
      invariant st.Valid() && st.forceWrite == old(st.forceWrite)
      invariant |st.owner| >= |file| && st.owner[..|file|] == OwnersOf(file, parse)
      invariant AppendedOk(st.owner, file, st.rewritten)
      invariant st.needsSignature <==> SIGNATURE !in file && |st.owner| == |file|
      invariant Progress(st.optionToLine, st.emitted, st.rewritten, calls[..j], st.forceWrite, file, parse)
    {
      assert calls[..j + 1] == calls[..j] + [calls[j]] && calls[j] in calls;
      ghost var os, rs, needed := st.owner, st.rewritten, st.needsSignature;
      st.Perform(calls[j], calls[..j], file, parse);
      AppendsMore(st.owner[|os|..], needed, calls[j].option, st.rewritten);
      AppendedMore(os, st.owner, file, rs, st.rewritten, needed);
    }
    assert calls[..|calls|] == calls;
  }

  lemma AppendsMore(more: seq<Owner>, needed: bool, option: string, options: set<string>)
    requires Appends(more, needed, {option}) && option in options
    ensures Appends(more, needed, options)
  {
  }

  /** A blank line or a comment stays as it is, a line that does not parse becomes a comment, and a line of an option
      that nobody asked about stays as it is. */
  predicate StaysAs(line: string, now: string, parse: string -> Parsed, processed: set<string>) {
    if line == "" || line[0] == '#' then now == line
    else match parse(line)
      case Unknown => now == "# ??? " + line
      case Known(o) => o !in processed ==> now == line
  }

  lemma OldLinesStay(lines: seq<string>, owner: seq<Owner>, file: seq<string>, parse: string -> Parsed,
                     processed: set<string>)
    requires |lines| == |owner| >= |file| && owner[..|file|] == OwnersOf(file, parse)
    requires forall i :: 0 <= i < |lines| && (owner[i].Kept? || owner[i].option !in processed) ==>
               lines[i] == owner[i].text
    ensures forall i :: 0 <= i < |file| ==> owner[i] == OwnerOf(file[i], parse)
    ensures forall i :: 0 <= i < |file| ==> StaysAs(file[i], lines[i], parse, processed)
  {
    forall i | 0 <= i < |file|
      ensures owner[i] == OwnerOf(file[i], parse) && StaysAs(file[i], lines[i], parse, processed)
    {
      assert owner[i] == owner[..|file|][i];
    }
  }

  lemma ContentBack(lines: seq<string>)
    ensures NoNewlines(lines) ==> NonBlank(LinesOf(Joined(Collapsed(lines)))) == NonBlank(lines)
  {
    if NoNewlines(lines) {
      hide Joined, LinesOf;
      CollapsedKeeps(lines);
      CollapsedFrom(lines);
      LinesBack(Collapsed(lines));
    }
  }

  lemma AppendsNone(needed: bool, options: set<string>)
    ensures Appends([], needed, options)
  {
  }

  lemma AppendsLine(before: seq<Owner>, after: seq<Owner>, needed: bool, option: string, line: string)
    requires after == before || after == before + Signed(needed) + [Owned(option, line)]
    ensures |after| >= |before| && after[..|before|] == before && Appends(after[|before|..], needed, {option})
  {
    var more := after[|before|..];
    if after != before {
      assert more == Signed(needed) + [Owned(option, line)];
    }
  }

  /** One call, for one option. */
  lemma ProgressStep(m: map<string, seq<nat>>, m': map<string, seq<nat>>, e: map<string, seq<string>>,
                     e': map<string, seq<string>>, done: seq<Call>, c: Call, forceWrite: bool, o: string, count: nat)
    requires OptionProgress(m, e, done, forceWrite, o, count)
    requires c.Mark? ==> m' == m && e' == e
    requires c.Line? ==>
              Pending(m', o) == if o == c.option && Pending(m, o) != [] then Pending(m, o)[1..] else Pending(m, o)
    requires c.Line? ==> e' == if Pending(m, c.option) != [] || c.force || forceWrite
                               then e[c.option := (if c.option in e then e[c.option] else []) + [c.line]] else e
    ensures OptionProgress(m', e', done + [c], forceWrite, o, count)
  {
    hide Emits, CallsFor, Pending;
    CallsSnoc(done, c, forceWrite, o, count);
  }

  lemma AppendedMore(before: seq<Owner>, after: seq<Owner>, file: seq<string>, rs: set<string>, rs': set<string>,
                     needed: bool)
    requires AppendedOk(before, file, rs) && rs <= rs' && (needed <==> SIGNATURE !in file && |before| == |file|)
    requires |after| >= |before| && after[..|before|] == before
    requires Appends(after[|before|..], needed, rs')
    ensures AppendedOk(after, file, rs') && after[..|file|] == before[..|file|]
  {
    var more := after[|before|..];
    assert forall i :: 0 <= i < |before| ==> after[i] == after[..|before|][i];
    assert forall i :: |before| <= i < |after| ==> after[i] == more[i - |before|];
    if more != [] {
      assert forall i :: 0 <= i < |more| - 1 ==> more[i] == more[..|more| - 1][i];
    }
  }

  lemma ReadProgress(m: map<string, seq<nat>>, forceWrite: bool, file: seq<string>, parse: string -> Parsed)
    requires CountsOk(m, file, parse)
    ensures Progress(m, map[], {}, [], forceWrite, file, parse)
  {
    forall o ensures OptionProgress(m, map[], [], forceWrite, o, CountOf(file, parse, o)) {
      assert |Pending(m, o)| == CountOf(file, parse, o);
    }
  }

  lemma Finished(before: seq<string>, lines: seq<string>, owner: seq<Owner>, m: map<string, seq<nat>>,
                 emitted: map<string, seq<string>>, rewritten: set<string>)
    requires KeptOk(before, owner) && (forall o :: OptionOk(before, owner, m, emitted, o)) && |lines| == |owner|
    requires forall o :: o in emitted ==> o in rewritten && "" !in emitted[o]
    requires forall i :: 0 <= i < |lines| ==> lines[i] == if Orphan(owner, m, rewritten, i) then "" else before[i]
    ensures forall i :: 0 <= i < |lines| && (owner[i].Kept? || owner[i].option !in rewritten) ==>
              lines[i] == owner[i].text
    ensures forall o :: o in rewritten ==>
              Survivors(lines, owner, o, |lines|) == if o in emitted then emitted[o] else []
  {
    hide OptionOk, Survivors;
    forall i | 0 <= i < |lines| && owner[i].Owned? && owner[i].option !in rewritten ensures lines[i] == owner[i].text {
      UnprocessedSurvive(before, owner, m, emitted, i);
    }
    forall o | o in rewritten ensures Survivors(lines, owner, o, |lines|) == if o in emitted then emitted[o] else [] {
      ProcessedSurvive(before, lines, owner, m, emitted, rewritten, o);
    }
  }

  lemma Settled(m: map<string, seq<nat>>, emitted: map<string, seq<string>>, rewritten: set<string>, calls: seq<Call>,
                forceWrite: bool, file: seq<string>, parse: string -> Parsed)
    requires Progress(m, emitted, rewritten, calls, forceWrite, file, parse)
    ensures rewritten == Processed(calls)
    ensures forall o :: (if o in emitted then emitted[o] else [])
              == Emits(calls, forceWrite, o, CountOf(file, parse, o))
  {
    hide Emits, CountOf, Processed;
    forall o ensures (if o in emitted then emitted[o] else []) == Emits(calls, forceWrite, o, CountOf(file, parse, o)) {
      assert OptionProgress(m, emitted, calls, forceWrite, o, CountOf(file, parse, o));
    }
  }
}
