/** ACLSelectorRemoveCommandRule in place: a terminated buffer, with what moving the text leaves behind the end. */
module AclScan {
  import opened AclText

  const NUL := '\0'

  ghost predicate Terminated(mem: seq<char>) {
    |mem| > 0 && mem[|mem| - 1] == NUL
  }

  function StrLen(mem: seq<char>, from: nat): (r: nat)
    requires Terminated(mem) && from < |mem|
    ensures from + r < |mem| && mem[from + r] == NUL && forall i :: from <= i < from + r ==> mem[i] != NUL
    decreases |mem| - from
  {
    if mem[from] == NUL then 0 else 1 + StrLen(mem, from + 1)
  }

  /** The string a terminated buffer holds. */
  function CStr(mem: seq<char>): string
    requires Terminated(mem)
  {
    mem[..StrLen(mem, 0)]
  }

  lemma StrLenIs(mem: seq<char>, from: nat, n: nat)
    requires Terminated(mem) && from + n < |mem| && mem[from + n] == NUL
    requires forall i :: from <= i < from + n ==> mem[i] != NUL
    ensures StrLen(mem, from) == n
  {
    var r := StrLen(mem, from);
  }

  /** memmove to a lower address. */
  method MoveDown(buf: array<char>, to: nat, from: nat, len: nat)
    requires to <= from && from + len <= buf.Length
    modifies buf
    ensures buf[..to] == old(buf[..to]) && buf[to..to + len] == old(buf[from..from + len])
    ensures buf[to + len..] == old(buf[to + len..])
  {
    for k := 0 to len
      invariant buf[..to] == old(buf[..to]) && buf[to..to + k] == old(buf[from..from + k])
      invariant buf[to + k..] == old(buf[to + k..])
    {
      assert buf[from + k] == buf[to + k..][from - to];
      buf[to + k] := buf[from + k];
    }
  }

  /** The comparison of one rule, from its text to its end, with the new rule. */
  method Compare(buf: array<char>, from: nat, end: nat, n: string) returns (same: bool)
    requires from <= end <= buf.Length
    ensures same == Matches(buf[from..end], n)
  {
    var len := end - from;
    var min := if len < |n| then len else |n|;
    var i := 0;
    while i < min && buf[from + i] == n[i]
      invariant i <= min && forall j :: 0 <= j < i ==> buf[from + j] == n[j]
    {
      i := i + 1;
    }
    ghost var v := buf[from..end];
    assert i < min ==> v[i] != n[i];
    if i < min {
      return false;
    }
    same := len == |n| || (len > |n| && buf[from + |n|] == '|');
    assert |n| <= len ==> v[..|n|] == n;
  }

  /** The end of the rule whose text starts at `from`. */
  method End(buf: array<char>, from: nat) returns (end: nat)
    requires Terminated(buf[..]) && from < buf.Length
    ensures from <= end < buf.Length && (buf[end] == ' ' || buf[end] == NUL)
    ensures forall i :: from <= i < end ==> buf[i] != ' ' && buf[i] != NUL
  {
    end := from;
    while buf[end] != ' ' && buf[end] != NUL
      invariant from <= end < buf.Length && forall i :: from <= i < end ==> buf[i] != ' ' && buf[i] != NUL
      decreases buf.Length - end
    {
      end := end + 1;
    }
  }

  /** The rest of the string, with its terminator, is moved down. */
  method Remove(buf: array<char>, to: nat, next: nat)
    requires Terminated(buf[..]) && to < next < buf.Length
    modifies buf
    ensures Shifted(old(buf[..]), buf[..], to, next)
  {
    hide StrLen;
    var len := Length(buf, next);
    MoveDown(buf, to, next, len + 1);
  }

  /** One turn of the loop at p: the rule is looked at, removed if it matches, and the scan goes on after it. */
  method Turn(buf: array<char>, n: string, p: nat) returns (next: nat)
    requires Terminated(buf[..]) && p < buf.Length && buf[p] != NUL
    modifies buf
    ensures Terminated(buf[..]) && p < next < buf.Length
    ensures ScanAt(CStr(old(buf[..])), n, p) == ScanAt(CStr(buf[..]), n, next)
  {
    hide ScanAt, Matches, StrLen, CStr;
    ghost var mem := buf[..];
    var end := End(buf, p + 1);
    var last := buf[end] == NUL;
    var to := if last && p != 0 then p - 1 else p;
    next := if last then end else end + 1;
    var same := Compare(buf, p + 1, end, n);
    assert mem[p + 1..end] == buf[p + 1..end] && At(mem, p, end, next);
    if same {
      Remove(buf, to, next);
      Moved(mem, buf[..], n, p, end, to, next);
    } else {
      Passed(mem, n, p, end, next);
    }
  }

  /** strlen */
  method Length(buf: array<char>, from: nat) returns (len: nat)
    requires Terminated(buf[..]) && from < buf.Length
    ensures len == StrLen(buf[..], from)
  {
    len := 0;
    while buf[from + len] != NUL
      invariant from + len < buf.Length && forall i :: from <= i < from + len ==> buf[i] != NUL
      decreases buf.Length - len
    {
      len := len + 1;
    }
    StrLenIs(buf[..], from, len);
  }

  /** The scan stands at p on a rule that ends at `end`, and goes on at `next`. */
  ghost predicate At(mem: seq<char>, p: nat, end: nat, next: nat) {
    && Terminated(mem) && p < end < |mem| && mem[p] != NUL
    && (forall i :: p < i < end ==> mem[i] != ' ' && mem[i] != NUL) && (mem[end] == ' ' || mem[end] == NUL)
    && next == if mem[end] == NUL then end else end + 1
  }

  /** mem' is mem with the string at `next` moved down to `to`. */
  ghost predicate Shifted(mem: seq<char>, mem': seq<char>, to: nat, next: nat)
    requires Terminated(mem) && to < next < |mem|
  {
    var len := StrLen(mem, next);
    && |mem'| == |mem| && mem'[..to] == mem[..to] && mem'[to..to + len + 1] == mem[next..next + len + 1]
    && mem'[to + len + 1..] == mem[to + len + 1..]
  }

  /** Inside the string the rule is one of the string's; behind its end nothing matters. */
  lemma LiveEnd(mem: seq<char>, p: nat, end: nat, next: nat)
    requires At(mem, p, end, next)
    ensures var live := CStr(mem);
            && p != |live| && p < next < |mem| && |live| < |mem| && mem[|live|] == NUL && live == mem[..|live|]
            && (p < |live| ==> end <= next <= |live| && mem[p + 1..end] == live[p + 1..end])
            && (p < |live| ==> (mem[end] == NUL <==> end == |live|))
  {
    var live := CStr(mem);
    assert mem[|live|] == NUL;
    assert forall i :: 0 <= i < |live| ==> live[i] == mem[i];
  }

  lemma {:induction false} Passed(mem: seq<char>, n: string, p: nat, end: nat, next: nat)
    requires At(mem, p, end, next) && !Matches(mem[p + 1..end], n)
    ensures ScanAt(CStr(mem), n, p) == ScanAt(CStr(mem), n, next)
  {
    hide ScanAt, Matches;
    var live := CStr(mem);
    LiveEnd(mem, p, end, next);
    if p > |live| {
      ScanPast(live, n, p);
      ScanPast(live, n, next);
    } else if end == |live| {
      ScanEnd(live, n, p);
      assert live[p + 1..] == live[p + 1..end];
      ScanPast(live, n, next);
    } else {
      ScanStep(live, n, p, end);
    }
  }

  lemma {:induction false} Moved(mem: seq<char>, mem': seq<char>, n: string, p: nat, end: nat, to: nat, next: nat)
    requires At(mem, p, end, next) && Matches(mem[p + 1..end], n)
    requires to == (if mem[end] == NUL && p != 0 then p - 1 else p) && Shifted(mem, mem', to, next)
    ensures Terminated(mem') && ScanAt(CStr(mem), n, p) == ScanAt(CStr(mem'), n, next)
  {
    hide ScanAt, Matches, Shifted, CStr, StrLen;
    var live := CStr(mem);
    LiveEnd(mem, p, end, next);
    if p > |live| {
      MovedBehind(mem, mem', to, next);
      ScanPast(live, n, p);
      ScanPast(live, n, next);
    } else {
      MovedLive(mem, mem', p, end, to, next);
      if end == |live| {
        ScanEnd(live, n, p);
        assert live[p + 1..] == live[p + 1..end] && live[next..] == [] && live[..to] + [] == live[..to];
        ScanPast(CStr(mem'), n, next);
      } else {
        ScanStep(live, n, p, end);
      }
    }
  }

  /** Moving what is behind the end of the string does not change it. */
  lemma {:induction false} MovedBehind(mem: seq<char>, mem': seq<char>, to: nat, next: nat)
    requires Terminated(mem) && |CStr(mem)| <= to < next < |mem| && Shifted(mem, mem', to, next)
    requires mem[next] == NUL || |CStr(mem)| < to
    ensures Terminated(mem') && CStr(mem') == CStr(mem)
  {
    var n := |CStr(mem)|;
    var len := StrLen(mem, next);
    assert mem'[..n] == mem'[..to][..n] == mem[..to][..n] == mem[..n];
    assert forall i :: 0 <= i < n ==> mem'[i] == mem'[..n][i] && mem[i] != NUL;
    assert mem'[|mem| - 1] == mem'[to + len + 1..][|mem| - 1 - (to + len + 1)] == NUL;
    if n < to {
      assert mem'[n] == mem'[..to][n];
    } else {
      assert mem'[n] == mem'[to..to + len + 1][0];
    }
    StrLenIs(mem', 0, n);
  }

  lemma {:induction false} LiveTail(mem: seq<char>, next: nat)
    requires Terminated(mem) && next <= |CStr(mem)|
    ensures next < |mem| && StrLen(mem, next) == |CStr(mem)| - next
  {
    StrLenIs(mem, next, |CStr(mem)| - next);
  }

  lemma {:induction false} MovedLive(mem: seq<char>, mem': seq<char>, p: nat, end: nat, to: nat, next: nat)
    requires At(mem, p, end, next) && p < |CStr(mem)| && to <= p && Shifted(mem, mem', to, next)
    ensures Terminated(mem') && next <= |CStr(mem)| && CStr(mem') == CStr(mem)[..to] + CStr(mem)[next..]
  {
    hide StrLen, Shifted;
    LiveEnd(mem, p, end, next);
    LiveTail(mem, next);
    MovedText(mem, mem', |CStr(mem)|, to, next);
  }

  lemma {:induction false} MovedText(mem: seq<char>, mem': seq<char>, n: nat, to: nat, next: nat)
    requires Terminated(mem) && to < next <= n < |mem| && mem[n] == NUL && (forall i :: 0 <= i < n ==> mem[i] != NUL)
    requires StrLen(mem, next) == n - next && Shifted(mem, mem', to, next)
    ensures Terminated(mem') && CStr(mem') == mem[..to] + mem[next..n]
  {
    hide StrLen;
    var len := n - next;
    assert mem[next..next + len + 1] == mem[next..n] + [NUL];
    assert mem'[..to + len + 1] == mem'[..to] + mem'[to..to + len + 1] == mem[..to] + mem[next..n] + [NUL];
    assert forall i :: 0 <= i <= to + len ==> mem'[i] == mem'[..to + len + 1][i];
    assert mem'[|mem| - 1] == mem'[to + len + 1..][|mem| - 1 - (to + len + 1)] == NUL;
    StrLenIs(mem', 0, to + len);
    assert mem'[..to + len] == mem[..to] + mem[next..n];
  }

  /** The whole loop computes the scan of the text, whatever is behind the end of the string. */
  method RemoveCommandRule(buf: array<char>, n: string)
    requires Terminated(buf[..])
    modifies buf
    ensures Terminated(buf[..]) && CStr(buf[..]) == ScanAt(CStr(old(buf[..])), n, 0)
  {
    hide ScanAt, Matches;
    var p := 0;
    while buf[p] != NUL
      invariant p < buf.Length && Terminated(buf[..])
      invariant ScanAt(CStr(buf[..]), n, p) == ScanAt(CStr(old(buf[..])), n, 0)
      decreases buf.Length - p
    {
      p := Turn(buf, n, p);
    }
    ScanPast(CStr(buf[..]), n, p);
  }
}
