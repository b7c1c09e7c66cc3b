/** The remote persist handshake: a client RDMA-writes a record into a server's buffer, the server
    makes it durable and RDMA-writes a flag back. Client, server and the two network directions take
    steps in any order. */
module RemotePersist {
  import opened Bytes
  import opened Collections

  // ---------------------------------------------------------------- flags and records

  const END_FLAG: bytes := [0x5a, 0x5a, 0x5a, 0x5a, 0x5a, 0x5a, 0x5a, 0x5a]
  const SERVER_FLAG: bytes := [0x7f, 0x7f, 0x7f, 0x7f, 0x7f, 0x7f, 0x7f, 0x7f]
  const CLIENT_FLAG: bytes := [0xf7, 0xf7, 0xf7, 0xf7, 0xf7, 0xf7, 0xf7, 0xf7]

  const HEADER := 8

  /** gLength: the record length, at least a header. */
  type Length = n: nat | n >= HEADER witness HEADER

  /** Copy src over the start of dst. */
  function Copied(dst: bytes, src: bytes): bytes
    requires |src| <= |dst|
  {
    src + dst[|src|..]
  }

  function Head(buf: bytes): bytes
    requires |buf| >= HEADER
  {
    buf[..HEADER]
  }

  /** What reaches the server for one Write: the flag takes the place of the first word. */
  function Record(buffer: bytes, len: Length): bytes
    requires |buffer| >= len
  {
    CLIENT_FLAG + buffer[HEADER..len]
  }

  /** The record keeps exactly the bytes after the first word. */
  lemma RecordKeepsTail(a: bytes, b: bytes, len: Length)
    requires |a| >= len && |b| >= len
    ensures Record(a, len) == Record(b, len) <==> a[HEADER..len] == b[HEADER..len]
    ensures Record(a, len) == a[..len] <==> Head(a) == CLIENT_FLAG
  {
    assert Record(a, len)[HEADER..] == a[HEADER..len] && Record(b, len)[HEADER..] == b[HEADER..len];
    assert a[..len] == Head(a) + a[HEADER..len];
    assert Record(a, len)[..HEADER] == CLIENT_FLAG;
    assert a[..len][..HEADER] == Head(a);
  }

  function Records(calls: seq<bytes>, len: Length): bytes
    requires forall b :: b in calls ==> |b| >= len
  {
    if calls == [] then []
    else Records(calls[..|calls| - 1], len) + Record(calls[|calls| - 1], len)
  }

  // ---------------------------------------------------------------- storage

  /** Where the server puts records: a file written at its offset and synced, or one slot of persistent
      memory written through the cache and flushed. */
  datatype Sink =
    | File(content: bytes, pos: nat, synced: nat)
    | Pmr(cache: bytes, durable: bytes)

  function Put(sink: Sink, data: bytes): Sink
    requires sink.File? ==> sink.pos <= |sink.content|
    requires sink.Pmr? ==> |data| <= |sink.cache|
  {
    match sink
    case File(content, pos, synced) =>
      var over := if pos + |data| <= |content| then content[pos + |data|..] else [];
      File(content[..pos] + data + over, pos + |data|, synced)
    case Pmr(cache, durable) => Pmr(Copied(cache, data), durable)
  }

  function Sync(sink: Sink): Sink {
    match sink
    case File(content, pos, _) => File(content, pos, pos)
    case Pmr(cache, _) => Pmr(cache, cache)
  }

  // ---------------------------------------------------------------- the machine

  datatype ClientPc = CIdle | CCopied | CFlagged | CPosted | CSpin | CEnding | CEndPosted | CClosed

  datatype ServerPc = SPoll | SCheck | SPut | SSync | SReply | SPost | SPosted | SExit

  /** One direction of the network: a posted write is delivered at once, and then its completion is polled. */
  datatype Nic = Quiet | InFlight(len: nat) | Delivered

  datatype State = State(cbuf: bytes, sbuf: bytes, cpc: ClientPc, spc: ServerPc, cnic: Nic, snic: Nic,
                         sink: Sink, calls: seq<bytes>, acked: nat, persisted: nat)

  datatype Action = CallWrite(buffer: bytes) | CallClose | ClientStep | ServerStep | ToServer | ToClient

  predicate Init(s: State, len: Length) {
    && |s.cbuf| >= len && |s.sbuf| >= len
    && Head(s.sbuf) != CLIENT_FLAG && Head(s.sbuf) != END_FLAG
    && s.cpc == CIdle && s.spc == SPoll && s.cnic == Quiet && s.snic == Quiet
    && s.calls == [] && s.acked == 0 && s.persisted == 0
    && (s.sink.File? ==> s.sink.pos == 0 && s.sink.synced == 0)
    && (s.sink.Pmr? ==> |s.sink.cache| >= len)
  }

  /** Shapes that keep every step well defined. */
  predicate Sized(s: State, len: Length) {
    && |s.cbuf| >= len && |s.sbuf| >= len
    && (s.cnic.InFlight? ==> s.cnic.len <= len)
    && (s.snic.InFlight? ==> s.snic.len <= len)
    && (s.sink.File? ==> s.sink.pos <= |s.sink.content|)
    && (s.sink.Pmr? ==> |s.sink.cache| >= len)
    && (forall b :: b in s.calls ==> |b| >= len)
  }

  /** The client between two calls, and inside Write and Close. */
  function ClientNext(s: State, len: Length): State
    requires Sized(s, len)
  {
    match s.cpc
    case CIdle => s
    case CCopied => s.(cbuf := Copied(s.cbuf, CLIENT_FLAG), cpc := CFlagged)
    case CFlagged => s.(cnic := InFlight(len), cpc := CPosted)
    case CPosted => if s.cnic == Delivered then s.(cnic := Quiet, cpc := CSpin) else s
    case CSpin => if Head(s.cbuf) == SERVER_FLAG then s.(cpc := CIdle, acked := s.acked + 1) else s
    case CEnding => s.(cnic := InFlight(len), cpc := CEndPosted)
    case CEndPosted => if s.cnic == Delivered then s.(cnic := Quiet, cpc := CClosed) else s
    case CClosed => s
  }

  /** One turn of Run, cut at every read and write of shared memory. */
  function ServerNext(s: State, len: Length): State
    requires Sized(s, len)
  {
    match s.spc
    case SPoll => if Head(s.sbuf) == CLIENT_FLAG || Head(s.sbuf) == END_FLAG then s.(spc := SCheck) else s
    case SCheck => s.(spc := if Head(s.sbuf) == END_FLAG then SExit else SPut)
    case SPut => s.(sink := Put(s.sink, s.sbuf[..len]), spc := SSync)
    case SSync => s.(sink := Sync(s.sink), persisted := s.persisted + 1, spc := SReply)
    case SReply => s.(sbuf := Copied(s.sbuf, SERVER_FLAG), spc := SPost)
    case SPost => s.(snic := InFlight(HEADER), spc := SPosted)
    case SPosted => if s.snic == Delivered then s.(snic := Quiet, spc := SPoll) else s
    case SExit => s
  }

  function Next(s: State, len: Length, a: Action): State
    requires Sized(s, len)
  {
    match a
    case CallWrite(buffer) =>
      if s.cpc == CIdle && |buffer| >= len then
        s.(cbuf := Copied(s.cbuf, buffer[..len]), cpc := CCopied, calls := s.calls + [buffer])
      else s
    case CallClose =>
      if s.cpc == CIdle then s.(cbuf := Copied(s.cbuf, END_FLAG), cpc := CEnding) else s
    case ClientStep => ClientNext(s, len)
    case ServerStep => ServerNext(s, len)
    case ToServer =>
      if s.cnic.InFlight? then s.(sbuf := Copied(s.sbuf, s.cbuf[..s.cnic.len]), cnic := Delivered) else s
    case ToClient =>
      if s.snic.InFlight? then s.(cbuf := Copied(s.cbuf, s.sbuf[..s.snic.len]), snic := Delivered) else s
  }

  // ---------------------------------------------------------------- the invariant

  /** The server has nothing to do: it spins on an old header, or has not yet seen its own reply complete. */
  predicate Resting(s: State) {
    (s.spc == SPoll && s.snic == Quiet) || (s.spc == SPosted && s.snic == Delivered)
  }

  predicate NoRequest(s: State)
    requires |s.sbuf| >= HEADER
  {
    Head(s.sbuf) != CLIENT_FLAG && Head(s.sbuf) != END_FLAG
  }

  /** Nothing is under way: every call that began has returned and is durable. */
  predicate Settled(s: State, len: Length)
    requires Sized(s, len)
  {
    Resting(s) && NoRequest(s) && s.persisted == s.acked
  }

  /** The last call's record has not left the client. */
  predicate Sending(s: State, len: Length)
    requires Sized(s, len)
  {
    && Settled(s, len) && |s.calls| == s.acked + 1
    && (s.cpc == CCopied ==> s.cbuf[HEADER..len] == s.calls[s.acked][HEADER..len])
    && (s.cpc != CCopied ==> s.cbuf[..len] == Record(s.calls[s.acked], len))
  }

  /** The last call's record has reached the server, which persists it and replies. */
  predicate Serving(s: State, len: Length)
    requires Sized(s, len)
  {
    && |s.calls| == s.acked + 1
    && ((s.spc == SPosted && s.snic == Delivered) || s.spc in {SPoll, SCheck, SPut, SSync, SReply, SPost}
        || (s.spc == SPosted && s.snic == InFlight(HEADER)))
    && (s.spc != SPosted ==> s.snic == Quiet)
    && if Replied(s) then s.persisted == s.acked + 1 && NoRequest(s) && Head(s.cbuf) == SERVER_FLAG
       else if Answering(s) then
         && s.persisted == s.acked + 1 && Head(s.cbuf) == CLIENT_FLAG
         && (s.spc != SReply ==> Head(s.sbuf) == SERVER_FLAG)
       else s.persisted == s.acked && Head(s.cbuf) == CLIENT_FLAG && s.sbuf[..len] == Record(s.calls[s.acked], len)
  }

  /** Durable, and the reply not yet delivered. */
  predicate Answering(s: State) {
    s.spc == SReply || s.spc == SPost || (s.spc == SPosted && s.snic.InFlight?)
  }

  /** The reply has been delivered. */
  predicate Replied(s: State)
    requires |s.sbuf| >= HEADER
  {
    Resting(s) && Head(s.sbuf) == SERVER_FLAG
  }

  predicate Protocol(s: State, len: Length)
    requires Sized(s, len)
  {
    match s.cpc
    case CIdle => s.cnic == Quiet && Settled(s, len) && |s.calls| == s.acked
    case CCopied => s.cnic == Quiet && Sending(s, len)
    case CFlagged => s.cnic == Quiet && Sending(s, len)
    case CPosted => (s.cnic == InFlight(len) && Sending(s, len)) || (s.cnic == Delivered && Serving(s, len))
    case CSpin => s.cnic == Quiet && Serving(s, len)
    case CEnding => s.cnic == Quiet && Settled(s, len) && |s.calls| == s.acked && Head(s.cbuf) == END_FLAG
    case CEndPosted =>
      || (s.cnic == InFlight(len) && Settled(s, len) && |s.calls| == s.acked && Head(s.cbuf) == END_FLAG)
      || (s.cnic == Delivered && Finishing(s, len))
    case CClosed => s.cnic == Quiet && Finishing(s, len)
  }

  predicate Finishing(s: State, len: Length)
    requires Sized(s, len)
  {
    && |s.calls| == s.acked && s.persisted == s.acked && Head(s.sbuf) == END_FLAG
    && (Resting(s) || (s.snic == Quiet && s.spc in {SCheck, SExit}))
  }

  /** Records put so far: one more than persisted between the write and the sync. */
  function PutCount(s: State): nat {
    if s.spc == SSync then s.persisted + 1 else s.persisted
  }

  predicate Stored(s: State, len: Length)
    requires Sized(s, len)
  {
    && PutCount(s) <= |s.calls|
    && match s.sink
       case File(content, pos, synced) =>
         && content[..pos] == Records(s.calls[..PutCount(s)], len)
         && synced == |Records(s.calls[..s.persisted], len)|
       case Pmr(cache, durable) =>
         && (PutCount(s) > 0 ==> cache[..len] == Record(s.calls[PutCount(s) - 1], len))
         && (s.persisted > 0 ==> |durable| >= len && durable[..len] == Record(s.calls[s.persisted - 1], len))
  }

  predicate Inv(s: State, len: Length) {
    Sized(s, len) && Protocol(s, len) && Stored(s, len)
  }

  lemma InitHolds(s: State, len: Length)
    requires Init(s, len)
    ensures Inv(s, len)
  {
  }

  lemma CopiedParts(dst: bytes, src: bytes)
    requires |src| <= |dst|
    ensures |Copied(dst, src)| == |dst| && Copied(dst, src)[..|src|] == src
    ensures forall n :: |src| <= n <= |dst| ==> Copied(dst, src)[|src|..n] == dst[|src|..n]
  {
  }

  lemma HeadOfPrefix(buf: bytes, n: nat)
    requires HEADER <= n <= |buf|
    ensures Head(buf[..n]) == Head(buf)
  {
  }

  /** Setting the flag after copying the caller's buffer makes the record. */
  lemma FlagMakesRecord(cbuf: bytes, buffer: bytes, len: Length)
    requires |cbuf| >= len && |buffer| >= len && cbuf[HEADER..len] == buffer[HEADER..len]
    ensures Copied(cbuf, CLIENT_FLAG)[..len] == Record(buffer, len)
  {
    assert Copied(cbuf, CLIENT_FLAG)[..len] == CLIENT_FLAG + cbuf[HEADER..len];
  }

  lemma CallKeeps(s: State, len: Length, a: Action)
    requires Inv(s, len) && (a.CallWrite? || a.CallClose?)
    ensures Sized(Next(s, len, a), len) && Protocol(Next(s, len, a), len)
  {
    if s.cpc == CIdle {
      match a
      case CallWrite(buffer) =>
        if |buffer| >= len {
          CopiedParts(s.cbuf, buffer[..len]);
          var r := Next(s, len, a);
          assert r.cbuf[HEADER..len] == r.cbuf[..len][HEADER..];
          assert buffer[..len][HEADER..] == buffer[HEADER..len];
        }
      case CallClose =>
        CopiedParts(s.cbuf, END_FLAG);
    }
  }

  lemma ClientKeeps(s: State, len: Length)
    requires Inv(s, len)
    ensures Sized(ClientNext(s, len), len) && Protocol(ClientNext(s, len), len)
  {
    hide Stored, Record, Copied;
    if s.cpc == CCopied {
      CopiedParts(s.cbuf, CLIENT_FLAG);
      FlagMakesRecord(s.cbuf, s.calls[s.acked], len);
    }
  }

  lemma RecordHead(buf: bytes, buffer: bytes, len: Length)
    requires |buf| >= len && |buffer| >= len && buf[..len] == Record(buffer, len)
    ensures Head(buf) == CLIENT_FLAG
  {
    HeadOfPrefix(buf, len);
  }

  /** The header the server sees in each phase. */
  lemma ServerSees(s: State, len: Length)
    requires Inv(s, len)
    ensures s.spc in {SCheck, SPut, SSync} && s.cpc in {CPosted, CSpin} ==> Head(s.sbuf) == CLIENT_FLAG
    ensures s.spc in {SPut, SSync, SReply, SPost} ==> s.cpc in {CPosted, CSpin} && Serving(s, len)
  {
    if s.cpc in {CPosted, CSpin} && Serving(s, len) && !Replied(s) && !Answering(s) {
      RecordHead(s.sbuf, s.calls[s.acked], len);
    }
  }

  lemma ServerPutKeeps(s: State, len: Length)
    requires Inv(s, len) && s.spc == SPut
    ensures Sized(ServerNext(s, len), len) && Protocol(ServerNext(s, len), len)
  {
    hide Stored, Record, Records;
    ServerSees(s, len);
    if s.sink.Pmr? {
      CopiedParts(s.sink.cache, s.sbuf[..len]);
    }
  }

  lemma ServerReplyKeeps(s: State, len: Length)
    requires Inv(s, len) && s.spc in {SSync, SReply, SPost}
    ensures Sized(ServerNext(s, len), len) && Protocol(ServerNext(s, len), len)
  {
    hide Stored, Record, Records, Copied;
    ServerSees(s, len);
    CopiedParts(s.sbuf, SERVER_FLAG);
  }

  lemma ServerPollKeeps(s: State, len: Length)
    requires Inv(s, len) && s.spc in {SPoll, SCheck, SPosted, SExit}
    ensures Sized(ServerNext(s, len), len) && Protocol(ServerNext(s, len), len)
  {
    hide Stored, Record, Records, Copied;
    ServerSees(s, len);
  }

  lemma ToServerKeeps(s: State, len: Length)
    requires Inv(s, len)
    ensures Sized(Next(s, len, ToServer), len) && Protocol(Next(s, len, ToServer), len)
  {
    hide Stored, Records, Copied, Record;
    if s.cnic.InFlight? {
      CopiedParts(s.sbuf, s.cbuf[..len]);
      HeadOfPrefix(s.cbuf, len);
      var r := Next(s, len, ToServer);
      HeadOfPrefix(r.sbuf, len);
      if s.cpc == CPosted {
        RecordHead(s.cbuf, s.calls[s.acked], len);
      }
    }
  }

  lemma ToClientKeeps(s: State, len: Length)
    requires Inv(s, len)
    ensures Sized(Next(s, len, ToClient), len) && Protocol(Next(s, len, ToClient), len)
  {
    hide Stored, Records, Copied, Record;
    if s.snic.InFlight? {
      CopiedParts(s.cbuf, s.sbuf[..HEADER]);
    }
  }

  // ---------------------------------------------------------------- what is stored

  lemma RecordsSnoc(calls: seq<bytes>, n: nat, len: Length)
    requires n < |calls| && forall b :: b in calls ==> |b| >= len
    ensures Records(calls[..n + 1], len) == Records(calls[..n], len) + Record(calls[n], len)
  {
    assert calls[..n + 1][..n] == calls[..n];
  }

  lemma {:induction false} RecordsLength(calls: seq<bytes>, len: Length)
    requires forall b :: b in calls ==> |b| >= len
    ensures |Records(calls, len)| == |calls| * len
  {
    hide Record;
    RecordLength(len);
    if calls != [] {
      RecordsLength(calls[..|calls| - 1], len);
      OneMoreTime(|calls| - 1, len);
    }
  }

  lemma RecordLength(len: Length)
    ensures forall b: bytes :: |b| >= len ==> |Record(b, len)| == len
  {
  }

  lemma OneMoreTime(n: nat, len: nat)
    ensures (n + 1) * len == n * len + len
  {
  }

  lemma PutStores(s: State, len: Length)
    requires Inv(s, len) && s.spc == SPut && Sized(ServerNext(s, len), len)
    ensures Stored(ServerNext(s, len), len)
  {
    hide Record, Records, Protocol;
    assert s.sbuf[..len] == Record(s.calls[s.persisted], len) && s.persisted < |s.calls| by { AtPut(s, len); }
    RecordsSnoc(s.calls, s.persisted, len);
    match s.sink
    case File(content, pos, synced) =>
      var r := ServerNext(s, len).sink;
      assert r.content[..r.pos] == content[..pos] + s.sbuf[..len];
    case Pmr(cache, durable) =>
      CopiedParts(cache, s.sbuf[..len]);
  }

  lemma AtPut(s: State, len: Length)
    requires Inv(s, len) && s.spc == SPut
    ensures s.persisted < |s.calls| && s.sbuf[..len] == Record(s.calls[s.persisted], len)
  {
    hide Stored, Record, Records;
    ServerSees(s, len);
  }

  lemma SyncStores(s: State, len: Length)
    requires Inv(s, len) && s.spc == SSync && Sized(ServerNext(s, len), len)
    ensures Stored(ServerNext(s, len), len)
  {
    hide Record, Records, Protocol;
  }

  lemma CallStores(s: State, len: Length, buffer: bytes)
    requires Inv(s, len) && Sized(Next(s, len, CallWrite(buffer)), len)
    ensures Stored(Next(s, len, CallWrite(buffer)), len)
  {
    hide Record, Records, Protocol;
    var r := Next(s, len, CallWrite(buffer));
    assert r.calls[..PutCount(s)] == s.calls[..PutCount(s)];
    assert r.calls[..s.persisted] == s.calls[..s.persisted];
  }

  lemma OthersStore(s: State, len: Length, a: Action)
    requires Inv(s, len) && !a.CallWrite? && (a.ServerStep? ==> s.spc != SPut && s.spc != SSync)
    requires Sized(Next(s, len, a), len)
    ensures Stored(Next(s, len, a), len)
  {
    hide Record, Records, Protocol, Copied;
    var r := Next(s, len, a);
    assert r.sink == s.sink && r.calls == s.calls && r.persisted == s.persisted && PutCount(r) == PutCount(s);
  }

  lemma StepKeeps(s: State, len: Length, a: Action)
    requires Inv(s, len)
    ensures Inv(Next(s, len, a), len)
  {
    hide Protocol, Stored, Sized, ClientNext, Records;
    match a
    case CallWrite(buffer) =>
      CallKeeps(s, len, a);
      CallStores(s, len, buffer);
    case CallClose =>
      CallKeeps(s, len, a);
      OthersStore(s, len, a);
    case ClientStep =>
      ClientKeeps(s, len);
      OthersStore(s, len, a);
    case ServerStep =>
      if s.spc == SPut {
        ServerPutKeeps(s, len);
        PutStores(s, len);
      } else if s.spc == SSync {
        ServerReplyKeeps(s, len);
        SyncStores(s, len);
      } else if s.spc in {SReply, SPost} {
        ServerReplyKeeps(s, len);
        OthersStore(s, len, a);
      } else {
        ServerPollKeeps(s, len);
        OthersStore(s, len, a);
      }
    case ToServer =>
      ToServerKeeps(s, len);
      OthersStore(s, len, a);
    case ToClient =>
      ToClientKeeps(s, len);
      OthersStore(s, len, a);
  }

  // ---------------------------------------------------------------- every run

  ghost function After(s: State, len: Length, actions: seq<Action>): State
    requires Inv(s, len)
    ensures Inv(After(s, len, actions), len)
    decreases |actions|
  {
    if actions == [] then s
    else
      StepKeeps(s, len, actions[0]);
      After(Next(s, len, actions[0]), len, actions[1..])
  }

  /** In every interleaving the persisted count runs ahead of the acknowledged one by at most one call,
      and the synced part of the file is exactly the records of the persisted calls, in order. */
  lemma PersistedInOrder(s0: State, len: Length, actions: seq<Action>)
    requires Init(s0, len)
    ensures Inv(s0, len)
    ensures var s := After(s0, len, actions);
            && s.acked <= s.persisted <= s.acked + 1 && s.persisted <= |s.calls| <= s.acked + 1
            && (s.sink.File? ==> s.sink.synced <= s.sink.pos <= |s.sink.content|)
            && (s.sink.File? ==>
                  && s.sink.synced == s.persisted * len
                  && s.sink.content[..s.sink.synced] == Records(s.calls[..s.persisted], len))
            && (s.sink.Pmr? && s.persisted > 0 ==>
                |s.sink.durable| >= len && s.sink.durable[..len] == Record(s.calls[s.persisted - 1], len))
  {
    hide After, Record;
    InitHolds(s0, len);
    var s := After(s0, len, actions);
    Bounds(s, len);
    RecordsLength(s.calls[..s.persisted], len);
    if s.sink.File? {
      SyncedPrefix(s, len);
    }
  }

  lemma Bounds(s: State, len: Length)
    requires Inv(s, len)
    ensures s.acked <= s.persisted <= s.acked + 1 && s.persisted <= |s.calls| <= s.acked + 1
    ensures s.cpc == CIdle ==> s.acked == s.persisted == |s.calls| && s.spc != SSync
    ensures s.spc == SExit ==> s.cpc in {CEndPosted, CClosed} && s.persisted == |s.calls| == s.acked
  {
    hide Stored, Record, Records;
  }

  lemma SyncedPrefix(s: State, len: Length)
    requires Inv(s, len) && s.sink.File?
    ensures s.sink.synced <= s.sink.pos
    ensures s.persisted <= |s.calls| && s.sink.content[..s.sink.synced] == Records(s.calls[..s.persisted], len)
  {
    hide Protocol, Record, Records;
    var content, pos, synced := s.sink.content, s.sink.pos, s.sink.synced;
    if s.spc == SSync {
      RecordsSnoc(s.calls, s.persisted, len);
      assert content[..synced] == content[..pos][..synced];
    }
  }

  /** When a Write returns, the storage holds exactly the records of all calls so far, all of them synced. */
  lemma WriteReturned(s0: State, len: Length, actions: seq<Action>)
    requires Init(s0, len)
    ensures Inv(s0, len)
    ensures var s := After(s0, len, actions);
            s.cpc == CIdle ==>
              && s.acked == |s.calls|
              && (s.sink.File? ==>
                    && s.sink.pos == s.sink.synced == |s.calls| * len
                    && s.sink.content[..s.sink.pos] == Records(s.calls, len))
              && (s.sink.Pmr? && s.calls != [] ==>
                  |s.sink.durable| >= len && s.sink.durable[..len] == Record(s.calls[|s.calls| - 1], len))
  {
    hide After, Record, Records, Protocol;
    InitHolds(s0, len);
    var s := After(s0, len, actions);
    Bounds(s, len);
    RecordsLength(s.calls, len);
    assert s.calls[..|s.calls|] == s.calls;
  }

  /** The server leaves Run only after Close, with every call persisted and acknowledged. */
  lemma ExitAfterClose(s0: State, len: Length, actions: seq<Action>)
    requires Init(s0, len)
    ensures Inv(s0, len)
    ensures var s := After(s0, len, actions);
            s.spc == SExit ==> s.cpc in {CEndPosted, CClosed} && s.acked == s.persisted == |s.calls|
  {
    hide After, Protocol, Stored;
    InitHolds(s0, len);
    Bounds(After(s0, len, actions), len);
  }

  // ---------------------------------------------------------------- every call returns

  /** Steps still to be taken by somebody before the call in progress returns (or the server exits). */
  function Remaining(s: State): nat
    requires |s.sbuf| >= HEADER
  {
    match s.cpc
    case CIdle => 0
    case CCopied => 17 + Unseen(s)
    case CFlagged => 16 + Unseen(s)
    case CPosted => if s.cnic == Delivered then 2 + ServerWork(s) else 15 + Unseen(s)
    case CSpin => 1 + ServerWork(s)
    case CEnding => 17 + Unseen(s)
    case CEndPosted => if s.cnic == Delivered then 2 + ServerWork(s) else 15 + Unseen(s)
    case CClosed => 1 + ServerWork(s)
  }

  /** The server has yet to poll the completion of its last reply. */
  function Unseen(s: State): nat {
    if s.spc == SPosted then 1 else 0
  }

  function ServerWork(s: State): nat
    requires |s.sbuf| >= HEADER
  {
    if Replied(s) then Unseen(s)
    else match s.spc
      case SPosted => if s.snic.InFlight? then 3 else 10
      case SPoll => 9
      case SCheck => 8
      case SPut => 7
      case SSync => 6
      case SReply => 5
      case SPost => 4
      case SExit => 0
  }

  /** Whose turn brings the call nearer to its end. */
  function Helpful(s: State): Action
    requires |s.cbuf| >= HEADER && |s.sbuf| >= HEADER
  {
    if s.cnic.InFlight? then ToServer
    else if s.snic.InFlight? then ToClient
    else if s.cpc in {CCopied, CFlagged, CEnding} || s.cnic == Delivered
        || (s.cpc == CSpin && Head(s.cbuf) == SERVER_FLAG) then ClientStep
    else ServerStep
  }

  predicate Done(s: State) {
    s.cpc == CIdle || s.spc == SExit
  }

  lemma ClientProgress(s: State, len: Length)
    requires Inv(s, len) && !Done(s)
    ensures var r := ClientNext(s, len); |r.sbuf| >= HEADER && (r == s || Remaining(r) < Remaining(s))
    ensures Helpful(s) == ClientStep ==> ClientNext(s, len) != s
  {
    hide Stored, Record, Records, Copied;
  }

  lemma ServerSeesRequest(s: State, len: Length)
    requires Inv(s, len) && s.spc == SPoll && Helpful(s) == ServerStep && !Done(s)
    ensures Head(s.sbuf) == CLIENT_FLAG || Head(s.sbuf) == END_FLAG
  {
    hide Stored, Records;
    if s.cpc == CSpin && !Replied(s) {
      RecordHead(s.sbuf, s.calls[s.acked], len);
    }
  }

  lemma ServerProgress(s: State, len: Length)
    requires Inv(s, len) && !Done(s)
    ensures var r := ServerNext(s, len); |r.sbuf| >= HEADER && (r == s || Remaining(r) < Remaining(s))
    ensures Helpful(s) == ServerStep ==> ServerNext(s, len) != s
  {
    hide Stored, Record, Records, Copied;
    CopiedParts(s.sbuf, SERVER_FLAG);
    if Helpful(s) == ServerStep && s.spc == SPoll {
      ServerSeesRequest(s, len);
    }
  }

  lemma DeliveryProgress(s: State, len: Length, a: Action)
    requires Inv(s, len) && !Done(s) && (a == ToServer || a == ToClient)
    ensures var r := Next(s, len, a); |r.sbuf| >= HEADER && (r == s || Remaining(r) < Remaining(s))
    ensures Helpful(s) == a ==> Next(s, len, a) != s
  {
    hide Stored, Record, Records, Copied;
    StepKeeps(s, len, a);
    if s.cnic.InFlight? {
      CopiedParts(s.sbuf, s.cbuf[..s.cnic.len]);
    }
  }

  /** While a call is in progress, every step by anybody either changes nothing or brings the call
      nearer to its end, and the helpful one does change something. */
  lemma StepProgress(s: State, len: Length, a: Action)
    requires Inv(s, len) && !Done(s)
    ensures Inv(Next(s, len, a), len)
    ensures Next(s, len, a) == s || Remaining(Next(s, len, a)) < Remaining(s)
    ensures a == Helpful(s) ==> Next(s, len, a) != s
  {
    hide Protocol, Stored, Remaining, ClientNext, ServerNext;
    StepKeeps(s, len, a);
    match a
    case CallWrite(_) =>
    case CallClose =>
    case ClientStep => ClientProgress(s, len);
    case ServerStep => ServerProgress(s, len);
    case ToServer => DeliveryProgress(s, len, a);
    case ToClient => DeliveryProgress(s, len, a);
  }

  /** Some point of the schedule finds the call returned (or the server gone, after Close). */
  ghost predicate Returns(s: State, len: Length, actions: seq<Action>)
    requires Inv(s, len)
    decreases |actions|
  {
    Done(s) || (actions != [] && (StepKeeps(s, len, actions[0]); Returns(Next(s, len, actions[0]), len, actions[1..])))
  }

  lemma {:induction false} ScheduleProgress(s: State, len: Length, actions: seq<Action>)
    requires Inv(s, len) && !Returns(s, len, actions)
    ensures Remaining(After(s, len, actions)) < Remaining(s)
              || (After(s, len, actions) == s && forall a :: a in actions ==> Next(s, len, a) == s)
    decreases |actions|
  {
    hide Protocol, Stored, Sized, Remaining, Next;
    if actions != [] {
      StepProgress(s, len, actions[0]);
      ScheduleProgress(Next(s, len, actions[0]), len, actions[1..]);
      assert actions == [actions[0]] + actions[1..];
    }
  }

  /** Everybody gets a turn. */
  predicate FairRound(actions: seq<Action>) {
    ClientStep in actions && ServerStep in actions && ToServer in actions && ToClient in actions
  }

  lemma RoundProgress(s: State, len: Length, actions: seq<Action>)
    requires Inv(s, len) && FairRound(actions) && !Returns(s, len, actions)
    ensures Remaining(After(s, len, actions)) < Remaining(s)
  {
    hide Protocol, Stored, Remaining, Next, Returns, After;
    ScheduleProgress(s, len, actions);
    assert !Done(s) by { NotDone(s, len, actions); }
    StepProgress(s, len, Helpful(s));
    assert Helpful(s) in actions;
  }

  lemma NotDone(s: State, len: Length, actions: seq<Action>)
    requires Inv(s, len) && !Returns(s, len, actions)
    ensures !Done(s)
  {
  }

  lemma {:induction false} ReturnsConcat(s: State, len: Length, a: seq<Action>, b: seq<Action>)
    requires Inv(s, len)
    ensures Returns(s, len, a) || Returns(After(s, len, a), len, b) ==> Returns(s, len, a + b)
    decreases |a|
  {
    hide Protocol, Stored, Sized, Next;
    if a == [] {
      assert a + b == b;
    } else {
      StepKeeps(s, len, a[0]);
      assert (a + b)[1..] == a[1..] + b;
      ReturnsConcat(Next(s, len, a[0]), len, a[1..], b);
    }
  }

  function Flatten(rounds: seq<seq<Action>>): seq<Action> {
    if rounds == [] then [] else rounds[0] + Flatten(rounds[1..])
  }

  /** Every Write returns and every Close ends the server, under any schedule in which everybody keeps
      getting turns: eighteen fair rounds are always enough, whatever else happens in them. */
  lemma {:induction false} EveryCallReturns(s: State, len: Length, rounds: seq<seq<Action>>)
    requires Inv(s, len) && (forall r :: r in rounds ==> FairRound(r)) && |rounds| >= Remaining(s)
    ensures Remaining(s) <= 18
    ensures Returns(s, len, Flatten(rounds))
    decreases |rounds|
  {
    hide Protocol, Stored, Next, Returns, After, FairRound;
    if Done(s) {
      DoneReturns(s, len, Flatten(rounds));
    } else {
      ReturnsConcat(s, len, rounds[0], Flatten(rounds[1..]));
      if !Returns(s, len, rounds[0]) {
        RoundProgress(s, len, rounds[0]);
        EveryCallReturns(After(s, len, rounds[0]), len, rounds[1..]);
      }
    }
  }

  lemma DoneReturns(s: State, len: Length, actions: seq<Action>)
    requires Inv(s, len) && Done(s)
    ensures Returns(s, len, actions)
  {
  }

  // ---------------------------------------------------------------- a whole call

  predicate InWrite(s: State) {
    s.cpc in {CCopied, CFlagged, CPosted, CSpin}
  }

  predicate InClose(s: State) {
    s.cpc in {CEnding, CEndPosted, CClosed}
  }

  /** A call leaves its own steps only by returning, and no other call begins meanwhile. */
  lemma CallGoesOn(s: State, len: Length, a: Action)
    requires Inv(s, len) && s.cpc != CIdle
    ensures var r := Next(s, len, a);
            && r.calls == s.calls
            && (InWrite(s) ==> InWrite(r) || r.cpc == CIdle) && (InClose(s) ==> InClose(r))
  {
    hide Protocol, Stored, Copied;
  }

  lemma {:induction false} ReturnPoint(s: State, len: Length, actions: seq<Action>) returns (k: nat)
    requires Inv(s, len) && s.cpc != CIdle && Returns(s, len, actions)
    ensures k <= |actions|
    ensures var r := After(s, len, actions[..k]);
            && r.calls == s.calls && Done(r)
            && (InWrite(s) ==> r.cpc == CIdle) && (InClose(s) ==> r.spc == SExit)
    decreases |actions|
  {
    hide Protocol, Stored, Next, Sized;
    if Done(s) {
      k := 0;
      Bounds(s, len);
    } else {
      StepKeeps(s, len, actions[0]);
      CallGoesOn(s, len, actions[0]);
      var r := Next(s, len, actions[0]);
      if r.cpc == CIdle {
        k := 1;
        assert actions[..1][1..] == [];
      } else {
        k := ReturnPoint(r, len, actions[1..]);
        assert actions[..k + 1][1..] == actions[1..][..k];
        k := k + 1;
      }
    }
  }

  /** A Write asked of an idle client begins, and at some point of any eighteen fair rounds it has returned, with its
      record behind those of all calls before it, synced. */
  lemma WriteCompletes(s: State, len: Length, buffer: bytes, rounds: seq<seq<Action>>) returns (k: nat)
    requires Inv(s, len) && s.cpc == CIdle && |buffer| >= len
    requires (forall r :: r in rounds ==> FairRound(r)) && |rounds| >= 18
    ensures k <= |Flatten(rounds)|
    ensures var r := After(s, len, [CallWrite(buffer)] + Flatten(rounds)[..k]);
            && r.cpc == CIdle && r.calls == s.calls + [buffer] && r.acked == |r.calls|
            && (r.sink.File? ==>
                  && r.sink.synced == r.sink.pos <= |r.sink.content|
                  && r.sink.content[..r.sink.synced] == Records(s.calls, len) + Record(buffer, len))
            && (r.sink.Pmr? ==> |r.sink.durable| >= len && r.sink.durable[..len] == Record(buffer, len))
  {
    hide Protocol, Stored, Copied, Records, Record, FairRound, Returns;
    var a := CallWrite(buffer);
    StepKeeps(s, len, a);
    var s1 := Next(s, len, a);
    EveryCallReturns(s1, len, rounds);
    k := ReturnPoint(s1, len, Flatten(rounds));
    var path := [a] + Flatten(rounds)[..k];
    assert path[0] == a && path[1..] == Flatten(rounds)[..k];
    StoredAtRest(After(s, len, path), len, s.calls, buffer);
  }

  lemma StoredAtRest(r: State, len: Length, before: seq<bytes>, buffer: bytes)
    requires Inv(r, len) && r.cpc == CIdle && r.calls == before + [buffer]
    ensures |buffer| >= len && (forall b :: b in before ==> |b| >= len) && r.acked == |r.calls|
    ensures r.sink.File? ==>
              && r.sink.synced == r.sink.pos <= |r.sink.content|
              && r.sink.content[..r.sink.synced] == Records(before, len) + Record(buffer, len)
    ensures r.sink.Pmr? ==> |r.sink.durable| >= len && r.sink.durable[..len] == Record(buffer, len)
  {
    hide Protocol, Records, Record;
    Bounds(r, len);
    assert buffer in r.calls && forall b :: b in before ==> b in r.calls;
    var n := |before|;
    assert r.calls[..n] == before && r.calls[..n + 1] == r.calls && r.calls[n] == buffer;
    RecordsSnoc(r.calls, n, len);
  }

  /** A Close asked of an idle client ends the server within eighteen fair rounds. */
  lemma CloseCompletes(s: State, len: Length, rounds: seq<seq<Action>>) returns (k: nat)
    requires Inv(s, len) && s.cpc == CIdle
    requires (forall r :: r in rounds ==> FairRound(r)) && |rounds| >= 18
    ensures k <= |Flatten(rounds)|
    ensures var r := After(s, len, [CallClose] + Flatten(rounds)[..k]);
            r.spc == SExit && r.calls == s.calls && r.persisted == |r.calls|
  {
    hide Protocol, Stored, Copied, FairRound, Returns;
    StepKeeps(s, len, CallClose);
    var s1 := Next(s, len, CallClose);
    EveryCallReturns(s1, len, rounds);
    k := ReturnPoint(s1, len, Flatten(rounds));
    var path := [CallClose] + Flatten(rounds)[..k];
    assert path[0] == CallClose && path[1..] == Flatten(rounds)[..k];
    Bounds(After(s, len, path), len);
  }

  // ---------------------------------------------------------------- an old file

  /** Beyond the server's offset the file is as it was found. */
  predicate OldBeyond(sink: Sink, found: bytes) {
    sink.File? && sink.pos <= |sink.content|
    && sink.content[sink.pos..] == if sink.pos <= |found| then found[sink.pos..] else []
  }

  lemma StepKeepsOld(s: State, len: Length, a: Action, found: bytes)
    requires Inv(s, len) && OldBeyond(s.sink, found)
    ensures OldBeyond(Next(s, len, a).sink, found)
  {
    hide Protocol, Stored, Copied;
    if a == ServerStep && s.spc == SPut {
      var content, pos := s.sink.content, s.sink.pos;
      var r := Put(s.sink, s.sbuf[..len]);
      assert r.content[r.pos..] == if r.pos <= |content| then content[pos..][len..] else [];
      assert r.pos <= |found| ==> found[pos..][len..] == found[r.pos..];
    }
  }

  /** The file is opened without being emptied: an older and longer one keeps its end behind the records. */
  lemma {:induction false} OldFileKeepsEnd(s0: State, len: Length, actions: seq<Action>, found: bytes)
    requires Inv(s0, len) && OldBeyond(s0.sink, found)
    ensures OldBeyond(After(s0, len, actions).sink, found)
    decreases |actions|
  {
    hide Protocol, Stored, Next, OldBeyond;
    if actions != [] {
      StepKeeps(s0, len, actions[0]);
      StepKeepsOld(s0, len, actions[0], found);
      OldFileKeepsEnd(Next(s0, len, actions[0]), len, actions[1..], found);
    }
  }

  // ---------------------------------------------------------------- a flag left in the server's buffer

  /** The initial state but for what the server's first word holds, which neither server clears. */
  predicate InitButHeader(s: State, len: Length) {
    |s.sbuf| >= len && Init(s.(sbuf := Copied(s.sbuf, SERVER_FLAG)), len)
  }

  function ServerSteps(s: State, len: Length, n: nat): (r: State)
    requires Sized(s, len)
    ensures Sized(r, len)
  {
    if n == 0 then s else
      SizedNext(ServerSteps(s, len, n - 1), len);
      ServerNext(ServerSteps(s, len, n - 1), len)
  }

  lemma SizedNext(s: State, len: Length)
    requires Sized(s, len)
    ensures Sized(ServerNext(s, len), len)
  {
  }

  /** The server alone, from the start: with neither flag it stays where it is; with the end flag it leaves its loop;
      with the client's flag it goes once through the loop and waits for its reply to be delivered. */
  ghost predicate StaleAt(s: State, r: State, n: nat)
    requires |s.sbuf| >= HEADER
  {
    if Head(s.sbuf) == CLIENT_FLAG then
      && r.spc == (match n
                   case 0 => SPoll
                   case 1 => SCheck
                   case 2 => SPut
                   case 3 => SSync
                   case 4 => SReply
                   case 5 => SPost
                   case _ => SPosted)
      && r.persisted == (if n >= 4 then 1 else 0)
      && (n >= 6 ==> r.snic != Delivered) && (n < 2 ==> r.sbuf == s.sbuf)
    else if Head(s.sbuf) == END_FLAG then
      r.spc == (if n == 0 then SPoll else if n == 1 then SCheck else SExit) && r.persisted == 0 && r.sbuf == s.sbuf
    else r == s
  }

  lemma {:induction false} StaleSteps(s: State, len: Length, n: nat)
    requires InitButHeader(s, len)
    ensures Sized(s, len) && StaleAt(s, ServerSteps(s, len, n), n)
  {
    if n == 0 {
      assert ServerSteps(s, len, 0) == s;
    } else {
      StaleSteps(s, len, n - 1);
      StaleStep(s, ServerSteps(s, len, n - 1), len, n - 1);
    }
  }

  lemma StaleStep(s: State, r: State, len: Length, n: nat)
    requires |s.sbuf| >= HEADER && Sized(r, len) && StaleAt(s, r, n) && s.spc == SPoll && s.persisted == 0
    ensures StaleAt(s, ServerNext(r, len), n + 1)
  {
    hide Put, Sync;
    assert CLIENT_FLAG[0] != END_FLAG[0];
  }

  /** Before any call, after any number of steps of the server: it has persisted a record, one that nobody sent, exactly
      when the word is the client's flag and four steps are done; it has left its loop, with no Close, exactly when the
      word is the end flag and two steps are done. */
  lemma StaleFlag(s: State, len: Length, n: nat)
    requires InitButHeader(s, len)
    ensures Sized(s, len)
    ensures var r := ServerSteps(s, len, n);
            && r.persisted == (if n >= 4 && Head(s.sbuf) == CLIENT_FLAG then 1 else 0)
            && (r.spc == SExit <==> n >= 2 && Head(s.sbuf) == END_FLAG)
  {
    hide ServerSteps;
    StaleSteps(s, len, n);
  }

  // ---------------------------------------------------------------- a write delivered word by word

  predicate Within(order: seq<nat>, n: nat) {
    forall j :: 0 <= j < |order| ==> order[j] < n
  }

  /** The server's slot after the words of the record at these places have arrived, in this order. */
  function Placed(slot: seq<nat>, record: seq<nat>, order: seq<nat>): (r: seq<nat>)
    requires |slot| == |record| && Within(order, |record|)
    ensures |r| == |slot| && forall i :: 0 <= i < |slot| ==> r[i] == if i in order then record[i] else slot[i]
  {
    if order == [] then slot else
      var last := order[|order| - 1];
      assert order == order[..|order| - 1] + [last];
      Placed(slot, record, order[..|order| - 1])[last := record[last]]
  }

  /** Every word arrives once. */
  ghost predicate Arrival(order: seq<nat>, n: nat) {
    Within(order, n) && (forall i: nat :: i < n ==> i in order) && Distinct(order)
  }

  /** A server that polls the first word finds the whole record whenever it sees the flag there, whatever the slot
      held before and whenever it looks. */
  ghost predicate WholeWhenSeen(record: seq<nat>, order: seq<nat>)
    requires |record| > 0 && Arrival(order, |record|)
  {
    forall slot, k :: WaitingSlot(slot, record) && 0 <= k <= |order| ==>
      var now := Placed(slot, record, order[..k]);
      now[0] == record[0] ==> now == record
  }

  predicate WaitingSlot(slot: seq<nat>, record: seq<nat>) {
    |slot| == |record| > 0 && slot[0] != record[0]
  }

  /** With the flag in the first word, that is so exactly when the first word arrives last. */
  lemma {:induction false} WholeIffHeaderLast(record: seq<nat>, order: seq<nat>)
    requires |record| > 0 && Arrival(order, |record|)
    ensures 0 in order && (WholeWhenSeen(record, order) <==> order[|order| - 1] == 0)
  {
    assert 0 in order;
    var n := |order| - 1;
    if order[n] == 0 {
      forall slot, k | WaitingSlot(slot, record) && 0 <= k <= |order|
        ensures var now := Placed(slot, record, order[..k]); now[0] == record[0] ==> now == record
      {
        SeenOnlyAtEnd(slot, record, order, k);
      }
    } else {
      TornBefore(record, order);
    }
  }

  lemma {:induction false} SeenOnlyAtEnd(slot: seq<nat>, record: seq<nat>, order: seq<nat>, k: nat)
    requires WaitingSlot(slot, record) && Arrival(order, |record|) && k <= |order| && order != []
    requires order[|order| - 1] == 0
    ensures var now := Placed(slot, record, order[..k]); now[0] == record[0] ==> now == record
  {
    if k < |order| {
      assert 0 !in order[..k];
    } else {
      assert order[..k] == order;
    }
  }

  /** Otherwise a slot that differs in the last word to arrive is taken too early. */
  lemma {:induction false} TornBefore(record: seq<nat>, order: seq<nat>)
    requires |record| > 0 && Arrival(order, |record|) && |order| > 0 && order[|order| - 1] != 0
    ensures !WholeWhenSeen(record, order)
  {
    var k := |order| - 1;
    var last := order[k];
    assert last in order;
    var slot := record[0 := record[0] + 1][last := record[last] + 1];
    assert 0 in order;
    var i :| 0 <= i < |order| && order[i] == 0;
    assert 0 in order[..k] by { assert order[..k][i] == 0; }
    assert last !in order[..k];
    assert WaitingSlot(slot, record);
    var now := Placed(slot, record, order[..k]);
    assert now[0] == record[0] && now[last] != record[last];
  }

  /** A record of a flag and one more word, delivered in address order: the server can store the flag with the old
      word. */
  lemma TornInAddressOrder(flag: nat, word: nat, before: nat, stale: nat)
    requires before != flag && stale != word
    ensures Placed([before, stale], [flag, word], [0]) == [flag, stale] != [flag, word]
    ensures Arrival([0, 1], 2) && !WholeWhenSeen([flag, word], [0, 1])
  {
    WholeIffHeaderLast([flag, word], [0, 1]);
  }
}
