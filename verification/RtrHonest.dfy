/** Runs against a cache that answers as section 8 of RFC 8210 says: the full data for a
    Reset Query and a merged difference for a Serial Query. Connections may be cut and time
    out anywhere, reading may be interrupted between PDUs, and Serial Notify PDUs may come at
    any time. (A read interrupted inside a PDU loses the bytes read so far; what follows on
    that connection is then no longer what the cache sent.) */
module RtrHonest {
  import opened SyncUndo
  import opened SyncTables
  import opened RtrSync
  import opened RtrResponse
  import opened RtrRuns
  import opened LinearHashing
  import opened Trie
  import opened AspaTable
  import opened AspaUpdate
  import opened AspaMerge

  /** The cache's data for every session and serial number. */
  type History = (nat, nat) -> Data

  ghost predicate OwnHistory(h: History, me: nat) {
    forall session: nat, serial: nat :: OwnData(h(session, serial), me)
  }

  const NO_DATA: Data := Data({}, {})

  // ----- Answers -----

  /** In a full response each customer is announced once, with providers. */
  ghost predicate FullAspa(ops: seq<Op>) {
    && (forall o :: o in ops ==> o.add && o.providers != [])
    && (forall i, j :: 0 <= i < j < |ops| ==> ops[i].customer != ops[j].customer)
  }

  /** A data response from one state of the cache to another, by what its PDUs say. */
  ghost predicate Response(pdus: seq<Pdu>, me: nat, session: nat, serial: nat, from: Data, to: Data) {
    && |pdus| >= 2
    && pdus[0] == CacheResponse(session) && pdus[|pdus| - 1] == EndOfData(session, serial)
    && var data := pdus[1..|pdus| - 1];
    && (forall p :: p in data ==> IsData(p))
    && IsDelta(V4Said(data, me) + V6Said(data, me), from.pfx, to.pfx)
    && IsDelta(KeysSaid(data, me), from.keys, to.keys)
  }

  ghost predicate FullResponse(pdus: seq<Pdu>, h: History, me: nat) {
    exists session: nat, serial: nat :: FullResponseAt(pdus, h, me, session, serial)
  }

  ghost predicate FullResponseAt(pdus: seq<Pdu>, h: History, me: nat, session: nat, serial: nat) {
    && Response(pdus, me, session, serial, NO_DATA, h(session, serial))
    && FullAspa(AspaSaid(pdus[1..|pdus| - 1]))
  }

  ghost predicate DeltaResponse(pdus: seq<Pdu>, h: History, me: nat, session: nat, serial: nat) {
    exists serial': nat :: Response(pdus, me, session, serial', h(session, serial), h(session, serial'))
  }

  /** What an honest cache sends after a query: the full data for a Reset Query, the difference
      from exactly the session and serial number it names for a Serial Query; or nothing, a
      Cache Reset or an error. */
  ghost predicate Answer(pdus: seq<Pdu>, h: History, me: nat, query: Sent) {
    || pdus == []
    || pdus == [CacheReset]
    || (|pdus| == 1 && pdus[0].ErrorReport?)
    || match query
       case Nothing => false
       case ResetQuery => FullResponse(pdus, h, me)
       case SerialQuery(session, serial) => DeltaResponse(pdus, h, me, session, serial)
  }

  /** The query that fits the socket's fields. */
  function QueryOf(s: Socket): Sent {
    if s.requestSession then ResetQuery else SerialQuery(s.session, s.serial)
  }

  /** An honest response, as it is stored. */
  lemma StoredLeads(pdus: seq<Pdu>, me: nat, session: nat, serial: nat, from: Data, to: Data)
    requires Response(pdus, me, session, serial, from, to)
    ensures Leads(BatchOf(pdus[1..|pdus| - 1], me), from, to)
    ensures BatchOf(pdus[1..|pdus| - 1], me).aspa == AspaSaid(pdus[1..|pdus| - 1])
  {
    StoredIsSaid(pdus[1..|pdus| - 1], me);
  }

  /** The rest of a response whose beginning was read and given up. */
  ghost predicate Leftover(pdus: seq<Pdu>) {
    forall p :: p in pdus ==> IsData(p) || p.EndOfData?
  }

  /** The PDUs among what is received, without Serial Notify. */
  function Pdus(ins: seq<Recv>): seq<Pdu> {
    if ins == [] then []
    else (if ins[0].Got? && !ins[0].pdu.SerialNotify? then [ins[0].pdu] else []) + Pdus(ins[1..])
  }

  // ----- A full response is always accepted -----

  lemma {:induction false} DistinctAddsFold(m: Providers, announced: set<nat>, ops: seq<Op>)
    requires FullAspa(ops) && forall o :: o in ops ==> o.customer !in announced
    ensures Fold(m, announced, ops).Ok?
    decreases |ops|
  {
    if ops != [] {
      assert ops[0] in ops;
      forall o | o in ops[1..] ensures o.customer !in announced + {ops[0].customer} {
        var i :| 1 <= i < |ops| && ops[i] == o;
        assert ops[0].customer != ops[i].customer;
      }
      DistinctAddsFold(Apply(m, ops[0]), Announce(announced, ops[0]), ops[1..]);
    }
  }

  lemma FullAspaAccepted(ops: seq<Op>)
    requires FullAspa(ops)
    ensures AspaAccepts([], ops)
  {
    assert Represents([], map[]);
    UpdateMeansFold([], ops, map[]);
    DistinctAddsFold(map[], {}, ops);
  }

  lemma PurgedHoldsNothing(t: Tables, me: nat)
    ensures HoldsData(Purged(t, me), me, NO_DATA)
  {
  }

  /** The atomic reset with an honest response: the socket has exactly the cache's data. */
  lemma ResetHonest(t: Tables, b: Batch, me: nat, d: Data)
    requires Leads(b, NO_DATA, d) && OwnData(d, me) && FullAspa(b.aspa)
    ensures ResetTables(t, b, me).ok && HoldsData(ResetTables(t, b, me).tables, me, d)
  {
    hide Update, Leads;
    PurgedHoldsNothing(t, me);
    FullAspaAccepted(b.aspa);
    DeltaUpdates(Purged(t, me), b, me, NO_DATA, d);
  }

  // ----- Reading an honest response -----

  /** Only the version and what depends on the connection differ. */
  ghost predicate SameCore(s: Socket, s': Socket) {
    && s'.session == s.session && s'.serial == s.serial && s'.requestSession == s.requestSession
    && s'.lastUpdate == s.lastUpdate && s'.resetting == s.resetting
  }

  lemma ReceiveCore(s: Socket, r: Recv)
    ensures var (s', got) := Receive(s, r);
            && SameCore(s, s') && s'.state in {s.state, Transport, Fatal}
            && (got.Delivered? ==> r.Got? && got.pdu == r.pdu && s'.state == s.state)
            && (got.TimedOut? ==> s'.state == s.state)
  {
  }

  /** Reading stopped early: nothing was changed. */
  ghost predicate GaveUp(o: RtrSync.Outcome, s: Socket, t: Tables) {
    o.Outcome? && !o.ok && o.tables == t && SameCore(s, o.socket) && o.socket.state in {s.state, Transport, Fatal}
  }

  /** The whole response was read. */
  ghost predicate Ended(o: RtrSync.Outcome, s: Socket, t: Tables, b: Batch, me: nat, session: nat, serial: nat) {
    exists s' :: SameCore(s, s') && s'.state == s.state && o == EndSync(s', t, b, me, session, serial, [])
  }

  lemma BatchOfNext(data: seq<Pdu>, i: nat, me: nat)
    requires i < |data| && forall p :: p in data ==> IsData(p)
    ensures BatchOf(data[..i + 1], me) == StorePdu(BatchOf(data[..i], me), data[i], me)
  {
    assert data[..i + 1][..i] == data[..i];
  }

  lemma {:induction false} CollectHonest(s: Socket, t: Tables, me: nat, ins: seq<Recv>, data: seq<Pdu>, i: nat,
                                         session: nat, serial: nat)
    requires i <= |data| && forall p :: p in data ==> IsData(p)
    requires Pdus(ins) <= data[i..] + [EndOfData(session, serial)]
    requires var o := Collect(s, t, BatchOf(data[..i], me), me, ins); o.Outcome? && o.rest == []
    ensures var o := Collect(s, t, BatchOf(data[..i], me), me, ins);
            || GaveUp(o, s, t)
            || (Pdus(ins) == data[i..] + [EndOfData(session, serial)] && Ended(o, s, t, BatchOf(data, me), me, session, serial))
    decreases |ins|
  {
    hide Receive, EndSync, StorePdu, BatchOf, Collect, GaveUp, Ended;
    var b := BatchOf(data[..i], me);
    CollectWaits(s, t, b, me);
    ReceiveCore(s, ins[0]);
    CollectCases(s, t, b, me, ins);
    OnePdu(ins);
    var (s', got) := Receive(s, ins[0]);
    var all := data[i..] + [EndOfData(session, serial)];
    if got.Delivered? && got.pdu.SerialNotify? {
      CollectHonest(s', t, me, ins[1..], data, i, session, serial);
      SameOutcome(Collect(s, t, b, me, ins), s, s', t, BatchOf(data, me), me, session, serial);
    } else if got.Delivered? {
      assert Pdus(ins) == [got.pdu] + Pdus(ins[1..]);
      assert got.pdu == Pdus(ins)[0] == all[0] && Pdus(ins[1..]) == Pdus(ins)[1..];
      if i < |data| {
        assert got.pdu == data[i] && data[i] in data;
        BatchOfNext(data, i, me);
        assert all[1..] == data[i + 1..] + [EndOfData(session, serial)];
        CollectHonest(s', t, me, ins[1..], data, i + 1, session, serial);
        SameOutcome(Collect(s, t, b, me, ins), s, s', t, BatchOf(data, me), me, session, serial);
      } else {
        assert data[..i] == data && all == [EndOfData(session, serial)];
        FinishRest(s', t, b, me, session, serial, ins[1..]);
        EndReached(Collect(s, t, b, me, ins), s, s', t, b, me, session, serial);
      }
    }
  }

  lemma CollectWaits(s: Socket, t: Tables, b: Batch, me: nat)
    ensures !Collect(s, t, b, me, []).Outcome?
  {
  }

  /** The cases of the receive loop. */
  lemma CollectCases(s: Socket, t: Tables, b: Batch, me: nat, ins: seq<Recv>)
    requires ins != []
    ensures var (s', got) := Receive(s, ins[0]); var o := Collect(s, t, b, me, ins);
            && (!got.Delivered? ==> GaveUp(o, s, t))
            && (got == Delivered(SerialNotify) ==> o == Collect(s', t, b, me, ins[1..]))
            && (got.Delivered? && IsData(got.pdu) ==> o == Collect(s', t, StorePdu(b, got.pdu, me), me, ins[1..]))
            && (got.Delivered? && got.pdu.EndOfData? ==>
                  o == EndSync(s', t, b, me, got.pdu.session, got.pdu.serial, ins[1..]))
  {
    hide Receive, EndSync, StorePdu, HandleError;
    ReceiveCore(s, ins[0]);
  }

  lemma SameOutcome(o: RtrSync.Outcome, s: Socket, s': Socket, t: Tables, b: Batch, me: nat, session: nat, serial: nat)
    requires SameCore(s, s') && s'.state == s.state
    ensures GaveUp(o, s, t) <==> GaveUp(o, s', t)
    ensures Ended(o, s, t, b, me, session, serial) <==> Ended(o, s', t, b, me, session, serial)
  {
  }

  lemma EndReached(o: RtrSync.Outcome, s: Socket, s': Socket, t: Tables, b: Batch, me: nat, session: nat, serial: nat)
    requires SameCore(s, s') && s'.state == s.state && o == EndSync(s', t, b, me, session, serial, [])
    ensures Ended(o, s, t, b, me, session, serial)
  {
  }

  lemma FinishRest(s: Socket, t: Tables, b: Batch, me: nat, session: nat, serial: nat, rest: seq<Recv>)
    ensures var o := EndSync(s, t, b, me, session, serial, rest); o.Outcome? && o.rest == rest
  {
  }

  /** What the socket's fields say about its records. */
  ghost predicate InStep(h: History, me: nat, s: Socket, t: Tables) {
    && (!s.requestSession ==> s.lastUpdate != 0 && !s.resetting && HoldsData(t, me, h(s.session, s.serial)))
    && (s.requestSession && s.lastUpdate == 0 && !s.resetting ==> HoldsData(t, me, NO_DATA))
  }

  /** After the Cache Response of an answer to the socket's query. */
  ghost predicate Responding(h: History, me: nat, s: Socket, b: Batch, session: nat, serial: nat) {
    if s.requestSession then Leads(b, NO_DATA, h(session, serial)) && FullAspa(b.aspa)
    else session == s.session && Leads(b, h(session, s.serial), h(session, serial))
  }

  lemma ResponseKeepsStep(h: History, me: nat, s: Socket, t: Tables, session: nat)
    requires InStep(h, me, s, t) && (s.requestSession || s.session == session)
    ensures var s' := HandleCacheResponse(s, session);
            && InStep(h, me, s', t) && s'.session == session && s'.serial == s.serial
            && s'.requestSession == s.requestSession && s'.state == s.state
            && (s'.requestSession ==> s'.lastUpdate == 0)
  {
  }

  /** The End of Data PDU of an answer. */
  lemma EndHonest(h: History, me: nat, s: Socket, t: Tables, b: Batch, session: nat, serial: nat)
    requires OwnHistory(h, me) && InStep(h, me, s, t) && s.session == session
    requires s.requestSession ==> s.lastUpdate == 0
    requires Responding(h, me, s, b, session, serial)
    ensures var o := EndSync(s, t, b, me, session, serial, []);
            && o.Outcome?
            && (o.ok ==> HoldsData(o.tables, me, h(session, serial)) && o.socket.session == session
                         && o.socket.serial == serial && !o.socket.resetting)
            && (!o.ok ==> InStep(h, me, o.socket, o.tables) && o.socket.state == Fatal)
  {
    hide Update, ResetTables, Leads, HoldsData, FullAspa;
    assert OwnData(h(session, serial), me) && OwnData(h(session, s.serial), me) && OwnData(NO_DATA, me);
    if s.resetting {
      ResetHonest(t, b, me, h(session, serial));
    } else if s.requestSession {
      DeltaUpdates(t, b, me, NO_DATA, h(session, serial));
    } else {
      DeltaUpdates(t, b, me, h(session, s.serial), h(session, serial));
    }
  }

  /** What is left to be read after a call of rtr_sync. */
  ghost predicate LeftAfter(h: History, me: nat, o: RtrSync.Outcome, left: seq<Pdu>) {
    && o.Outcome?
    && (o.ok ==> left == [])
    && (!o.ok ==>
        && o.socket.state in {Sync, Transport, Fatal, FastReconnect, NoDataAvail, NoIncrUpdate}
        && (o.socket.state == Sync ==> Answer(left, h, me, QueryOf(o.socket)) || Leftover(left))
        && (o.socket.state in {NoDataAvail, NoIncrUpdate} ==> left == []))
  }

  /** The session and serial of an answer that starts with a Cache Response. */
  lemma AnswerIsResponse(h: History, me: nat, s: Socket, pdus: seq<Pdu>) returns (data: seq<Pdu>, serial: nat)
    requires Answer(pdus, h, me, QueryOf(s)) && pdus != [] && pdus[0].CacheResponse?
    ensures pdus == [pdus[0]] + data + [EndOfData(pdus[0].session, serial)]
    ensures forall p :: p in data ==> IsData(p)
    ensures Responding(h, me, s, BatchOf(data, me), pdus[0].session, serial)
  {
    hide Leads, FullAspa;
    data := pdus[1..|pdus| - 1];
    serial := pdus[|pdus| - 1].serial;
    if s.requestSession {
      var session: nat, sn: nat :| FullResponseAt(pdus, h, me, session, sn);
      StoredLeads(pdus, me, session, sn, NO_DATA, h(session, sn));
    } else {
      var sn: nat :| Response(pdus, me, s.session, sn, h(s.session, s.serial), h(s.session, sn));
      StoredLeads(pdus, me, s.session, sn, h(s.session, s.serial), h(s.session, sn));
    }
  }

  /** From the Cache Response on. */
  lemma RespondHonest(h: History, me: nat, s: Socket, t: Tables, ins: seq<Recv>, now: nat, pending: seq<Pdu>)
    requires OwnHistory(h, me) && InStep(h, me, s, t) && s.state == Sync && 0 < now
    requires Answer(pending, h, me, QueryOf(s)) && pending != [] && pending[0].CacheResponse?
    requires Pdus(ins) <= pending[1..]
    requires var o := Collect(HandleCacheResponse(s, pending[0].session), t, NO_PDUS, me, ins); o.Outcome? && o.rest == []
    ensures var o := Collect(HandleCacheResponse(s, pending[0].session), t, NO_PDUS, me, ins);
            var o' := if o.ok then o.(socket := o.socket.(requestSession := false, lastUpdate := now)) else o;
            && InStep(h, me, o'.socket, o'.tables)
            && LeftAfter(h, me, o', pending[1..][|Pdus(ins)|..])
  {
    hide Collect, EndSync, HoldsData, Leads, FullAspa;
    var data, serial := AnswerIsResponse(h, me, s, pending);
    var session := pending[0].session;
    assert pending[1..] == data + [EndOfData(session, serial)];
    assert data[..0] == [] && data[0..] == data && BatchOf([], me) == NO_PDUS;
    ResponseKeepsStep(h, me, s, t, session);
    var s1 := HandleCacheResponse(s, session);
    var o := Collect(s1, t, NO_PDUS, me, ins);
    CollectHonest(s1, t, me, ins, data, 0, session, serial);
    if GaveUp(o, s1, t) {
      var left := pending[1..][|Pdus(ins)|..];
      forall p | p in left ensures IsData(p) || p.EndOfData? { assert p in pending[1..]; }
      assert Leftover(left);
    } else {
      var s2 :| SameCore(s1, s2) && s2.state == s1.state && o == EndSync(s2, t, BatchOf(data, me), me, session, serial, []);
      EndHonest(h, me, s2, t, BatchOf(data, me), session, serial);
    }
  }

  /** One call of rtr_sync while what the cache sent is an answer, or the rest of one. */
  lemma {:induction false} SyncHonest(h: History, me: nat, s: Socket, t: Tables, ins: seq<Recv>, now: nat, pending: seq<Pdu>)
    requires OwnHistory(h, me) && InStep(h, me, s, t) && s.state == Sync && 0 < now
    requires Answer(pending, h, me, QueryOf(s)) || Leftover(pending)
    requires Pdus(ins) <= pending
    requires var o := SyncOnce(s, t, me, ins, now); o.Outcome? && o.rest == []
    ensures var o := SyncOnce(s, t, me, ins, now);
            InStep(h, me, o.socket, o.tables) && LeftAfter(h, me, o, pending[|Pdus(ins)|..])
    decreases |ins|
  {
    hide Receive, Collect, HandleCacheResponse, HandleError, Answer, LeftAfter, InStep, OwnHistory;
    ReceiveCore(s, ins[0]);
    var (s', got) := Receive(s, ins[0]);
    AnswerStays(h, me, s, s', pending);
    CoreInStep(h, me, s, s', t);
    if got.Delivered? && got.pdu.SerialNotify? {
      assert Pdus(ins) == Pdus(ins[1..]);
      SyncHonest(h, me, s', t, ins[1..], now, pending);
    } else {
      OnePdu(ins);
      if got.Delivered? && got.pdu.CacheResponse? {
        assert got.pdu == Pdus(ins)[0] == pending[0] && pending[0] in pending;
        assert Pdus(ins[1..]) == Pdus(ins)[1..] <= pending[1..];
        assert pending[1..][|Pdus(ins[1..])|..] == pending[|Pdus(ins)|..];
        RespondHonest(h, me, s', t, ins[1..], now, pending);
      } else {
        SyncOther(h, me, s, t, ins, now, pending);
        CoreInStep(h, me, s, SyncOnce(s, t, me, ins, now).socket, t);
      }
    }
  }

  lemma CoreInStep(h: History, me: nat, s: Socket, s': Socket, t: Tables)
    requires SameCore(s, s') && InStep(h, me, s, t)
    ensures InStep(h, me, s', t)
  {
  }

  lemma AnswerStays(h: History, me: nat, s: Socket, s': Socket, pdus: seq<Pdu>)
    requires SameCore(s, s')
    ensures Answer(pdus, h, me, QueryOf(s)) <==> Answer(pdus, h, me, QueryOf(s'))
  {
  }

  lemma OnePdu(ins: seq<Recv>)
    requires ins != []
    ensures Pdus(ins) == (if ins[0].Got? && !ins[0].pdu.SerialNotify? then [ins[0].pdu] else []) + Pdus(ins[1..])
  {
  }

  /** Anything but a Cache Response: the call fails at once and changes no table. */
  lemma SyncOther(h: History, me: nat, s: Socket, t: Tables, ins: seq<Recv>, now: nat, pending: seq<Pdu>)
    requires s.state == Sync && ins != []
    requires Answer(pending, h, me, QueryOf(s)) || Leftover(pending)
    requires Pdus(ins) <= pending
    requires var got := Receive(s, ins[0]).1; got.Delivered? ==> !got.pdu.SerialNotify? && !got.pdu.CacheResponse?
    requires var o := SyncOnce(s, t, me, ins, now); o.Outcome? && o.rest == []
    ensures var o := SyncOnce(s, t, me, ins, now);
            && !o.ok && o.tables == t && SameCore(s, o.socket)
            && LeftAfter(h, me, o, pending[|Pdus(ins)|..])
  {
    hide Collect, Receive, FullResponse, DeltaResponse;
    ReceiveCore(s, ins[0]);
    var (s', got) := Receive(s, ins[0]);
    assert ins[1..] == [];
    assert Pdus(ins[1..]) == [];
    OnePdu(ins);
    var n := |Pdus(ins)|;
    AnswerStays(h, me, s, s', pending);
    if n == 0 {
      assert pending[n..] == pending;
    } else {
      AnswerRest(h, me, s, pending);
      assert pending[0] == Pdus(ins)[0];
    }
  }

  /** What follows the first PDU. */
  lemma AnswerRest(h: History, me: nat, s: Socket, pending: seq<Pdu>)
    requires Answer(pending, h, me, QueryOf(s)) || Leftover(pending)
    requires pending != []
    ensures Leftover(pending[1..])
    ensures pending[0].ErrorReport? || pending[0].CacheReset? ==> pending[1..] == []
  {
    assert pending[0] in pending;
    if Answer(pending, h, me, QueryOf(s)) && pending[0].CacheResponse? {
      var data, serial := AnswerIsResponse(h, me, s, pending);
      assert pending[1..] == data + [EndOfData(pending[0].session, serial)];
    }
  }

  // ----- Whole runs -----

  /** The socket with what the cache has sent on this connection and was not read yet. */
  datatype Peer = Peer(world: World, pending: seq<Pdu>)

  /** One step against an honest cache. What is received is what was pending, in order,
      with failures and Serial Notify PDUs anywhere between; a query is answered; closing
      the connection loses what is pending. */
  ghost predicate HonestStep(p: Peer, ev: Event, h: History, me: nat, p': Peer) {
    && Step(p.world, ev, me, p'.world)
    && match ev
       case Started => p'.pending == []
       case Stopped => p'.pending == []
       case Turned(env) =>
         var turn := Advance(p.world.socket, p.world.tables, me, env);
         && turn.Turn?
         && (p.world.socket.state in {Sync, Established} ==> Pdus(env.ins) <= p.pending)
         && (if turn.closed then p'.pending == []
             else if !turn.sent.Nothing? then Answer(p'.pending, h, me, turn.sent)
             else if p.world.socket.state in {Sync, Established} then p'.pending == p.pending[|Pdus(env.ins)|..]
             else p'.pending == p.pending)
  }

  /** What may be pending in each state. */
  ghost predicate PendingFits(h: History, me: nat, p: Peer) {
    match p.world.socket.state
    case Sync => Answer(p.pending, h, me, QueryOf(p.world.socket)) || Leftover(p.pending)
    case Transport => true
    case Fatal => true
    case FastReconnect => true
    case _ => p.pending == []
  }

  ghost predicate Consistent(h: History, me: nat, p: Peer) {
    InStep(h, me, p.world.socket, p.world.tables) && PendingFits(h, me, p)
    && (p.world.socket.state == Established ==> !p.world.socket.requestSession)
    && (p.world.socket.state == Reset ==> p.world.socket.requestSession)
  }

  lemma PurgeInStep(h: History, me: nat, s: Socket, t: Tables, expired: bool)
    requires InStep(h, me, s, t)
    ensures InStep(h, me, PurgedSocket(s, expired), PurgedTables(s, t, me, expired))
  {
  }

  /** The turns in state Sync and Established, which receive. */
  lemma SyncConsistent(h: History, me: nat, p: Peer, e: Env, p': Peer)
    requires OwnHistory(h, me) && Consistent(h, me, p) && HonestStep(p, Turned(e), h, me, p')
    requires p.world.socket.state == Sync
    ensures Consistent(h, me, p')
  {
    hide SyncOnce, HoldsData, Answer, InStep, OwnHistory;
    var s, t := p.world.socket, p.world.tables;
    SyncHonest(h, me, s, t, e.ins, e.now, p.pending);
    SyncLowers(s, t, me, e.ins, e.now);
    StateDoesNotMatter(h, me, SyncOnce(s, t, me, e.ins, e.now).socket, p'.world.tables, p'.world.socket.state);
  }

  lemma StateDoesNotMatter(h: History, me: nat, s: Socket, t: Tables, state: State)
    ensures InStep(h, me, s, t) <==> InStep(h, me, s.(state := state), t)
  {
  }

  lemma EstablishedConsistent(h: History, me: nat, p: Peer, e: Env, p': Peer)
    requires Consistent(h, me, p) && HonestStep(p, Turned(e), h, me, p')
    requires p.world.socket.state == Established
    ensures Consistent(h, me, p')
  {
    hide Receive, HoldsData, Answer;
    ReceiveCore(p.world.socket, e.ins[0]);
    assert p.pending[|Pdus(e.ins)|..] == [];
  }

  /** The other turns. */
  lemma QuietConsistent(h: History, me: nat, p: Peer, e: Env, p': Peer)
    requires Consistent(h, me, p) && HonestStep(p, Turned(e), h, me, p')
    requires p.world.socket.state !in {Sync, Established}
    ensures Consistent(h, me, p')
  {
    hide HoldsData, Purged, Answer, SyncOnce, Receive;
    var s, t := p.world.socket, p.world.tables;
    PurgeInStep(h, me, s.(hasReceived := false), t, e.expired);
    PurgeInStep(h, me, s.(requestSession := true, serial := 0, state := Reset), t, e.expired);
  }

  lemma StepConsistent(h: History, me: nat, p: Peer, ev: Event, p': Peer)
    requires OwnHistory(h, me) && Consistent(h, me, p) && HonestStep(p, ev, h, me, p')
    ensures Consistent(h, me, p')
  {
    match ev
    case Started =>
      hide HoldsData;
    case Stopped =>
      hide HoldsData, Purged;
      PurgedHoldsNothing(p.world.tables, me);
    case Turned(e) =>
      hide HonestStep, Consistent, OwnHistory;
      if p.world.socket.state == Sync {
        SyncConsistent(h, me, p, e, p');
      } else if p.world.socket.state == Established {
        EstablishedConsistent(h, me, p, e, p');
      } else {
        QuietConsistent(h, me, p, e, p');
      }
  }

  datatype HonestRun = HonestRun(peers: seq<Peer>, events: seq<Event>)

  ghost predicate IsHonestRun(r: HonestRun, h: History, me: nat) {
    && |r.peers| == |r.events| + 1
    && Initial(r.peers[0].world.socket) && r.peers[0].pending == []
    && HoldsData(r.peers[0].world.tables, me, NO_DATA)
    && forall i :: 0 <= i < |r.events| ==> HonestStep(r.peers[i], r.events[i], h, me, r.peers[i + 1])
  }

  /** Main result. Over every run against an honest cache, with connections cut anywhere:
      while the socket has a session, its prefixes and router keys in the tables are the
      cache's data at exactly its session id and serial number; and while it has none, was
      never updated and no reset is under way, it has no records. */
  lemma {:induction false} RecordsMatchSerial(r: HonestRun, h: History, me: nat, n: nat)
    requires OwnHistory(h, me) && IsHonestRun(r, h, me) && n < |r.peers|
    ensures var s := r.peers[n].world.socket; var t := r.peers[n].world.tables;
            && (!s.requestSession ==> HoldsData(t, me, h(s.session, s.serial)))
            && (s.requestSession && s.lastUpdate == 0 && !s.resetting ==> HoldsData(t, me, NO_DATA))
    ensures Consistent(h, me, r.peers[n])
    decreases n
  {
    hide HonestStep, HoldsData;
    if n > 0 {
      RecordsMatchSerial(r, h, me, n - 1);
      assert HonestStep(r.peers[n - 1], r.events[n - 1], h, me, r.peers[n - 1 + 1]);
      StepConsistent(h, me, r.peers[n - 1], r.events[n - 1], r.peers[n]);
    }
  }

  // ----- Such runs exist -----

  function OneRecordHistory(r: Record): History {
    (session: nat, serial: nat) => if session == 5 && serial == 1 then Data({r}, {}) else NO_DATA
  }

  function FirstSync(r: Record): seq<Pdu> {
    [CacheResponse(5), Ipv4Prefix(Change(1, r)), EndOfData(5, 1)]
  }

  lemma FirstSyncIsFull(r: Record, me: nat)
    requires r.socket == me
    ensures FullResponseAt(FirstSync(r), OneRecordHistory(r), me, 5, 1)
  {
    var pdus := FirstSync(r);
    var data := pdus[1..|pdus| - 1];
    assert data == [Ipv4Prefix(Change(1, r))] && data[1..] == [];
    StoredIsSaid(data, me);
    assert BatchOf(data, me) == NO_PDUS.(v4 := [Change(1, r)]) by {
      assert data[..0] == [] && BatchOf([], me) == NO_PDUS && RtrSync.Own(Change(1, r), me) == Change(1, r);
    }
    assert [Change(1, r)] + [] == [Change(1, r)];
    OneDelta(r);
  }

  lemma OneDelta(r: Record)
    ensures IsDelta([Change(1, r)], {}, {r}) && IsDelta<KeyEntry>([], {}, {})
  {
    OccursWhere([Change(1, r)], r);
    assert [Change(1, r)][0].record == r;
  }

  /** Reading it into an empty table. */
  lemma FirstSyncReads(s: Socket, r: Record, me: nat, now: nat)
    requires r.socket == me && s.requestSession && s.lastUpdate == 0 && !s.resetting && s.version == 2 && s.hasReceived == false
    ensures var ins := [Got(2, CacheResponse(5)), Got(2, Ipv4Prefix(Change(1, r))), Got(2, EndOfData(5, 1))];
            && SyncOnce(s, Tables({}, {}, []), me, ins, now)
               == Outcome(s.(session := 5, serial := 1, hasReceived := true, requestSession := false, lastUpdate := now),
                          Tables({r}, {}, []), true, [])
            && Pdus(ins) == FirstSync(r)
  {
    var a, b, c := Got(2, CacheResponse(5)), Got(2, Ipv4Prefix(Change(1, r))), Got(2, EndOfData(5, 1));
    var t := Tables({}, {}, []);
    assert [a, b, c][1..] == [b, c] && [b, c][1..] == [c] && [c][1..] == [];
    assert Pdus([c]) == [c.pdu] && Pdus([b, c]) == [b.pdu, c.pdu];
    var s1 := s.(hasReceived := true, session := 5);
    var batch := NO_PDUS.(v4 := [Change(1, r)]);
    assert Receive(s1, b) == (s1, Delivered(b.pdu)) && Receive(s1, c) == (s1, Delivered(c.pdu));
    assert StorePdu(NO_PDUS, b.pdu, me) == batch;
    assert Collect(s1, t, batch, me, [c]) == EndSync(s1, t, batch, me, 5, 1, []);
    assert Collect(s1, t, NO_PDUS, me, [b, c]) == Collect(s1, t, batch, me, [c]);
    assert Prefixes(batch) == [Change(1, r)];
    OneChange(r);
    assert Update(t, batch) == Result(Tables({r}, {}, []), true);
  }

  lemma OneChange(r: Record)
    ensures AcceptedCount({}, [Change(1, r)]) == 1 && DoAll({}, [Change(1, r)]) == {r}
    ensures AcceptedCount<KeyEntry>({}, []) == 0 && DoAll<KeyEntry>({}, []) == {}
  {
    var c := Change(1, r);
    assert [c][1..] == [] && Do({}, c) == {r} && AcceptedCount({r}, []) == 0 && DoAll({r}, []) == {r};
  }

  /** A run that starts with nothing and ends established with the cache's record. */
  lemma HonestRunExists(r: Record, me: nat) returns (run: HonestRun)
    requires r.socket == me
    ensures IsHonestRun(run, OneRecordHistory(r), me) && OwnHistory(OneRecordHistory(r), me)
    ensures var last := run.peers[|run.peers| - 1].world;
            last.socket.state == Established && last.tables.pfx == {r} && !last.socket.requestSession
  {
    var h, t := OneRecordHistory(r), Tables({}, {}, []);
    var s0 := Socket(Closed, 2, 0, 0, true, 0, false, false);
    var s1, s2, s3 := s0.(state := Connecting), s0.(state := Reset), s0.(state := Sync);
    var ins := [Got(2, CacheResponse(5)), Got(2, Ipv4Prefix(Change(1, r))), Got(2, EndOfData(5, 1))];
    var quiet := Env(false, true, true, [], 1);
    FirstSyncIsFull(r, me);
    FirstSyncReads(s3, r, me, 1);
    var s4 := s3.(state := Established, session := 5, serial := 1, hasReceived := true, requestSession := false, lastUpdate := 1);
    var p0, p1 := Peer(World(s0, t, Nothing), []), Peer(World(s1, t, Nothing), []);
    var p2, p3 := Peer(World(s2, t, Nothing), []), Peer(World(s3, t, ResetQuery), FirstSync(r));
    var p4 := Peer(World(s4, Tables({r}, {}, []), Nothing), []);
    hide SyncOnce, FullResponseAt, Purged;
    assert HonestStep(p0, Started, h, me, p1);
    assert HonestStep(p1, Turned(quiet), h, me, p2);
    assert FullResponse(FirstSync(r), h, me);
    assert HonestStep(p2, Turned(quiet), h, me, p3);
    assert HonestStep(p3, Turned(quiet.(ins := ins)), h, me, p4);
    run := HonestRun([p0, p1, p2, p3, p4], [Started, Turned(quiet), Turned(quiet), Turned(quiet.(ins := ins))]);
  }
}
