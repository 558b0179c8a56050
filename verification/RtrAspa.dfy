/** The socket's ASPA records over runs against an honest cache: when they are in step with
    the session and serial number, as the prefixes and router keys always are. */
module RtrAspa {
  import opened SyncUndo
  import opened SyncTables
  import opened RtrSync
  import opened RtrResponse
  import opened RtrRuns
  import opened RtrHonest
  import opened RtrStale
  import opened AspaTable
  import opened AspaUpdate
  import opened AspaMerge

  /** The cache's ASPA data for every session and serial number. */
  type AspaHistory = (nat, nat) -> Providers

  ghost predicate IsResponse(pdus: seq<Pdu>) {
    && |pdus| >= 2 && pdus[0].CacheResponse? && pdus[|pdus| - 1].EndOfData?
    && forall p :: p in pdus[1..|pdus| - 1] ==> IsData(p)
  }

  /** The ASPA operations a response says. */
  ghost function OpsOf(pdus: seq<Pdu>): seq<Op>
    requires IsResponse(pdus)
  {
    AspaSaid(pdus[1..|pdus| - 1])
  }

  /** The ASPA PDUs of a response lead from the data that the query is about to the data of
      the serial number at its end; announcements name providers. */
  ghost predicate AspaAnswer(pdus: seq<Pdu>, a: AspaHistory, query: Sent) {
    IsResponse(pdus) ==>
      var session, ops := pdus[0].session, OpsOf(pdus);
      && !EmptyAnnouncement(ops)
      && Fold(if query.SerialQuery? then a(query.session, query.serial) else map[], {}, ops) == Ok(a(session, pdus[|pdus| - 1].serial))
  }

  /** Whether a response will be applied as an atomic reset. */
  predicate Resets(s: Socket) {
    s.resetting || (s.requestSession && s.lastUpdate != 0)
  }

  /** The responses after which the ASPA records are right: a reset has ASPA PDUs or there
      are no old records, and an update leaves no stale record. */
  ghost predicate Clean(pdus: seq<Pdu>, s: Socket, t: Tables) {
    IsResponse(pdus) ==>
      if Resets(s) then OpsOf(pdus) != [] || t.aspa == [] else forall c :: !StaleCustomer(t.aspa, OpsOf(pdus), c)
  }

  /** The ASPA records are the cache's at the socket's session and serial number; a blank
      socket has none. */
  ghost predicate AspaInStep(a: AspaHistory, s: Socket, t: Tables) {
    && (!s.requestSession ==> Represents(t.aspa, a(s.session, s.serial)))
    && (Blank(s) ==> t.aspa == [])
  }

  /** The array after an accepted batch. */
  lemma ArrayMeans(arr: seq<AspaRecord>, ops: seq<Op>, m: Providers, m': Providers)
    requires Represents(arr, m) && Fold(m, {}, ops) == Ok(m') && AspaAccepts(arr, ops)
    ensures Represents(AspaArray(arr, ops), m') <==> forall c :: !StaleCustomer(arr, ops, c)
  {
    if ops == [] {
      assert forall c :: !StaleCustomer(arr, ops, c);
    } else {
      hide AspaMerge.Run, Represents, StaleCustomer, SortOps;
      UpdateMeansFold(arr, ops, m);
    }
  }

  lemma EmptyArray(arr: seq<AspaRecord>)
    ensures Represents(arr, map[]) <==> arr == []
    ensures arr == [] ==> forall ops, c :: !StaleCustomer(arr, ops, c)
  {
    if arr != [] { assert arr[0] in arr; }
  }

  /** The ASPA records after an accepted reset and an accepted update. */
  lemma ResetAspa(t: Tables, b: Batch, me: nat, m: Providers)
    requires ResetTables(t, b, me).ok && Fold(map[], {}, b.aspa) == Ok(m)
    ensures Represents(ResetTables(t, b, me).tables.aspa, m) <==> b.aspa != [] || t.aspa == []
  {
    hide Update, Represents, Fold, StaleCustomer, AspaAccepts, AspaArray;
    EmptyArray([]);
    EmptyArray(t.aspa);
    UpdateAspa(Purged(t, me), b);
    ArrayMeans([], b.aspa, map[], m);
    if b.aspa == [] { NothingFolded(); }
  }

  lemma NothingFolded()
    ensures Fold(map[], {}, []) == Ok(map[])
  {
  }

  lemma UpdateAspaMeans(t: Tables, b: Batch, m: Providers, m': Providers)
    requires Update(t, b).ok && Represents(t.aspa, m) && Fold(m, {}, b.aspa) == Ok(m')
    ensures Represents(Update(t, b).tables.aspa, m') <==> forall c :: !StaleCustomer(t.aspa, b.aspa, c)
  {
    hide Update, Represents, Fold, StaleCustomer, AspaAccepts, AspaArray;
    UpdateAspa(t, b);
    ArrayMeans(t.aspa, b.aspa, m, m');
  }

  /** The End of Data PDU of an answer. */
  lemma AspaEnd(h: History, a: AspaHistory, me: nat, s: Socket, s1: Socket, t: Tables, b: Batch, session: nat, serial: nat, now: nat)
    requires OwnHistory(h, me) && MarksFit(s) && AspaInStep(a, s, t) && (s.requestSession || s.session == session)
    requires SameCore(HandleCacheResponse(s, session), s1) && s1.session == session
    requires Responding(h, me, s, b, session, serial)
    requires Fold(if s.requestSession then map[] else a(session, s.serial), {}, b.aspa) == Ok(a(session, serial))
    ensures var o := EndSync(s1, t, b, me, session, serial, []);
            && (o.ok ==>
                (AspaInStep(a, o.socket.(requestSession := false, lastUpdate := now), o.tables) <==>
                 if Resets(s) then b.aspa != [] || t.aspa == [] else forall c :: !StaleCustomer(t.aspa, b.aspa, c)))
            && (!o.ok ==> AspaInStep(a, o.socket, o.tables))
  {
    hide Update, ResetTables, Represents, Fold, StaleCustomer, Leads, FullAspa;
    assert s1.resetting == Resets(s);
    if s1.resetting {
      assert OwnData(h(session, serial), me);
      ResetHonest(t, b, me, h(session, serial));
      ResetAspa(t, b, me, a(session, serial));
    } else {
      UpdateAllOrNothing(t, b);
      if Update(t, b).ok {
        var m := if s.requestSession then map[] else a(session, s.serial);
        EmptyArray(t.aspa);
        UpdateAspaMeans(t, b, m, a(session, serial));
      }
    }
  }

  /** From the Cache Response on. */
  lemma AspaRespond(h: History, a: AspaHistory, me: nat, s: Socket, t: Tables, ins: seq<Recv>, now: nat, pending: seq<Pdu>)
    requires OwnHistory(h, me) && MarksFit(s) && AspaInStep(a, s, t) && s.state == Sync
    requires Answer(pending, h, me, QueryOf(s)) && AspaAnswer(pending, a, QueryOf(s)) && pending != [] && pending[0].CacheResponse?
    requires Pdus(ins) <= pending[1..]
    requires var o := Collect(HandleCacheResponse(s, pending[0].session), t, NO_PDUS, me, ins); o.Outcome? && o.rest == []
    ensures var o := Collect(HandleCacheResponse(s, pending[0].session), t, NO_PDUS, me, ins);
            && (o.ok ==> (AspaInStep(a, o.socket.(requestSession := false, lastUpdate := now), o.tables) <==> Clean(pending, s, t)))
            && (!o.ok ==> AspaInStep(a, o.socket, o.tables))
            && Leftover(pending[1..][|Pdus(ins)|..])
  {
    hide Collect, EndSync, Leads, FullAspa, Fold, Represents, StaleCustomer, EmptyAnnouncement, BatchOf;
    var data, serial := AnswerIsResponse(h, me, s, pending);
    var session := pending[0].session;
    assert pending[1..] == data + [EndOfData(session, serial)];
    assert pending[1..|pending| - 1] == data && pending[|pending| - 1] == EndOfData(session, serial);
    NoData(data, me);
    StoredIsSaid(data, me);
    var s1 := HandleCacheResponse(s, session);
    var o := Collect(s1, t, NO_PDUS, me, ins);
    CollectHonest(s1, t, me, ins, data, 0, session, serial);
    var left := pending[1..][|Pdus(ins)|..];
    forall p | p in left ensures IsData(p) || p.EndOfData? { assert p in pending[1..]; }
    if !GaveUp(o, s1, t) {
      var s2 :| SameCore(s1, s2) && s2.state == s1.state && o == EndSync(s2, t, BatchOf(data, me), me, session, serial, []);
      AspaEnd(h, a, me, s, s2, t, BatchOf(data, me), session, serial, now);
    }
  }

  lemma NoData(data: seq<Pdu>, me: nat)
    ensures data[..0] == [] && data[0..] == data && BatchOf([], me) == NO_PDUS
  {
  }

  lemma AspaSync(h: History, a: AspaHistory, me: nat, s: Socket, t: Tables, ins: seq<Recv>, now: nat, pending: seq<Pdu>)
    requires OwnHistory(h, me) && MarksFit(s) && AspaInStep(a, s, t) && s.state == Sync
    requires (Answer(pending, h, me, QueryOf(s)) && AspaAnswer(pending, a, QueryOf(s))) || Leftover(pending)
    requires Pdus(ins) <= pending
    requires var o := SyncOnce(s, t, me, ins, now); o.Outcome? && o.rest == []
    ensures var o := SyncOnce(s, t, me, ins, now); var left := pending[|Pdus(ins)|..];
            && (o.ok ==> (AspaInStep(a, o.socket, o.tables) <==> Clean(pending, s, t)))
            && (!o.ok ==> AspaInStep(a, o.socket, o.tables))
            && (!o.ok ==> Leftover(left) || (left == pending && SameCore(s, o.socket)))
    decreases |ins|
  {
    hide Receive, Collect, HandleCacheResponse, HandleError, Answer, AspaAnswer, AspaInStep, OwnHistory, Clean, LeftAfter;
    ReceiveCore(s, ins[0]);
    var (s', got) := Receive(s, ins[0]);
    AnswerStays(h, me, s, s', pending);
    AspaStays(a, me, s, s', t, pending);
    if got.Delivered? && got.pdu.SerialNotify? {
      assert Pdus(ins) == Pdus(ins[1..]);
      AspaSync(h, a, me, s', t, ins[1..], now, pending);
    } else {
      OnePdu(ins);
      if got.Delivered? && got.pdu.CacheResponse? {
        assert got.pdu == Pdus(ins)[0] == pending[0] && pending[0] in pending;
        assert Pdus(ins[1..]) == Pdus(ins)[1..] <= pending[1..];
        assert pending[1..][|Pdus(ins[1..])|..] == pending[|Pdus(ins)|..];
        AspaRespond(h, a, me, s', t, ins[1..], now, pending);
      } else {
        SyncOther(h, me, s, t, ins, now, pending);
        AspaStays(a, me, s, SyncOnce(s, t, me, ins, now).socket, t, pending);
        assert ins[1..] == [] && Pdus(ins[1..]) == [];
        if |Pdus(ins)| == 0 {
          assert pending[0..] == pending;
        } else {
          AnswerRest(h, me, s, pending);
        }
      }
    }
  }

  lemma AspaStays(a: AspaHistory, me: nat, s: Socket, s': Socket, t: Tables, pdus: seq<Pdu>)
    requires SameCore(s, s')
    ensures AspaInStep(a, s, t) <==> AspaInStep(a, s', t)
    ensures AspaAnswer(pdus, a, QueryOf(s)) <==> AspaAnswer(pdus, a, QueryOf(s'))
    ensures Clean(pdus, s, t) <==> Clean(pdus, s', t)
    ensures MarksFit(s) <==> MarksFit(s')
  {
  }

  // ----- Whole runs -----

  /** An honest step whose answer has honest ASPA PDUs too. */
  ghost predicate AspaHonestStep(p: Peer, ev: Event, h: History, a: AspaHistory, me: nat, p': Peer) {
    && HonestStep(p, ev, h, me, p')
    && (ev.Turned? && p'.world.sent != Nothing ==> AspaAnswer(p'.pending, a, p'.world.sent))
  }

  ghost predicate AspaFits(a: AspaHistory, me: nat, p: Peer) {
    p.world.socket.state == Sync ==> AspaAnswer(p.pending, a, QueryOf(p.world.socket)) || Leftover(p.pending)
  }

  /** The step accepts a response. */
  ghost predicate Accepting(p: Peer, p': Peer) {
    p.world.socket.state == Sync && p'.world.socket.state == Established
  }

  lemma SyncAspa(h: History, a: AspaHistory, me: nat, p: Peer, e: Env, p': Peer)
    requires OwnHistory(h, me) && Consistent(h, me, p) && MarksFit(p.world.socket) && AspaFits(a, me, p)
    requires AspaHonestStep(p, Turned(e), h, a, me, p') && p.world.socket.state == Sync
    requires AspaInStep(a, p.world.socket, p.world.tables)
    ensures AspaFits(a, me, p')
    ensures AspaInStep(a, p'.world.socket, p'.world.tables)
       <==> (Accepting(p, p') ==> Clean(p.pending, p.world.socket, p.world.tables))
  {
    hide SyncOnce, Answer, AspaAnswer, InStep, OwnHistory, AspaInStep, Clean, Leftover;
    var s, t := p.world.socket, p.world.tables;
    var o := SyncOnce(s, t, me, e.ins, e.now);
    AspaSync(h, a, me, s, t, e.ins, e.now, p.pending);
    SyncLowers(s, t, me, e.ins, e.now);
    AspaStays(a, me, o.socket, p'.world.socket, p'.world.tables, p'.pending);
    if SameCore(s, o.socket) { AspaStays(a, me, s, o.socket, t, p.pending); }
  }

  lemma QuietAspa(h: History, a: AspaHistory, me: nat, p: Peer, ev: Event, p': Peer)
    requires Consistent(h, me, p) && MarksFit(p.world.socket) && AspaFits(a, me, p)
    requires AspaHonestStep(p, ev, h, a, me, p') && (ev.Turned? ==> p.world.socket.state != Sync)
    requires AspaInStep(a, p.world.socket, p.world.tables)
    ensures AspaFits(a, me, p')
    ensures AspaInStep(a, p'.world.socket, p'.world.tables) && (ev.Turned? ==> !Accepting(p, p'))
  {
    hide SyncOnce, Answer, AspaAnswer, Receive, Represents, Leftover, InStep;
    if ev.Turned? && p.world.socket.state == Established { ReceiveCore(p.world.socket, ev.env.ins[0]); }
  }

  datatype AspaRun = AspaRun(peers: seq<Peer>, events: seq<Event>)

  ghost predicate IsAspaRun(r: AspaRun, h: History, a: AspaHistory, me: nat) {
    && IsHonestRun(HonestRun(r.peers, r.events), h, me) && r.peers[0].world.tables.aspa == []
    && forall i :: 0 <= i < |r.events| ==> AspaHonestStep(r.peers[i], r.events[i], h, a, me, r.peers[i + 1])
  }

  /** A response accepted in this step puts the ASPA records out of step. */
  ghost predicate Spoils(p: Peer, p': Peer, me: nat) {
    Accepting(p, p') && !Clean(p.pending, p.world.socket, p.world.tables)
  }

  /** Over every run against an honest cache: as long as every accepted response was clean,
      the ASPA records are the cache's at exactly the socket's session and serial number;
      the first accepted response that is not clean puts them out of step. */
  lemma {:induction false} AspaMatchSerial(r: AspaRun, h: History, a: AspaHistory, me: nat, n: nat)
    requires OwnHistory(h, me) && IsAspaRun(r, h, a, me) && n < |r.peers|
    requires forall i :: 0 <= i < n - 1 ==> !Spoils(r.peers[i], r.peers[i + 1], me)
    ensures MarksFit(r.peers[n].world.socket) && AspaFits(a, me, r.peers[n])
    ensures AspaInStep(a, r.peers[n].world.socket, r.peers[n].world.tables)
       <==> (n == 0 || !Spoils(r.peers[n - 1], r.peers[n], me))
    decreases n
  {
    hide HonestStep, HoldsData, AspaFits, AspaInStep, Clean, MarksFit, OwnHistory, Consistent;
    if n == 0 {
      FirstAspa(a, me, r.peers[0]);
    } else {
      AspaMatchSerial(r, h, a, me, n - 1);
      assert n > 1 ==> !Spoils(r.peers[n - 2], r.peers[n - 2 + 1], me);
      var p, ev, p' := r.peers[n - 1], r.events[n - 1], r.peers[n];
      assert AspaHonestStep(p, ev, h, a, me, r.peers[n - 1 + 1]);
      HonestIsStep(p, ev, h, me, p');
      StepMarks(p.world, ev, me, p'.world);
      RecordsMatchSerial(HonestRun(r.peers, r.events), h, me, n - 1);
      if ev.Turned? && p.world.socket.state == Sync {
        SyncAspa(h, a, me, p, ev.env, p');
      } else {
        QuietAspa(h, a, me, p, ev, p');
        if !ev.Turned? { NotAccepting(p, ev, me, p'); }
      }
    }
  }

  lemma HonestIsStep(p: Peer, ev: Event, h: History, me: nat, p': Peer)
    requires HonestStep(p, ev, h, me, p')
    ensures Step(p.world, ev, me, p'.world)
  {
  }

  lemma NotAccepting(p: Peer, ev: Event, me: nat, p': Peer)
    requires Step(p.world, ev, me, p'.world) && !ev.Turned?
    ensures !Accepting(p, p')
  {
  }

  lemma FirstAspa(a: AspaHistory, me: nat, p: Peer)
    requires Initial(p.world.socket) && p.world.tables.aspa == []
    ensures MarksFit(p.world.socket) && AspaFits(a, me, p) && AspaInStep(a, p.world.socket, p.world.tables)
  {
  }
}
