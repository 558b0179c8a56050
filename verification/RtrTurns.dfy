/** What single calls and turns do, said without the functions that model them: which
    responses are accepted, when the version goes down, when records expire, and that a
    socket that is not stopped gets back to synchronising (rtrlib/rtr/packets.c and
    rtrlib/rtr/rtr.c). */
module RtrTurns {
  import opened SyncUndo
  import opened SyncTables
  import opened RtrSync
  import opened RtrResponse
  import opened RtrRuns
  import opened RtrHonest
  import opened RtrStale
  import opened Trie
  import opened LinearHashing

  // ----- The version -----

  /** The version and the kind of the header that a read brings, if it brings one. */
  ghost predicate SeesHeader(r: Recv, v: nat, isError: bool) {
    match r
    case Got(version, pdu) => v == version && isError == pdu.ErrorReport?
    case Cut(header, _) => header.Header? && v == header.version && isError == header.isError
  }

  /** The version goes down if and only if this is the first header of the connection, it is
      not that of an error PDU, and it has a lower version; then to that version. A PDU is
      delivered if and only if it came whole, in the socket's version unless it is an error
      PDU, and ASPA only in version 2. */
  lemma ReceiveExact(s: Socket, r: Recv)
    requires s.version <= 2
    ensures var (s', got) := Receive(s, r);
            && (forall v: nat, isError: bool :: SeesHeader(r, v, isError) ==>
                  && s'.hasReceived
                  && s'.version == if !s.hasReceived && !isError && v < s.version then v else s.version)
            && ((forall v: nat, isError: bool :: !SeesHeader(r, v, isError)) ==> s'.version == s.version && s'.hasReceived == s.hasReceived)
            && (got.Delivered? <==> r.Got? && (r.pdu.ErrorReport? || r.version == s'.version) && (r.pdu.Aspa? ==> r.version == 2))
            && (got.Delivered? ==> got.pdu == r.pdu)
            && (r.Got? ==> s'.state == s.state)
  {
    match r
    case Got(v, pdu) => assert SeesHeader(r, v, pdu.ErrorReport?);
    case Cut(header, _) => if header.Header? { assert SeesHeader(r, header.version, header.isError); }
  }

  /** An error PDU: code 2 means no data; code 4 from a lower version means to reconnect with
      it; everything else is fatal. Nothing but state and version changes. */
  lemma ErrorExact(s: Socket, code: nat, v: nat)
    requires s.version <= 2
    ensures var s' := HandleError(s, code, v);
            && (s'.state == NoDataAvail <==> code == 2)
            && (s'.state == FastReconnect <==> code == 4 && v < s.version)
            && s'.state in {NoDataAvail, FastReconnect, Fatal}
            && s'.version == (if code == 4 && v < s.version then v else s.version)
            && SameCore(s, s') && s'.hasReceived == s.hasReceived
  {
  }

  // ----- Which responses are accepted -----

  /** PDUs that arrive whole, in one version. */
  function Arriving(v: nat, pdus: seq<Pdu>): (ins: seq<Recv>)
    ensures |ins| == |pdus| && forall i :: 0 <= i < |pdus| ==> ins[i] == Got(v, pdus[i])
  {
    seq(|pdus|, i requires 0 <= i < |pdus| => Got(v, pdus[i]))
  }

  /** What a response says, as the lists that are applied: IPv4 prefixes before IPv6 prefixes. */
  ghost function Meant(data: seq<Pdu>, me: nat): Batch {
    Batch(V4Said(data, me), V6Said(data, me), KeysSaid(data, me), AspaSaid(data))
  }

  lemma {:induction false} CollectWhole(s: Socket, t: Tables, me: nat, v: nat, data: seq<Pdu>, i: nat, session: nat, serial: nat)
    requires s.version == v && s.hasReceived && i <= |data|
    requires forall p :: p in data ==> IsData(p) && (p.Aspa? ==> v == 2)
    ensures Collect(s, t, BatchOf(data[..i], me), me, Arriving(v, data[i..] + [EndOfData(session, serial)]))
         == EndSync(s, t, BatchOf(data, me), me, session, serial, [])
    decreases |data| - i
  {
    hide EndSync, StorePdu, BatchOf;
    var b := BatchOf(data[..i], me);
    var ins := Arriving(v, data[i..] + [EndOfData(session, serial)]);
    if i == |data| {
      assert data[..i] == data && ins == [Got(v, EndOfData(session, serial))] && ins[1..] == [];
    } else {
      assert data[i] in data && ins[0] == Got(v, data[i]);
      assert ins[1..] == Arriving(v, data[i + 1..] + [EndOfData(session, serial)]);
      BatchOfNext(data, i, me);
      CollectWhole(s, t, me, v, data, i + 1, session, serial);
    }
  }

  /** The session that counts: the one of the response if the socket asked for one. */
  function OwnSession(s: Socket, session: nat): nat {
    if s.requestSession then session else s.session
  }

  /** Every whole response, from any cache. It is accepted if and only if its End of Data names
      the session that counts and what it says can be applied: to the tables, or to tables
      without the socket's records if there was an update before. Then session and serial
      number are the response's. Otherwise the socket keeps its serial number and is in
      state fatal. */
  lemma ResponseExact(s: Socket, t: Tables, me: nat, v: nat, session: nat, data: seq<Pdu>, session': nat, serial: nat, now: nat)
    requires v == s.version || (!s.hasReceived && v < s.version <= 2)
    requires forall p :: p in data ==> IsData(p) && (p.Aspa? ==> v == 2)
    ensures var ins := Arriving(v, [CacheResponse(session)] + data + [EndOfData(session', serial)]);
            var o := SyncOnce(s, t, me, ins, now);
            var reset := s.resetting || (s.requestSession && s.lastUpdate != 0);
            var applied := if reset then ResetTables(t, Meant(data, me), me) else Update(t, Meant(data, me));
            && o.Outcome? && o.rest == []
            && (o.ok <==> session' == OwnSession(s, session) && applied.ok)
            && o.tables == (if session' == OwnSession(s, session) then applied.tables else t)
            && o.socket.version == v && o.socket.session == OwnSession(s, session)
            && (o.ok ==> o.socket.serial == serial && o.socket.lastUpdate == now && !o.socket.requestSession && !o.socket.resetting)
            && (!o.ok ==> o.socket.serial == s.serial && o.socket.requestSession == s.requestSession && o.socket.state == Fatal)
  {
    hide Update, ResetTables, StorePdu, BatchOf, Collect;
    var all := [CacheResponse(session)] + data + [EndOfData(session', serial)];
    var ins := Arriving(v, all);
    assert ins[0] == Got(v, CacheResponse(session));
    assert ins[1..] == Arriving(v, data[0..] + [EndOfData(session', serial)]);
    var s1 := Receive(s, ins[0]).0;
    assert s1.version == v && s1.hasReceived;
    NothingStored(data, me);
    CollectWhole(HandleCacheResponse(s1, session), t, me, v, data, 0, session', serial);
    StoredIsSaid(data, me);
  }

  lemma NothingStored(data: seq<Pdu>, me: nat)
    ensures data[..0] == [] && BatchOf([], me) == NO_PDUS && data[0..] == data
  {
  }

  /** Nothing else is accepted: every PDU came whole, and apart from Serial Notify they are one
      Cache Response, data, and one End of Data that names the session that counts. */
  lemma {:induction false} AcceptedOnly(s: Socket, t: Tables, me: nat, ins: seq<Recv>, now: nat)
    returns (session: nat, data: seq<Pdu>, serial: nat)
    requires var o := SyncOnce(s, t, me, ins, now); o.Outcome? && o.ok && o.rest == []
    ensures forall i :: 0 <= i < |ins| ==> ins[i].Got?
    ensures forall p :: p in data ==> IsData(p)
    ensures Pdus(ins) == [CacheResponse(session)] + data + [EndOfData(OwnSession(s, session), serial)]
    decreases |ins|
  {
    hide Receive, Collect;
    ReceiveCore(s, ins[0]);
    var (s', got) := Receive(s, ins[0]);
    OnePdu(ins);
    if got.pdu.SerialNotify? {
      session, data, serial := AcceptedOnly(s', t, me, ins[1..], now);
      assert Pdus(ins) == Pdus(ins[1..]);
    } else {
      session := got.pdu.session;
      data, serial := CollectedOnly(HandleCacheResponse(s', session), t, NO_PDUS, me, ins[1..]);
    }
    forall i | 0 <= i < |ins| ensures ins[i].Got? { assert i > 0 ==> ins[i] == ins[1..][i - 1]; }
  }

  lemma {:induction false} CollectedOnly(s: Socket, t: Tables, b: Batch, me: nat, ins: seq<Recv>) returns (data: seq<Pdu>, serial: nat)
    requires var o := Collect(s, t, b, me, ins); o.Outcome? && o.ok && o.rest == []
    ensures forall i :: 0 <= i < |ins| ==> ins[i].Got?
    ensures forall p :: p in data ==> IsData(p)
    ensures Pdus(ins) == data + [EndOfData(s.session, serial)]
    decreases |ins|
  {
    hide Receive, Update, ResetTables, StorePdu;
    ReceiveCore(s, ins[0]);
    var (s', got) := Receive(s, ins[0]);
    OnePdu(ins);
    if got.pdu.SerialNotify? {
      data, serial := CollectedOnly(s', t, b, me, ins[1..]);
      assert Pdus(ins) == Pdus(ins[1..]);
    } else if IsData(got.pdu) {
      var rest;
      rest, serial := CollectedOnly(s', t, StorePdu(b, got.pdu, me), me, ins[1..]);
      data := [got.pdu] + rest;
    } else {
      data, serial := [], got.pdu.serial;
      assert ins[1..] == [] && Pdus([]) == [];
    }
    forall i | 0 <= i < |ins| ensures ins[i].Got? { assert i > 0 ==> ins[i] == ins[1..][i - 1]; }
  }

  /** A Cache Response of a foreign session makes the state fatal and is read on all the same:
      with the right session in End of Data its data are applied and the socket is
      established. */
  lemma ForeignSessionAccepted(r: Record, me: nat)
    requires r.socket == me
    ensures var s := Socket(Sync, 2, 5, 1, false, 7, false, true); var t := Tables({}, {}, []);
            var ins := Arriving(2, [CacheResponse(6), Ipv4Prefix(Change(1, r)), EndOfData(5, 2)]);
            var turn := Advance(s, t, me, Env(false, true, true, ins, 8));
            turn.Turn? && turn.socket.state == Established && turn.tables.pfx == {r} && turn.socket.serial == 2
  {
    var s, t := Socket(Sync, 2, 5, 1, false, 7, false, true), Tables({}, {}, []);
    var data := [Ipv4Prefix(Change(1, r))];
    ResponseExact(s, t, me, 2, 6, data, 5, 2, 8);
    assert [CacheResponse(6)] + data + [EndOfData(5, 2)] == [CacheResponse(6), Ipv4Prefix(Change(1, r)), EndOfData(5, 2)];
    hide SyncOnce;
    assert data[1..] == [];
    assert V4Said([], me) == [] && V6Said([], me) == [] && KeysSaid([], me) == [] && AspaSaid([]) == [];
    var b := Meant(data, me);
    assert b.v4 == [Change(1, r)] && b.v6 == [] && b.keys == [] && b.aspa == [];
    assert Prefixes(b) == [Change(1, r)];
    OneChange(r);
    assert Update(t, b) == Result(Tables({r}, {}, []), true);
  }

  // ----- Expired records -----

  /** The turns that look at the time: with expired records, and only then, all of the socket's
      records leave the tables and the session is given up, to be reset atomically. */
  lemma ExpiredLeave(s: Socket, t: Tables, me: nat, e: Env)
    requires s.state in {Connecting, NoDataAvail, NoIncrUpdate}
    ensures var turn := Advance(s, t, me, e);
            && turn.Turn?
            && (if s.lastUpdate != 0 && e.expired
                then && Share(turn.tables, me) == NO_RECORDS
                     && turn.socket.requestSession && turn.socket.serial == 0 && turn.socket.lastUpdate == 0 && turn.socket.resetting
                else turn.tables == t && turn.socket.lastUpdate == s.lastUpdate && turn.socket.resetting == s.resetting)
            && SameOthers(t, turn.tables, me)
  {
    PurgedOthers(t, me);
    NothingOwn(t, me);
  }

  /** Stopping: the records leave, session, serial number and time of update are given up, and
      the version stays. Starting only connects. */
  lemma StopAndStart(w: World, me: nat)
    ensures var s' := Stop(w.socket);
            && s'.state == Closed && s'.requestSession && s'.serial == 0 && s'.lastUpdate == 0
            && s'.version == w.socket.version && s'.session == w.socket.session && s'.resetting == w.socket.resetting
    ensures Step(w, Stopped, me, World(Stop(w.socket), Purged(w.tables, me), Nothing)) <==> w.socket.state != Closed
    ensures Share(Purged(w.tables, me), me) == NO_RECORDS && SameOthers(w.tables, Purged(w.tables, me), me)
    ensures var s' := Start(w.socket);
            s'.state == Connecting && SameCore(w.socket, s') && s'.version == w.socket.version && s'.hasReceived == w.socket.hasReceived
  {
    PurgedOthers(w.tables, me);
    NothingOwn(w.tables, me);
  }

  /** Every other turn but a synchronisation leaves the tables. */
  lemma OtherTurnsKeepTables(s: Socket, t: Tables, me: nat, e: Env)
    requires s.state !in {Connecting, NoDataAvail, NoIncrUpdate, Sync}
    ensures var turn := Advance(s, t, me, e); turn.Turn? ==> turn.tables == t
  {
    hide Receive;
  }

  // ----- Getting back to synchronising -----

  /** A turn in which nothing fails: the connection opens, sending works, nothing has expired,
      and an established socket waits until its time is up. */
  const SMOOTH: Env := Env(false, true, true, [Cut(NoHeader, WouldBlock)], 1)

  /** What a smooth turn does in each state. */
  lemma SmoothTurn(s: Socket, t: Tables, me: nat)
    requires s.state !in {Closed, Sync} && (s.state == Reset ==> s.requestSession) && (s.state == Established ==> !s.requestSession)
    ensures var turn := Advance(s, t, me, SMOOTH);
            && turn.Turn? && turn.tables == t
            && (s.state in {Fatal, Transport, FastReconnect} ==> turn.socket == s.(state := Connecting) && turn.closed && turn.sent == Nothing)
            && (s.state in {NoDataAvail, NoIncrUpdate} ==>
                  turn.socket == s.(state := Reset, requestSession := true, serial := 0) && !turn.closed && turn.sent == Nothing)
            && (s.state == Connecting && s.requestSession ==>
                  turn.socket == s.(state := Reset, hasReceived := false) && !turn.closed && turn.sent == Nothing)
            && (s.state == Connecting && !s.requestSession ==>
                  turn.socket == s.(state := Sync, hasReceived := false) && !turn.closed && turn.sent == SerialQuery(s.session, s.serial))
            && (s.state == Reset ==> turn.socket == s.(state := Sync) && !turn.closed && turn.sent == ResetQuery)
            && (s.state == Established ==> turn.socket == s.(state := Sync) && !turn.closed && turn.sent == SerialQuery(s.session, s.serial))
  {
  }

  function After(s: Socket, t: Tables, me: nat, n: nat): Turn {
    if n == 0 then Turn(s, t, Nothing, false)
    else
      var before := After(s, t, me, n - 1);
      if before.Waiting? then Waiting else Advance(before.socket, before.tables, me, SMOOTH)
  }

  /** From every state but closed, at most three smooth turns lead to a synchronisation with the
      query sent that fits the socket; the tables are as they were, and unless the cache has
      asked to start over the socket has kept its session and serial number. */
  lemma BackInThree(s: Socket, t: Tables, me: nat) returns (n: nat)
    requires s.state !in {Closed, Sync} && (s.state == Reset ==> s.requestSession) && (s.state == Established ==> !s.requestSession)
    ensures 1 <= n <= 3
    ensures var turn := After(s, t, me, n);
            && turn.Turn? && turn.socket.state == Sync && turn.tables == t && turn.sent == QueryOf(turn.socket)
            && turn.socket.version == s.version && turn.socket.lastUpdate == s.lastUpdate && turn.socket.resetting == s.resetting
            && (s.state !in {NoDataAvail, NoIncrUpdate} ==>
                  turn.socket.session == s.session && turn.socket.serial == s.serial && turn.socket.requestSession == s.requestSession)
            && (s.state in {NoDataAvail, NoIncrUpdate} ==> turn.socket.requestSession)
  {
    hide Advance;
    SmoothTurn(s, t, me);
    var one := After(s, t, me, 1);
    assert one == Advance(s, t, me, SMOOTH) by { assert After(s, t, me, 0) == Turn(s, t, Nothing, false); }
    if one.socket.state == Sync { return 1; }
    SmoothTurn(one.socket, t, me);
    var two := After(s, t, me, 2);
    assert two == Advance(one.socket, t, me, SMOOTH);
    if two.socket.state == Sync { return 2; }
    SmoothTurn(two.socket, t, me);
    var three := After(s, t, me, 3);
    assert three == Advance(two.socket, t, me, SMOOTH);
    return 3;
  }

  /** What goes wrong in a turn: a connection that does not open and a query that is not sent. */
  lemma FailingTurn(s: Socket, t: Tables, me: nat, e: Env)
    requires s.state in {Connecting, Reset}
    ensures var turn := Advance(s, t, me, e);
            && turn.Turn? && turn.socket.session == s.session
            && (s.state == Connecting && !e.opens ==> turn.socket.state == Transport && turn.sent == Nothing)
            && (s.state == Connecting && e.opens && !e.sends && !turn.socket.requestSession ==> turn.socket.state == Fatal && turn.sent == Nothing)
            && (s.state == Reset && !e.sends ==> turn.socket.state == Transport && turn.sent == Nothing)
  {
  }

  /** An established socket: a timeout or a Serial Notify makes it ask for news; anything else
      that is delivered is ignored. */
  lemma EstablishedTurn(s: Socket, t: Tables, me: nat, e: Env)
    requires s.state == Established && |e.ins| == 1
    ensures var turn := Advance(s, t, me, e); var (s', got) := Receive(s, e.ins[0]);
            && turn.Turn? && turn.tables == t && !turn.closed
            && (if got.TimedOut? || (got.Delivered? && got.pdu.SerialNotify?)
                then if e.sends then turn.socket == s'.(state := Sync) && turn.sent == SerialQuery(s.session, s.serial)
                     else turn.socket == s'.(state := Transport) && turn.sent == Nothing
                else turn.socket == s' && turn.sent == Nothing)
  {
    hide Receive;
    ReceiveCore(s, e.ins[0]);
  }

  /** An honest response that arrives whole is accepted if and only if its ASPA PDUs apply, and
      the socket then has exactly the cache's prefixes and router keys. */
  lemma HonestAccepted(h: History, me: nat, s: Socket, t: Tables, pdus: seq<Pdu>, v: nat, now: nat)
    requires OwnHistory(h, me) && InStep(h, me, s, t) && MarksFit(s)
    requires v == s.version || (!s.hasReceived && v < s.version <= 2)
    requires Answer(pdus, h, me, QueryOf(s)) && pdus != [] && pdus[0].CacheResponse?
    requires forall p :: p in pdus && p.Aspa? ==> v == 2
    ensures var o := SyncOnce(s, t, me, Arriving(v, pdus), now); var data := pdus[1..|pdus| - 1];
            && |pdus| >= 2 && pdus[|pdus| - 1].EndOfData?
            && var serial := pdus[|pdus| - 1].serial;
            && o.Outcome? && (s.requestSession && (s.resetting || s.lastUpdate != 0) ==> o.ok)
            && (!(s.requestSession && (s.resetting || s.lastUpdate != 0)) ==> (o.ok <==> AspaAccepts(t.aspa, AspaSaid(data))))
            && (o.ok ==> HoldsData(o.tables, me, h(pdus[0].session, serial)) && o.socket.session == pdus[0].session && o.socket.serial == serial)
  {
    hide SyncOnce, Update, ResetTables, Leads, HoldsData, FullAspa, AspaAccepts;
    var data, serial := AnswerIsResponse(h, me, s, pdus);
    var session := pdus[0].session;
    assert pdus == [CacheResponse(session)] + data + [EndOfData(session, serial)];
    assert data == pdus[1..|pdus| - 1];
    forall p | p in data ensures IsData(p) && (p.Aspa? ==> v == 2) { assert p in pdus; }
    ResponseExact(s, t, me, v, session, data, session, serial, now);
    StoredIsSaid(data, me);
    var b := BatchOf(data, me);
    assert OwnData(h(session, serial), me) && OwnData(h(session, s.serial), me) && OwnData(NO_DATA, me);
    if s.resetting || (s.requestSession && s.lastUpdate != 0) {
      ResetHonest(t, b, me, h(session, serial));
    } else if s.requestSession {
      DeltaUpdates(t, b, me, NO_DATA, h(session, serial));
    } else {
      DeltaUpdates(t, b, me, h(session, s.serial), h(session, serial));
    }
  }
}
