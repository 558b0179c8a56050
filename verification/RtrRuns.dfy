/** What holds in every run of a socket, whatever the cache sends. */
module RtrRuns {
  import opened SyncUndo
  import opened SyncTables
  import opened RtrSync
  import opened Trie
  import opened LinearHashing
  import opened AspaTable

  /** A step of the outside world or one turn of the state machine. */
  datatype Event = Started | Stopped | Turned(env: Env)

  datatype World = World(socket: Socket, tables: Tables, sent: Sent)

  /** One step of a run. A turn that still waits for input is no step. */
  ghost predicate Step(w: World, ev: Event, me: nat, w': World) {
    match ev
    case Started => w.socket.state == Closed && w' == World(Start(w.socket), w.tables, Nothing)
    case Stopped => w.socket.state != Closed && w' == World(Stop(w.socket), Purged(w.tables, me), Nothing)
    case Turned(env) =>
      var turn := Advance(w.socket, w.tables, me, env);
      turn.Turn? && 0 < env.now && w' == World(turn.socket, turn.tables, turn.sent)
  }

  datatype Run = Run(worlds: seq<World>, events: seq<Event>)

  ghost predicate IsRun(r: Run, me: nat) {
    && |r.worlds| == |r.events| + 1
    && Initial(r.worlds[0].socket)
    && forall i :: 0 <= i < |r.events| ==> Step(r.worlds[i], r.events[i], me, r.worlds[i + 1])
  }

  // ----- The version only goes down -----

  /** `s'` comes from `s` by receiving: the version may be lower. */
  ghost predicate Lowered(s: Socket, s': Socket) {
    s'.version <= s.version && s'.requestSession == s.requestSession
  }

  lemma ReceiveLowers(s: Socket, r: Recv)
    ensures Lowered(s, Receive(s, r).0)
    ensures Receive(s, r).0.state in {s.state, Transport, Fatal}
    ensures Receive(s, r).0.session == s.session && Receive(s, r).0.serial == s.serial
  {
  }

  /** Reaching FastReconnect takes a lower version. */
  ghost predicate Reconnects(s: Socket, s': Socket) {
    s.state != FastReconnect && s'.state == FastReconnect ==> s'.version < s.version
  }

  lemma {:induction false} CollectLowers(s: Socket, t: Tables, b: Batch, me: nat, ins: seq<Recv>)
    requires s.state != FastReconnect
    ensures var o := Collect(s, t, b, me, ins);
            o.Outcome? ==>
              && Lowered(s, o.socket) && Reconnects(s, o.socket)
              && (o.socket.state in {Established, Reset} ==> s.state == o.socket.state)
    decreases |ins|
  {
    hide Update, ResetTables, StorePdu;
    if ins != [] {
      ReceiveLowers(s, ins[0]);
      var (s', got) := Receive(s, ins[0]);
      if got.Delivered? && got.pdu.SerialNotify? {
        CollectLowers(s', t, b, me, ins[1..]);
      } else if got.Delivered? && IsData(got.pdu) {
        CollectLowers(s', t, StorePdu(b, got.pdu, me), me, ins[1..]);
      }
    }
  }

  lemma {:induction false} SyncLowers(s: Socket, t: Tables, me: nat, ins: seq<Recv>, now: nat)
    requires s.state in {Sync, Transport, Fatal}
    ensures var o := SyncOnce(s, t, me, ins, now);
            o.Outcome? ==>
              && o.socket.version <= s.version && Reconnects(s, o.socket)
              && (o.ok ==> !o.socket.requestSession)
              && (!o.ok ==> o.socket.requestSession == s.requestSession && o.socket.state !in {Established, Reset})
    decreases |ins|
  {
    hide Collect;
    if ins != [] {
      ReceiveLowers(s, ins[0]);
      var (s', got) := Receive(s, ins[0]);
      if got.Delivered? && got.pdu.SerialNotify? {
        SyncLowers(s', t, me, ins[1..], now);
      } else if got.Delivered? && got.pdu.CacheResponse? {
        CollectLowers(HandleCacheResponse(s', got.pdu.session), t, NO_PDUS, me, ins[1..]);
      }
    }
  }

  /** What every step keeps. */
  ghost predicate Sound(w: World) {
    && w.socket.version <= MAX_VERSION
    && (w.socket.state == Established ==> !w.socket.requestSession)
    && (w.socket.state == Reset ==> w.socket.requestSession)
  }

  /** What every step does to the version, and which query it sends: a Serial Query only with a
      session, about exactly the socket's session and serial number; a Reset Query only
      without one; and one of them whenever it goes on to synchronise. */
  ghost predicate Proper(w: World, w': World) {
    && w'.socket.version <= w.socket.version
    && Reconnects(w.socket, w'.socket)
    && (w'.socket.state == FastReconnect ==> w.socket.state != FastReconnect)
    && (w'.sent.SerialQuery? ==>
          && !w.socket.requestSession && !w'.socket.requestSession
          && w'.sent.session == w.socket.session == w'.socket.session
          && w'.sent.serial == w.socket.serial == w'.socket.serial)
    && (w'.sent.ResetQuery? ==> w.socket.requestSession && w'.socket.requestSession)
    && (w'.sent != Nothing ==> w'.socket.state == Sync)
    && (w'.socket.state == Sync && w.socket.state != Sync ==> w'.sent != Nothing)
  }

  lemma StepSound(w: World, ev: Event, me: nat, w': World)
    requires Sound(w) && Step(w, ev, me, w')
    ensures Sound(w') && Proper(w, w')
  {
    hide SyncOnce, Receive, Purged;
    if ev.Turned? {
      var e := ev.env;
      if w.socket.state == Sync {
        SyncLowers(w.socket, w.tables, me, e.ins, e.now);
      } else if w.socket.state == Established && |e.ins| == 1 {
        ReceiveLowers(w.socket, e.ins[0]);
      }
    }
  }

  /** How often the run has entered FastReconnect up to a position. */
  function Reconnections(worlds: seq<World>, n: nat): nat
    requires n < |worlds|
  {
    if n == 0 then 0 else Reconnections(worlds, n - 1) + if worlds[n].socket.state == FastReconnect then 1 else 0
  }

  /** Along every run from rtr_init the version stays supported and never rises; each fast
      reconnect lowers it, so there are at most two; an established socket has a session;
      and no Serial Query is sent without one. */
  lemma {:induction false} EveryRun(r: Run, me: nat, n: nat)
    requires IsRun(r, me) && n < |r.worlds|
    ensures Sound(r.worlds[n])
    ensures 0 < n ==> Proper(r.worlds[n - 1], r.worlds[n])
    ensures Reconnections(r.worlds, n) + r.worlds[n].socket.version <= MAX_VERSION
    decreases n
  {
    if n > 0 {
      EveryRun(r, me, n - 1);
      assert Step(r.worlds[n - 1], r.events[n - 1], me, r.worlds[n - 1 + 1]);
      StepSound(r.worlds[n - 1], r.events[n - 1], me, r.worlds[n]);
    }
  }

  /** The version between any two points of a run. */
  lemma {:induction false} VersionNeverRises(r: Run, me: nat, i: nat, j: nat)
    requires IsRun(r, me) && i <= j < |r.worlds|
    ensures r.worlds[j].socket.version <= r.worlds[i].socket.version <= MAX_VERSION
    decreases j
  {
    hide IsRun, Reconnects, Reconnections;
    EveryRun(r, me, i);
    if i < j {
      EveryRun(r, me, j);
      VersionNeverRises(r, me, i, j - 1);
    }
  }

  // ----- Other sockets' records -----

  ghost predicate SameOthers(t: Tables, t': Tables, me: nat) {
    PfxBut(t'.pfx, me) == PfxBut(t.pfx, me) && KeysBut(t'.keys, me) == KeysBut(t.keys, me)
  }

  lemma PurgedOthers(t: Tables, me: nat)
    ensures SameOthers(t, Purged(t, me), me)
  {
  }

  lemma FinishOthers(s: Socket, t: Tables, b: Batch, me: nat, session: nat, serial: nat, rest: seq<Recv>)
    requires OwnBatch(b, me)
    ensures var o := EndSync(s, t, b, me, session, serial, rest); o.Outcome? && SameOthers(t, o.tables, me)
  {
    hide Update, OwnBatch, PfxBut, KeysBut, Purged;
    OthersUntouched(t, b, me);
    OthersUntouched(Purged(t, me), b, me);
    PurgedOthers(t, me);
  }

  lemma {:induction false} CollectOthers(s: Socket, t: Tables, b: Batch, me: nat, ins: seq<Recv>)
    requires OwnBatch(b, me)
    ensures var o := Collect(s, t, b, me, ins); o.Outcome? ==> SameOthers(t, o.tables, me)
    decreases |ins|
  {
    hide EndSync, Receive, HandleError;
    if ins != [] {
      var (s', got) := Receive(s, ins[0]);
      if got.Delivered? {
        var p := got.pdu;
        if p.SerialNotify? {
          CollectOthers(s', t, b, me, ins[1..]);
        } else if IsData(p) {
          CollectOthers(s', t, StorePdu(b, p, me), me, ins[1..]);
        } else if p.EndOfData? {
          FinishOthers(s', t, b, me, p.session, p.serial, ins[1..]);
        }
      }
    }
  }

  lemma {:induction false} SyncOthers(s: Socket, t: Tables, me: nat, ins: seq<Recv>, now: nat)
    ensures var o := SyncOnce(s, t, me, ins, now); o.Outcome? ==> SameOthers(t, o.tables, me)
    decreases |ins|
  {
    hide Collect, Receive, HandleError, HandleCacheResponse;
    if ins != [] {
      var (s', got) := Receive(s, ins[0]);
      if got.Delivered? && got.pdu.SerialNotify? {
        SyncOthers(s', t, me, ins[1..], now);
      } else if got.Delivered? && got.pdu.CacheResponse? {
        CollectOthers(HandleCacheResponse(s', got.pdu.session), t, NO_PDUS, me, ins[1..]);
      }
    }
  }

  /** No step of one socket, whatever its cache sends, touches what the other sockets have
      in the shared tables. */
  lemma StepKeepsOthers(w: World, ev: Event, me: nat, w': World)
    requires Step(w, ev, me, w')
    ensures SameOthers(w.tables, w'.tables, me)
  {
    hide SyncOnce, Receive, Purged, PfxBut, KeysBut;
    PurgedOthers(w.tables, me);
    if ev.Turned? && w.socket.state == Sync {
      SyncOthers(w.socket, w.tables, me, ev.env.ins, ev.env.now);
    }
  }

  lemma {:induction false} OthersNeverChange(r: Run, me: nat, i: nat, j: nat)
    requires IsRun(r, me) && i <= j < |r.worlds|
    ensures SameOthers(r.worlds[i].tables, r.worlds[j].tables, me)
    decreases j
  {
    hide Step;
    if i < j {
      OthersNeverChange(r, me, i, j - 1);
      assert Step(r.worlds[j - 1], r.events[j - 1], me, r.worlds[j - 1 + 1]);
      StepKeepsOthers(r.worlds[j - 1], r.events[j - 1], me, r.worlds[j]);
    }
  }

  // ----- The atomic reset -----

  /** For every response: the reset succeeds exactly when the response can be applied to an
      empty table. Then the socket's prefixes and router keys are exactly what the response
      builds from nothing, and the others' records are as before; its ASPA records are what
      the response builds if and only if the response has any or there were none before.
      Otherwise nothing changes. */
  lemma ResetExact(t: Tables, b: Batch, me: nat)
    requires OwnBatch(b, me)
    ensures var r := ResetTables(t, b, me);
            && (r.ok <==> AllAccepted({}, Prefixes(b)) && AllAccepted({}, b.keys) && AspaAccepts([], b.aspa))
            && (!r.ok ==> r.tables == t)
            && (r.ok ==>
                && SameOthers(t, r.tables, me)
                && PfxOf(r.tables.pfx, me) == DoAll({}, Prefixes(b))
                && KeysOf(r.tables.keys, me) == DoAll({}, b.keys)
                && (r.tables.aspa == AspaArray([], b.aspa) <==> b.aspa != [] || t.aspa == []))
  {
    hide Update, AspaAccepts, DoAll, AcceptedCount;
    var shadow := Purged(t, me);
    NothingOwn(t, me);
    UpdateAllOrNothing(shadow, b);
    OwnSharePfx(shadow.pfx, Prefixes(b), me);
    OwnShareKeys(shadow.keys, b.keys, me);
    OthersUntouched(shadow, b, me);
    PurgedOthers(t, me);
    UpdateAspa(shadow, b);
  }

  lemma NothingOwn(t: Tables, me: nat)
    ensures PfxOf(Purged(t, me).pfx, me) == {} && KeysOf(Purged(t, me).keys, me) == {}
  {
  }

  lemma UpdateAspa(t: Tables, b: Batch)
    ensures Update(t, b).ok ==> AspaAccepts(t.aspa, b.aspa) && Update(t, b).tables.aspa == AspaArray(t.aspa, b.aspa)
  {
  }

  /** A cache that has no ASPA data any more sends a response without ASPA PDUs: the reset
      succeeds and the socket keeps the old record. */
  lemma OldAspaSurvives(me: nat)
    ensures var t := Tables({}, {}, [AspaRecord(64500, [64501])]);
            var r := ResetTables(t, NO_PDUS, me);
            r.ok && r.tables.aspa == t.aspa && AspaArray([], NO_PDUS.aspa) == []
  {
    var t := Tables({}, {}, [AspaRecord(64500, [64501])]);
    assert Purged(t, me) == Tables({}, {}, []);
    assert AcceptedCount<Record>({}, []) == 0 && AcceptedCount<KeyEntry>({}, []) == 0;
    assert Prefixes(NO_PDUS) == [];
  }
}
