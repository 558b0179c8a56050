/** A reset that fails: the socket is left without session, time of update and reset mark,
    but with its old records (rtrlib/rtr/packets.c and rtrlib/rtr/rtr.c). When that happens,
    with any cache, and what it means for the synchronisations that follow. */
module RtrStale {
  import opened SyncUndo
  import opened SyncTables
  import opened RtrSync
  import opened RtrResponse
  import opened RtrRuns
  import opened RtrHonest
  import opened Trie
  import opened LinearHashing
  import opened AspaUpdate

  // ----- The marks of a reset -----

  /** A reset is marked only while the session is given up and the time of the last update
      is gone; a socket with a session was updated at some time. */
  ghost predicate MarksFit(s: Socket) {
    (s.resetting ==> s.requestSession && s.lastUpdate == 0) && (!s.requestSession ==> s.lastUpdate != 0)
  }

  /** No session, never updated, no reset under way: what rtr_init sets up. */
  ghost predicate Blank(s: Socket) {
    s.requestSession && s.lastUpdate == 0 && !s.resetting
  }

  /** What reading PDUs does to the marks. */
  lemma {:induction false} CollectMarks(s: Socket, t: Tables, b: Batch, me: nat, ins: seq<Recv>)
    ensures var o := Collect(s, t, b, me, ins);
            o.Outcome? ==>
              && o.socket.requestSession == s.requestSession && o.socket.lastUpdate == s.lastUpdate
              && (o.socket.resetting ==> s.resetting) && (o.ok ==> !o.socket.resetting)
    decreases |ins|
  {
    hide Update, ResetTables, StorePdu, Receive;
    if ins != [] {
      ReceiveCore(s, ins[0]);
      var (s', got) := Receive(s, ins[0]);
      if got.Delivered? && got.pdu.SerialNotify? {
        CollectMarks(s', t, b, me, ins[1..]);
      } else if got.Delivered? && IsData(got.pdu) {
        CollectMarks(s', t, StorePdu(b, got.pdu, me), me, ins[1..]);
      }
    }
  }

  lemma {:induction false} SyncMarks(s: Socket, t: Tables, me: nat, ins: seq<Recv>, now: nat)
    requires MarksFit(s) && 0 < now
    ensures var o := SyncOnce(s, t, me, ins, now); o.Outcome? ==> MarksFit(o.socket)
    decreases |ins|
  {
    hide Collect, Receive;
    if ins != [] {
      ReceiveCore(s, ins[0]);
      var (s', got) := Receive(s, ins[0]);
      if got.Delivered? && got.pdu.SerialNotify? {
        SyncMarks(s', t, me, ins[1..], now);
      } else if got.Delivered? && got.pdu.CacheResponse? {
        CollectMarks(HandleCacheResponse(s', got.pdu.session), t, NO_PDUS, me, ins[1..]);
      }
    }
  }

  lemma StepMarks(w: World, ev: Event, me: nat, w': World)
    requires MarksFit(w.socket) && Step(w, ev, me, w')
    ensures MarksFit(w'.socket)
  {
    hide SyncOnce, Receive, Purged;
    if ev.Turned? {
      var e := ev.env;
      if w.socket.state == Sync {
        SyncMarks(w.socket, w.tables, me, e.ins, e.now);
      } else if w.socket.state == Established && |e.ins| == 1 {
        ReceiveCore(w.socket, e.ins[0]);
      }
    }
  }

  /** Over every run with any cache: a reset is under way only without session and time of
      update, and every socket with a session has been updated. */
  lemma {:induction false} MarksInEveryRun(r: Run, me: nat, n: nat)
    requires IsRun(r, me) && n < |r.worlds|
    ensures MarksFit(r.worlds[n].socket)
    decreases n
  {
    hide Step;
    if n > 0 {
      MarksInEveryRun(r, me, n - 1);
      assert Step(r.worlds[n - 1], r.events[n - 1], me, r.worlds[n - 1 + 1]);
      StepMarks(r.worlds[n - 1], r.events[n - 1], me, r.worlds[n]);
    }
  }

  // ----- Records of a blank socket -----

  /** What a socket has in the tables. */
  ghost function Share(t: Tables, me: nat): Tables {
    Tables(PfxOf(t.pfx, me), KeysOf(t.keys, me), t.aspa)
  }

  const NO_RECORDS: Tables := Tables({}, {}, [])

  /** The End of Data PDU a call of rtr_sync comes to, with the socket and the stored PDUs
      it meets there. */
  datatype Reached = NoEnd | End(socket: Socket, batch: Batch, session: nat, serial: nat)

  function CollectEnd(s: Socket, b: Batch, me: nat, ins: seq<Recv>): Reached
    decreases |ins|
  {
    if ins == [] then NoEnd
    else
      var (s', got) := Receive(s, ins[0]);
      if !got.Delivered? then NoEnd
      else if got.pdu.SerialNotify? then CollectEnd(s', b, me, ins[1..])
      else if IsData(got.pdu) then CollectEnd(s', StorePdu(b, got.pdu, me), me, ins[1..])
      else if got.pdu.EndOfData? then End(s', b, got.pdu.session, got.pdu.serial)
      else NoEnd
  }

  function SyncEnd(s: Socket, me: nat, ins: seq<Recv>): Reached
    decreases |ins|
  {
    if ins == [] then NoEnd
    else
      var (s', got) := Receive(s, ins[0]);
      if !got.Delivered? then NoEnd
      else if got.pdu.SerialNotify? then SyncEnd(s', me, ins[1..])
      else if got.pdu.CacheResponse? then CollectEnd(HandleCacheResponse(s', got.pdu.session), NO_PDUS, me, ins[1..])
      else NoEnd
  }

  /** The outcome is decided by the End of Data PDU; without one no table changes. */
  ghost predicate ByEnd(o: RtrSync.Outcome, e: Reached, s: Socket, t: Tables, me: nat)
    requires o.Outcome?
  {
    match e
    case NoEnd => !o.ok && o.tables == t && SameCore(s, o.socket)
    case End(s1, b, session, serial) =>
      && OwnBatch(b, me) && SameCore(s, s1)
      && var e := EndSync(s1, t, b, me, session, serial, []);
         e.Outcome? && o.ok == e.ok && o.tables == e.tables && SameCore(e.socket, o.socket)
  }

  lemma {:induction false} CollectByEnd(s: Socket, t: Tables, b: Batch, me: nat, ins: seq<Recv>)
    requires OwnBatch(b, me)
    ensures var o := Collect(s, t, b, me, ins); o.Outcome? ==> ByEnd(o, CollectEnd(s, b, me, ins), s, t, me)
    decreases |ins|
  {
    hide Update, ResetTables, Receive;
    if ins != [] {
      ReceiveCore(s, ins[0]);
      var (s', got) := Receive(s, ins[0]);
      if got.Delivered? && got.pdu.SerialNotify? {
        CollectByEnd(s', t, b, me, ins[1..]);
      } else if got.Delivered? && IsData(got.pdu) {
        CollectByEnd(s', t, StorePdu(b, got.pdu, me), me, ins[1..]);
      }
    }
  }

  /** The same for a failing call of rtr_sync; where a blank socket comes from. */
  lemma {:induction false} SyncByEnd(s: Socket, t: Tables, me: nat, ins: seq<Recv>, now: nat)
    ensures var o := SyncOnce(s, t, me, ins, now); var e := SyncEnd(s, me, ins);
            o.Outcome? && !o.ok ==>
              match e
              case NoEnd => o.tables == t && (Blank(o.socket) ==> Blank(s))
              case End(s1, b, session, serial) =>
                && OwnBatch(b, me)
                && (s1.requestSession && s1.lastUpdate == 0 && !s1.resetting ==> Blank(s))
                && var end := EndSync(s1, t, b, me, session, serial, []);
                   end.Outcome? && !end.ok && o.tables == end.tables && SameCore(end.socket, o.socket)
    decreases |ins|
  {
    hide Update, ResetTables, Receive, Collect, CollectEnd;
    if ins != [] {
      ReceiveCore(s, ins[0]);
      var (s', got) := Receive(s, ins[0]);
      if got.Delivered? && got.pdu.SerialNotify? {
        SyncByEnd(s', t, me, ins[1..], now);
      } else if got.Delivered? && got.pdu.CacheResponse? {
        CollectByEnd(HandleCacheResponse(s', got.pdu.session), t, NO_PDUS, me, ins[1..]);
      }
    }
  }

  /** What the forward undo leaves of a set: the records changed an odd number of times are
      as before, the others are turned around. */
  ghost function Remains<T(!new)>(s: set<T>, cs: seq<Change<T>>): set<T> {
    (set r | r in s && (Occurrences(cs, r) == 0 || Occurrences(cs, r) % 2 == 1))
    + (set c | c in cs && c.record !in s && Occurrences(cs, c.record) % 2 == 0 :: c.record)
  }

  lemma RemainsOdd<T(!new)>(s: set<T>, cs: seq<Change<T>>)
    ensures OddOccurrences(cs) ==> Remains(s, cs) == s
  {
    if OddOccurrences(cs) {
      forall c | c in cs ensures Occurrences(cs, c.record) % 2 == 1 {
        var i :| 0 <= i < |cs| && cs[i] == c;
        OccursWhere(cs, c.record);
      }
    }
  }

  lemma PfxRemains(s: set<Record>, cs: seq<Change<Record>>, me: nat)
    requires AllAccepted(s, cs) && forall c :: c in cs ==> c.record.socket == me
    ensures PfxOf(TakenBack(s, cs), me) == Remains(PfxOf(s, me), cs)
  {
    forall r: Record | r.socket == me ensures r in TakenBack(s, cs) <==> r in Remains(PfxOf(s, me), cs) {
      UndoneAt(s, cs, r);
      OccursWhere(cs, r);
    }
  }

  lemma KeysRemain(s: set<KeyEntry>, cs: seq<Change<KeyEntry>>, me: nat)
    requires AllAccepted(s, cs) && forall c :: c in cs ==> c.record.socket == me
    ensures KeysOf(TakenBack(s, cs), me) == Remains(KeysOf(s, me), cs)
  {
    forall r: KeyEntry | r.socket == me ensures r in TakenBack(s, cs) <==> r in Remains(KeysOf(s, me), cs) {
      UndoneAt(s, cs, r);
      OccursWhere(cs, r);
    }
  }

  /** The socket's share after a refused update. */
  ghost function UndoneShare(t: Tables, b: Batch, me: nat): Tables {
    Tables(Remains(PfxOf(t.pfx, me), AppliedPrefixes(t, b)), Remains(KeysOf(t.keys, me), AppliedKeys(t, b)), t.aspa)
  }

  lemma RefusedShare(t: Tables, b: Batch, me: nat)
    requires OwnBatch(b, me) && !Update(t, b).ok
    ensures Share(Update(t, b).tables, me) == UndoneShare(t, b, me)
  {
    hide AspaAccepts, AspaArray, Remains, UndoAll, DoAll, AcceptedCount;
    PrefixAccepted(t.pfx, Prefixes(b));
    PrefixAccepted(t.keys, b.keys);
    PfxRemains(t.pfx, AppliedPrefixes(t, b), me);
    NoneTaken(t.keys);
    KeysRemain(t.keys, AppliedKeys(t, b), me);
    assert Prefixes(b)[..|Prefixes(b)|] == Prefixes(b) && b.keys[..|b.keys|] == b.keys;
  }

  lemma NoneTaken(s: set<KeyEntry>)
    ensures AllAccepted(s, []) && TakenBack(s, []) == s
  {
  }

  /** The End of Data PDU of a step, if it comes to one. */
  ghost function EndOf(w: World, ev: Event, me: nat): Reached {
    if ev.Turned? && w.socket.state == Sync then SyncEnd(w.socket, me, ev.env.ins) else NoEnd
  }

  ghost predicate AppliesReset(e: Reached) {
    e.End? && e.session == e.socket.session && e.socket.resetting
  }

  ghost predicate AppliesUpdate(e: Reached) {
    e.End? && e.session == e.socket.session && !e.socket.resetting
  }

  /** Any step after which the socket is blank, with any cache. Its records are gone after a
      stop; after a refused update they are what the forward undo leaves; otherwise they
      are those it had before. And only a stop and a refused reset make a socket blank. */
  lemma BlankStep(w: World, ev: Event, me: nat, w': World)
    requires MarksFit(w.socket) && Step(w, ev, me, w') && Blank(w'.socket)
    ensures Share(w'.tables, me)
         == if ev.Stopped? then NO_RECORDS
            else if AppliesUpdate(EndOf(w, ev, me)) then UndoneShare(w.tables, EndOf(w, ev, me).batch, me)
            else Share(w.tables, me)
    ensures Blank(w.socket) || ev.Stopped? || AppliesReset(EndOf(w, ev, me))
  {
    hide SyncOnce, SyncEnd, Update, UndoneShare, Receive;
    if ev.Turned? {
      var e := ev.env;
      if w.socket.state == Sync {
        SyncByEnd(w.socket, w.tables, me, e.ins, e.now);
        SyncLowers(w.socket, w.tables, me, e.ins, e.now);
        var end := SyncEnd(w.socket, me, e.ins);
        if AppliesUpdate(end) { RefusedShare(w.tables, end.batch, me); }
      } else if w.socket.state == Established && |e.ins| == 1 {
        ReceiveCore(w.socket, e.ins[0]);
      }
    } else if ev.Stopped? {
      NothingOwn(w.tables, me);
    }
  }

  /** A step that can bring records under a blank socket: a reset is refused while the
      socket has records, or an update after changing a record an even number of times. */
  ghost predicate LeavesRecords(w: World, ev: Event, me: nat) {
    var e := EndOf(w, ev, me);
    || (AppliesReset(e) && Share(w.tables, me) != NO_RECORDS)
    || (AppliesUpdate(e) && !(OddOccurrences(AppliedPrefixes(w.tables, e.batch)) && OddOccurrences(AppliedKeys(w.tables, e.batch))))
  }

  /** Over every run with any cache, from a table without its records: a blank socket with
      records got them by such a step, and was not stopped since. */
  lemma {:induction false} BlankWithRecords(r: Run, me: nat, n: nat) returns (m: nat)
    requires IsRun(r, me) && n < |r.worlds| && Share(r.worlds[0].tables, me) == NO_RECORDS
    requires Blank(r.worlds[n].socket) && Share(r.worlds[n].tables, me) != NO_RECORDS
    ensures m < n && LeavesRecords(r.worlds[m], r.events[m], me)
    ensures forall i :: m <= i < n ==> !r.events[i].Stopped?
    decreases n
  {
    hide Step, EndOf, Share, UndoneShare, OddOccurrences;
    var w, ev := r.worlds[n - 1], r.events[n - 1];
    assert Step(w, ev, me, r.worlds[n - 1 + 1]);
    MarksInEveryRun(r, me, n - 1);
    BlankStep(w, ev, me, r.worlds[n]);
    if LeavesRecords(w, ev, me) {
      m := n - 1;
    } else {
      if AppliesUpdate(EndOf(w, ev, me)) { OddUndo(w.tables, EndOf(w, ev, me).batch, me); }
      m := BlankWithRecords(r, me, n - 1);
    }
  }

  lemma OddUndo(t: Tables, b: Batch, me: nat)
    requires OddOccurrences(AppliedPrefixes(t, b)) && OddOccurrences(AppliedKeys(t, b))
    ensures UndoneShare(t, b, me) == Share(t, me)
  {
    RemainsOdd(PfxOf(t.pfx, me), AppliedPrefixes(t, b));
    RemainsOdd(KeysOf(t.keys, me), AppliedKeys(t, b));
  }

  // ----- A run that gets there -----

  function DoubledResponse(r: Record): seq<Recv> {
    var pdu := Got(2, Ipv4Prefix(Change(1, r)));
    [Got(2, CacheResponse(6)), pdu, pdu, Got(2, EndOfData(6, 1))]
  }

  /** A response that names a record twice cannot be applied to any table. */
  lemma DoubledRefused(r: Record, s: set<Record>)
    ensures AcceptedCount(s, [Change(1, r), Change(1, r)]) < 2
  {
    var c := Change(1, r);
    assert [c, c][1..] == [c];
    assert AcceptedCount(s + {r}, [c]) == 0;
  }

  lemma DoubledReset(s: Socket, r: Record, me: nat, now: nat)
    requires r.socket == me && s.requestSession && s.lastUpdate != 0 && s.version == 2 && s.hasReceived
    ensures SyncOnce(s, Tables({r}, {}, []), me, DoubledResponse(r), now)
         == Outcome(s.(session := 6, lastUpdate := 0, resetting := false, state := Fatal), Tables({r}, {}, []), false, [])
  {
    var a, b, c := Got(2, CacheResponse(6)), Got(2, Ipv4Prefix(Change(1, r))), Got(2, EndOfData(6, 1));
    var t := Tables({r}, {}, []);
    assert [a, b, b, c][1..] == [b, b, c] && [b, b, c][1..] == [b, c] && [b, c][1..] == [c] && [c][1..] == [];
    var s1 := s.(session := 6, lastUpdate := 0, resetting := true);
    var one, two := NO_PDUS.(v4 := [Change(1, r)]), NO_PDUS.(v4 := [Change(1, r), Change(1, r)]);
    assert Receive(s, a) == (s, Delivered(a.pdu)) && HandleCacheResponse(s, 6) == s1;
    assert Receive(s1, b) == (s1, Delivered(b.pdu)) && Receive(s1, c) == (s1, Delivered(c.pdu));
    assert StorePdu(NO_PDUS, b.pdu, me) == one && StorePdu(one, b.pdu, me) == two;
    hide StorePdu;
    assert Collect(s1, t, two, me, [c]) == EndSync(s1, t, two, me, 6, 1, []);
    assert Collect(s1, t, one, me, [b, c]) == Collect(s1, t, two, me, [c]);
    assert Collect(s1, t, NO_PDUS, me, [b, b, c]) == Collect(s1, t, one, me, [b, c]);
    assert Prefixes(two) == [Change(1, r), Change(1, r)];
    DoubledRefused(r, Purged(t, me).pfx);
    assert !ResetTables(t, two, me).ok;
  }

  /** Ten worlds: start, first synchronisation, a timeout with a Serial Query, a Cache Reset
      and the doubled response. */
  function StaleRun(r: Record): Run {
    var t, held := Tables({}, {}, []), Tables({r}, {}, []);
    var s0 := Socket(Closed, 2, 0, 0, true, 0, false, false);
    var s4 := Socket(Established, 2, 5, 1, false, 1, false, true);
    var s7 := s4.(state := Reset, requestSession := true, serial := 0);
    var quiet := Turned(Env(false, true, true, [], 1));
    var first := [Got(2, CacheResponse(5)), Got(2, Ipv4Prefix(Change(1, r))), Got(2, EndOfData(5, 1))];
    Run([World(s0, t, Nothing), World(s0.(state := Connecting), t, Nothing), World(s0.(state := Reset), t, Nothing),
         World(s0.(state := Sync), t, ResetQuery), World(s4, held, Nothing),
         World(s4.(state := Sync), held, SerialQuery(5, 1)), World(s4.(state := NoIncrUpdate), held, Nothing),
         World(s7, held, Nothing), World(s7.(state := Sync), held, ResetQuery),
         World(s7.(state := Fatal, session := 6, lastUpdate := 0), held, Nothing)],
        [Started, quiet, quiet, Turned(quiet.env.(ins := first)), Turned(quiet.env.(ins := [Cut(NoHeader, WouldBlock)])),
         Turned(quiet.env.(ins := [Got(2, CacheReset)])), quiet, quiet, Turned(quiet.env.(ins := DoubledResponse(r)))])
  }

  lemma StaleRunStarts(r: Record, me: nat)
    requires r.socket == me
    ensures var run := StaleRun(r);
            forall i :: 0 <= i < 4 ==> Step(run.worlds[i], run.events[i], me, run.worlds[i + 1])
  {
    FirstSyncReads(StaleRun(r).worlds[3].socket, r, me, 1);
    hide SyncOnce;
  }

  lemma StaleRunEnds(r: Record, me: nat)
    requires r.socket == me
    ensures var run := StaleRun(r);
            forall i :: 4 <= i < 9 ==> Step(run.worlds[i], run.events[i], me, run.worlds[i + 1])
  {
    var ws, held := StaleRun(r).worlds, Tables({r}, {}, []);
    DoubledReset(ws[8].socket, r, me, 1);
    assert SyncOnce(ws[5].socket, held, me, [Got(2, CacheReset)], 1) == Outcome(ws[6].socket, held, false, []);
    assert Receive(ws[4].socket, Cut(NoHeader, WouldBlock)) == (ws[4].socket, TimedOut);
    hide SyncOnce, Receive;
  }

  /** Synchronised with one record, told to start over, and given that record twice: the run
      ends blank, with the record still in the table. */
  lemma FailedResetRun(r: Record, me: nat) returns (run: Run)
    requires r.socket == me
    ensures IsRun(run, me) && Share(run.worlds[0].tables, me) == NO_RECORDS
    ensures var last := run.worlds[|run.worlds| - 1];
            Blank(last.socket) && last.tables.pfx == {r} && last.socket.state == Fatal
  {
    hide Step;
    run := StaleRun(r);
    StaleRunStarts(r, me);
    StaleRunEnds(r, me);
  }

  // ----- What follows -----

  /** A full set of announcements on top of what is there: accepted if and only if it shares
      no record with it. */
  lemma {:induction false} FullOnTop<T(!new)>(cs: seq<Change<T>>, s: set<T>, d: set<T>)
    requires IsDelta(cs, {}, d)
    ensures AllAccepted(s, cs) <==> s !! d
    ensures s !! d ==> DoAll(s, cs) == s + d
  {
    if s !! d {
      DeltaBeside(cs, {}, d, s);
      assert {} + s == s && d + s == s + d;
      DeltaApplies(cs, s, s + d);
    } else {
      var r :| r in s && r in d;
      assert r in ({} - d) + (d - {});
      RefusedAtShared(cs, s, r);
    }
  }

  lemma {:induction false} RefusedAtShared<T>(cs: seq<Change<T>>, s: set<T>, r: T)
    requires r in s && Occurrences(cs, r) > 0 && forall c :: c in cs ==> c.flags == 1
    ensures !AllAccepted(s, cs)
    decreases |cs|
  {
    assert cs[0] in cs;
    if cs[0].record != r { RefusedAtShared(cs[1..], Do(s, cs[0]), r); }
  }

  /** A full response of an honest cache on top of kept records: refused if and only if the
      cache's data and the kept records have a prefix or router key in common, or the ASPA
      PDUs do not apply; then nothing changes. Otherwise the kept records stay for good
      beside the cache's. */
  lemma FullResponseOnTop(t: Tables, b: Batch, me: nat, d: Data)
    requires Leads(b, NO_DATA, d) && OwnData(d, me)
    ensures var r := Update(t, b);
            && (r.ok <==> PfxOf(t.pfx, me) !! d.pfx && KeysOf(t.keys, me) !! d.keys && AspaAccepts(t.aspa, b.aspa))
            && (!r.ok ==> r.tables == t)
            && (r.ok ==> PfxOf(r.tables.pfx, me) == PfxOf(t.pfx, me) + d.pfx
                         && KeysOf(r.tables.keys, me) == KeysOf(t.keys, me) + d.keys)
  {
    hide Update, IsDelta, AspaAccepts, DoAll, AcceptedCount;
    FullOnTop(Prefixes(b), t.pfx, d.pfx);
    FullOnTop(b.keys, t.keys, d.keys);
    assert t.pfx !! d.pfx <==> PfxOf(t.pfx, me) !! d.pfx;
    assert t.keys !! d.keys <==> KeysOf(t.keys, me) !! d.keys;
    UpdateAllOrNothing(t, b);
    DeltaDistinct(b, NO_DATA, d);
    DistinctBatchRestores(t, b);
  }

  /** The cache announces this record at every serial number. */
  ghost predicate AlwaysHas(h: History, kept: Record) {
    forall session: nat, serial: nat :: kept in h(session, serial).pfx
  }

  /** Blank, with a record of the cache still in the table, before an honest cache. */
  ghost predicate Stuck(h: History, me: nat, kept: Record, p: Peer) {
    && Blank(p.world.socket) && p.world.socket.state != Established
    && kept in p.world.tables.pfx && kept.socket == me
    && PendingFits(h, me, p)
  }

  /** From the Cache Response on. */
  lemma StuckRespond(h: History, me: nat, kept: Record, s: Socket, t: Tables, ins: seq<Recv>, pending: seq<Pdu>)
    requires OwnHistory(h, me) && AlwaysHas(h, kept) && Blank(s) && s.state == Sync
    requires kept in t.pfx && kept.socket == me
    requires Answer(pending, h, me, QueryOf(s)) && pending != [] && pending[0].CacheResponse?
    requires Pdus(ins) <= pending[1..]
    requires var o := Collect(HandleCacheResponse(s, pending[0].session), t, NO_PDUS, me, ins); o.Outcome? && o.rest == []
    ensures var o := Collect(HandleCacheResponse(s, pending[0].session), t, NO_PDUS, me, ins);
            !o.ok && o.tables == t && Blank(o.socket) && LeftAfter(h, me, o, pending[1..][|Pdus(ins)|..])
  {
    hide Collect, Leads, FullAspa, Update;
    var data, serial := AnswerIsResponse(h, me, s, pending);
    var session := pending[0].session;
    assert pending[1..] == data + [EndOfData(session, serial)];
    assert data[..0] == [] && data[0..] == data && BatchOf([], me) == NO_PDUS;
    var s1 := HandleCacheResponse(s, session);
    var o := Collect(s1, t, NO_PDUS, me, ins);
    CollectHonest(s1, t, me, ins, data, 0, session, serial);
    if GaveUp(o, s1, t) {
      var left := pending[1..][|Pdus(ins)|..];
      forall p | p in left ensures IsData(p) || p.EndOfData? { assert p in pending[1..]; }
      assert Leftover(left);
    } else {
      var s2 :| SameCore(s1, s2) && s2.state == s1.state && o == EndSync(s2, t, BatchOf(data, me), me, session, serial, []);
      var d := h(session, serial);
      assert kept in PfxOf(t.pfx, me) && kept in d.pfx;
      FullResponseOnTop(t, BatchOf(data, me), me, d);
    }
  }

  lemma {:induction false} StuckSync(h: History, me: nat, kept: Record, s: Socket, t: Tables, ins: seq<Recv>, now: nat, pending: seq<Pdu>)
    requires OwnHistory(h, me) && AlwaysHas(h, kept) && Blank(s) && s.state == Sync
    requires kept in t.pfx && kept.socket == me
    requires Answer(pending, h, me, QueryOf(s)) || Leftover(pending)
    requires Pdus(ins) <= pending
    requires var o := SyncOnce(s, t, me, ins, now); o.Outcome? && o.rest == []
    ensures var o := SyncOnce(s, t, me, ins, now);
            !o.ok && o.tables == t && Blank(o.socket) && LeftAfter(h, me, o, pending[|Pdus(ins)|..])
    decreases |ins|
  {
    hide Receive, Collect, HandleCacheResponse, HandleError, Answer, LeftAfter, OwnHistory, AlwaysHas;
    ReceiveCore(s, ins[0]);
    var (s', got) := Receive(s, ins[0]);
    AnswerStays(h, me, s, s', pending);
    if got.Delivered? && got.pdu.SerialNotify? {
      assert Pdus(ins) == Pdus(ins[1..]);
      StuckSync(h, me, kept, s', t, ins[1..], now, pending);
    } else {
      OnePdu(ins);
      if got.Delivered? && got.pdu.CacheResponse? {
        assert got.pdu == Pdus(ins)[0] == pending[0] && pending[0] in pending;
        assert Pdus(ins[1..]) == Pdus(ins)[1..] <= pending[1..];
        assert pending[1..][|Pdus(ins[1..])|..] == pending[|Pdus(ins)|..];
        StuckRespond(h, me, kept, s', t, ins[1..], pending);
      } else {
        SyncOther(h, me, s, t, ins, now, pending);
      }
    }
  }

  lemma StuckStep(h: History, me: nat, kept: Record, p: Peer, ev: Event, p': Peer)
    requires OwnHistory(h, me) && AlwaysHas(h, kept) && Stuck(h, me, kept, p)
    requires HonestStep(p, ev, h, me, p') && !ev.Stopped?
    ensures Stuck(h, me, kept, p') && p'.world.tables == p.world.tables
  {
    hide SyncOnce, Receive, Answer, OwnHistory, AlwaysHas;
    if ev.Turned? && p.world.socket.state == Sync {
      StuckSync(h, me, kept, p.world.socket, p.world.tables, ev.env.ins, ev.env.now, p.pending);
    }
  }

  /** While the cache keeps announcing a record the failed reset left behind, nothing but a
      stop helps: every full response is refused as a duplicate, no step changes the
      tables, the records never expire and the socket is never established. */
  lemma {:induction false} NeverResynchronises(h: History, me: nat, kept: Record, peers: seq<Peer>, events: seq<Event>, n: nat)
    requires OwnHistory(h, me) && AlwaysHas(h, kept)
    requires |peers| == |events| + 1 && Stuck(h, me, kept, peers[0]) && n < |peers|
    requires forall i :: 0 <= i < |events| ==> HonestStep(peers[i], events[i], h, me, peers[i + 1]) && !events[i].Stopped?
    ensures Stuck(h, me, kept, peers[n]) && peers[n].world.tables == peers[0].world.tables
    decreases n
  {
    hide HonestStep, Stuck;
    if n > 0 {
      NeverResynchronises(h, me, kept, peers, events, n - 1);
      assert HonestStep(peers[n - 1], events[n - 1], h, me, peers[n - 1 + 1]);
      StuckStep(h, me, kept, peers[n - 1], events[n - 1], peers[n]);
    }
  }

  /** The run above ends there, whatever history contains its record. */
  lemma FailedResetIsStuck(r: Record, me: nat, h: History) returns (run: Run)
    requires r.socket == me
    ensures IsRun(run, me) && Stuck(h, me, r, Peer(run.worlds[|run.worlds| - 1], []))
  {
    run := FailedResetRun(r, me);
  }
}
