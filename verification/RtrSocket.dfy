/** struct rtr_socket with its loops, as rtrlib/rtr/packets.c and rtrlib/rtr/rtr.c run them,
    against the functions of RtrSync. */
module RtrSocketClass {
  import opened SyncUndo
  import opened SyncTables
  import opened SyncMethods
  import opened ResetMethods
  import opened RtrSync
  import opened Trie
  import opened LinearHashing
  import opened PfxTables
  import opened SpkiTables
  import opened AspaTable
  import opened AspaUpdate
  import PfxTree

  /** Prefix PDUs carry addresses of their version. */
  ghost predicate GoodPdu(p: Pdu) {
    && (p.Ipv4Prefix? ==> PfxTree.WellFormed(p.prefix.record, 32))
    && (p.Ipv6Prefix? ==> PfxTree.WellFormed(p.prefix.record, 128))
  }

  ghost predicate GoodInput(ins: seq<Recv>) {
    forall r :: r in ins && r.Got? ==> GoodPdu(r.pdu)
  }

  ghost predicate GoodBatch(b: Batch) {
    forall c :: c in Prefixes(b) ==> Sendable(c.record)
  }

  lemma StoreGood(b: Batch, p: Pdu, me: nat)
    requires GoodBatch(b) && GoodPdu(p) && IsData(p)
    ensures GoodBatch(StorePdu(b, p, me)) && |StorePdu(b, p, me).keys| <= |b.keys| + 1
  {
  }

  class RtrSocket {
    const me: nat
    const pfx: PfxTable
    const spki: SpkiTable
    var aspa: seq<AspaRecord>
    var state: State
    var version: nat
    var session: nat
    var serial: nat
    var requestSession: bool
    var lastUpdate: nat
    var resetting: bool
    var hasReceived: bool

    ghost function Fields(): Socket
      reads this
    {
      Socket(state, version, session, serial, requestSession, lastUpdate, resetting, hasReceived)
    }

    ghost function Held(): Tables
      reads this, pfx, spki
    {
      Current(pfx, spki, aspa)
    }

    ghost predicate Valid()
      reads this, pfx, pfx.Repr, spki, spki.hashtable
    {
      pfx.Valid() && spki.Valid()
    }

    /** rtr_init. */
    constructor (me: nat, pfx: PfxTable, spki: SpkiTable)
      requires pfx.Valid() && spki.Valid()
      ensures Valid() && this.me == me && this.pfx == pfx && this.spki == spki && aspa == []
      ensures Initial(Fields())
    {
      this.me, this.pfx, this.spki, aspa := me, pfx, spki, [];
      state, version, session, serial := Closed, MAX_VERSION, 0, 0;
      requestSession, lastUpdate, resetting, hasReceived := true, 0, false, false;
      new;
      pfx.Same();
      spki.Same();
    }

    /** The tables are as before when only the socket's own fields changed. */
    twostate lemma Same()
      requires old(Valid()) && unchanged(pfx) && unchanged(spki) && unchanged(spki.hashtable)
      requires forall n :: n in pfx.Repr && old(allocated(n)) ==> unchanged(n)
      ensures Valid()
    {
      pfx.Same();
      spki.Same();
    }

    method SeeHeader(v: nat, isError: bool)
      modifies this`version, this`hasReceived
      ensures Fields() == RtrSync.SeeHeader(old(Fields()), v, isError)
    {
      if !hasReceived {
        if !isError && version > v && v <= MAX_VERSION { version := v; }
        hasReceived := true;
      }
    }

    /** rtr_receive_pdu. */
    method Receive(r: Recv) returns (got: Received)
      modifies this`version, this`hasReceived, this`state
      ensures (Fields(), got) == RtrSync.Receive(old(Fields()), r)
      ensures version <= old(version) && (version != old(version) ==> !old(hasReceived) && hasReceived)
      ensures old(hasReceived) ==> hasReceived
      ensures got.Delivered? ==>
                && r.Got? && got.pdu == r.pdu && state == old(state) && hasReceived
                && (got.pdu.ErrorReport? || r.version == version) && (got.pdu.Aspa? ==> r.version == 2)
      ensures got.TimedOut? ==> state == old(state) && r.Cut? && r.why == WouldBlock
      ensures state != old(state) ==> got.Undelivered? && r.Cut? && state == if r.why == Broken then Fatal else Transport
    {
      match r
      case Got(v, pdu) =>
        SeeHeader(v, pdu.ErrorReport?);
        if v != version && !pdu.ErrorReport? { return Undelivered; }
        if pdu.Aspa? && v != 2 { return Undelivered; }
        return Delivered(pdu);
      case Cut(header, why) =>
        if header.Header? {
          SeeHeader(header.version, header.isError);
          if header.version != version && !header.isError { return Undelivered; }
        }
        match why
        case WouldBlock => return TimedOut;
        case Interrupted => return Undelivered;
        case TransportError => state := Transport; return Undelivered;
        case Broken => state := Fatal; return Undelivered;
    }

    /** rtr_handle_error_pdu. */
    method HandleError(code: nat, v: nat)
      modifies this`version, this`state
      ensures Fields() == RtrSync.HandleError(old(Fields()), code, v)
      ensures version <= old(version)
      ensures state == FastReconnect <==> version < old(version)
      ensures version < old(version) ==> code == UNSUPPORTED_PROTOCOL_VER && version == v <= MAX_VERSION
      ensures state in {NoDataAvail, FastReconnect, Fatal} && (state == NoDataAvail <==> code == NO_DATA_AVAIL)
    {
      if code == NO_DATA_AVAIL {
        state := NoDataAvail;
      } else if code == UNSUPPORTED_PROTOCOL_VER && v <= MAX_VERSION && v < version {
        version := v;
        state := FastReconnect;
      } else {
        state := Fatal;
      }
    }

    /** rtr_handle_cache_response_pdu. */
    method HandleCacheResponse(id: nat)
      modifies this`lastUpdate, this`resetting, this`session, this`state
      ensures Fields() == RtrSync.HandleCacheResponse(old(Fields()), id)
      ensures session == id || state == Fatal
      ensures !old(resetting) && resetting <==> !old(resetting) && requestSession && old(lastUpdate) != 0
      ensures requestSession ==> session == id && lastUpdate == 0 && state == old(state)
      ensures !requestSession ==> session == old(session) && lastUpdate == old(lastUpdate) && resetting == old(resetting)
    {
      if requestSession {
        if lastUpdate != 0 {
          lastUpdate := 0;
          resetting := true;
        }
        session := id;
      } else if session != id {
        state := Fatal;
      }
    }

    /** The End of Data PDU: check the session, then update or reset the tables. */
    method EndSync(b: Batch, id: nat, sn: nat, ghost rest: seq<Recv>) returns (ok: bool)
      requires Valid() && GoodBatch(b) && 2 * |spki.list| + 2 * |b.keys| + 1 < COUNT_LIMIT
      modifies this, pfx, pfx.Repr, spki, spki.hashtable
      ensures Valid()
      ensures Outcome(Fields(), Held(), ok, rest) == RtrSync.EndSync(old(Fields()), old(Held()), b, me, id, sn, rest)
    {
      hide PfxTable.Valid, SpkiTable.Valid, Update, ResetTables;
      if id != session {
        state := Fatal;
        Same();
        return false;
      }
      if resetting {
        var arr;
        ghost var added, removed;
        ok, arr, added, removed := ResetAll(pfx, spki, aspa, b, me);
        aspa := arr;
      } else {
        var arr;
        ok, arr := UpdateTables(pfx, spki, aspa, b);
        aspa := arr;
      }
      label updated: resetting := false;
      if ok { serial := sn; } else { state := Fatal; }
      Same@updated();
    }
  
    /** Nothing but the socket's own fields has changed. */
    twostate predicate TablesUntouched()
      reads this, pfx, pfx.Repr, spki, spki.hashtable
    {
      && unchanged(pfx) && unchanged(spki) && unchanged(spki.hashtable) && aspa == old(aspa)
      && forall n :: n in pfx.Repr && old(allocated(n)) ==> unchanged(n)
    }

    /** rtr_sync_receive_and_store_pdus, when enough is received for it to return. */
    method ReceiveAndStore(ins: seq<Recv>) returns (ok: bool, rest: seq<Recv>)
      requires Valid() && GoodInput(ins) && 2 * |spki.list| + 2 * |ins| + 1 < COUNT_LIMIT
      requires RtrSync.Collect(Fields(), Held(), NO_PDUS, me, ins).Outcome?
      modifies this, pfx, pfx.Repr, spki, spki.hashtable
      ensures Valid()
      ensures Outcome(Fields(), Held(), ok, rest) == old(RtrSync.Collect(Fields(), Held(), NO_PDUS, me, ins))
    {
      hide PfxTable.Valid, SpkiTable.Valid, RtrSync.Receive, RtrSync.EndSync, StorePdu;
      var b := NO_PDUS;
      rest := ins;
      while true
        invariant Valid() && TablesUntouched()
        invariant GoodInput(rest) && GoodBatch(b) && |b.keys| + |rest| <= |ins|
        invariant RtrSync.Collect(Fields(), Held(), b, me, rest) == old(RtrSync.Collect(Fields(), Held(), NO_PDUS, me, ins))
        decreases |rest|
      {
        var r := rest[0];
        rest := rest[1..];
        var got := Receive(r);
        Same();
        if got.TimedOut? {
          state := Transport;
          Same();
          return false, rest;
        } else if got.Undelivered? {
          return false, rest;
        }
        var p := got.pdu;
        if IsData(p) {
          assert GoodPdu(p);
          StoreGood(b, p, me);
          b := StorePdu(b, p, me);
        } else if p.EndOfData? {
          ok := EndSync(b, p.session, p.serial, rest);
          return;
        } else if p.ErrorReport? {
          HandleError(p.code, r.version);
          Same();
          return false, rest;
        } else if !p.SerialNotify? {
          return false, rest;
        }
      }
    }
  
    /** rtr_sync, when enough is received for it to return. */
    method SyncOnce(ins: seq<Recv>, now: nat) returns (ok: bool, rest: seq<Recv>)
      requires Valid() && GoodInput(ins) && 2 * |spki.list| + 2 * |ins| + 1 < COUNT_LIMIT
      requires RtrSync.SyncOnce(Fields(), Held(), me, ins, now).Outcome?
      modifies this, pfx, pfx.Repr, spki, spki.hashtable
      ensures Valid()
      ensures Outcome(Fields(), Held(), ok, rest) == old(RtrSync.SyncOnce(Fields(), Held(), me, ins, now))
    {
      hide PfxTable.Valid, SpkiTable.Valid, RtrSync.Receive, RtrSync.Collect;
      rest := ins;
      var got: Received, r: Recv;
      while true
        invariant Valid() && TablesUntouched() && GoodInput(rest) && |rest| <= |ins|
        invariant RtrSync.SyncOnce(Fields(), Held(), me, rest, now) == old(RtrSync.SyncOnce(Fields(), Held(), me, ins, now))
        decreases |rest|
      {
        r := rest[0];
        rest := rest[1..];
        got := Receive(r);
        Same();
        if got.TimedOut? {
          state := Transport;
          Same();
          return false, rest;
        } else if got.Undelivered? {
          return false, rest;
        }
        if got.pdu.ErrorReport? {
          HandleError(got.pdu.code, r.version);
          Same();
          return false, rest;
        } else if got.pdu.CacheReset? {
          state := NoIncrUpdate;
          Same();
          return false, rest;
        } else if got.pdu.CacheResponse? {
          HandleCacheResponse(got.pdu.session);
          Same();
          ok, rest := ReceiveAndStore(rest);
          if ok {
            label synced: requestSession := false;
            lastUpdate := now;
            Same@synced();
          }
          return;
        } else if !got.pdu.SerialNotify? {
          return false, rest;
        }
      }
    }

    /** rtr_purge_outdated_records. */
    method Purge(expired: bool)
      requires Valid()
      modifies this, pfx, pfx.Repr, spki, spki.hashtable
      ensures Valid()
      ensures Fields() == PurgedSocket(old(Fields()), expired)
      ensures Held() == PurgedTables(old(Fields()), old(Held()), me, expired)
    {
      hide PfxTable.Valid, SpkiTable.Valid, Filter;
      if lastUpdate != 0 && expired {
        RemoveRecords();
        label removed: requestSession, serial, lastUpdate, resetting := true, 0, 0, true;
        Same@removed();
      }
    }

    /** The records of the socket leave all three tables. */
    method RemoveRecords()
      requires Valid()
      modifies this`aspa, pfx, pfx.Repr, spki, spki.hashtable
      ensures Valid() && Held() == Purged(old(Held()), me)
    {
      hide PfxTable.Valid, SpkiTable.Valid, Filter;
      ghost var list := spki.list;
      ghost var gone := pfx.SrcRemove(me);
      spki.Same();
      label prefixes: spki.SrcRemove(me);
      pfx.Same@prefixes();
      FilterMembers(list, NotFrom(me));
      label keys: aspa := [];
      pfx.Same@keys();
      spki.Same@keys();
    }

    /** The turn in state Connecting. */
    method Connect(e: Env) returns (sent: Sent)
      requires Valid() && state == Connecting
      modifies this, pfx, pfx.Repr, spki, spki.hashtable
      ensures Valid()
      ensures RtrSync.Turn.Turn(Fields(), Held(), sent, false) == old(RtrSync.Advance(Fields(), Held(), me, e))
    {
      hide PfxTable.Valid, SpkiTable.Valid, Purged;
      sent := Nothing;
      hasReceived := false;
      Same();
      Purge(e.expired);
      label purged:
      if !e.opens {
        state := Transport;
      } else if requestSession {
        state := Reset;
      } else if e.sends {
        sent := SerialQuery(session, serial);
        state := Sync;
      } else {
        state := Fatal;
      }
      Same@purged();
    }

    /** The turn in state Sync. */
    method Synchronise(e: Env)
      requires Valid() && GoodInput(e.ins) && 2 * |spki.list| + 2 * |e.ins| + 1 < COUNT_LIMIT
      requires state == Sync && RtrSync.Advance(Fields(), Held(), me, e).Turn?
      modifies this, pfx, pfx.Repr, spki, spki.hashtable
      ensures Valid()
      ensures RtrSync.Turn.Turn(Fields(), Held(), Nothing, false) == old(RtrSync.Advance(Fields(), Held(), me, e))
    {
      hide PfxTable.Valid, SpkiTable.Valid, RtrSync.SyncOnce;
      var ok, rest := SyncOnce(e.ins, e.now);
      label synced: if ok { state := Established; }
      Same@synced();
    }

    /** One turn of the loop of rtr_fsm_start, when enough is received for it to end. */
    method Turn(e: Env) returns (sent: Sent, closed: bool)
      requires Valid() && GoodInput(e.ins) && 2 * |spki.list| + 2 * |e.ins| + 1 < COUNT_LIMIT
      requires RtrSync.Advance(Fields(), Held(), me, e).Turn?
      modifies this, pfx, pfx.Repr, spki, spki.hashtable
      ensures Valid()
      ensures RtrSync.Turn.Turn(Fields(), Held(), sent, closed) == old(RtrSync.Advance(Fields(), Held(), me, e))
    {
      hide PfxTable.Valid, SpkiTable.Valid, RtrSync.Receive, RtrSync.SyncOnce, Purged;
      sent, closed := Nothing, false;
      match state
      case Connecting =>
        sent := Connect(e);
      case Reset =>
        if e.sends {
          sent := ResetQuery;
          state := Sync;
        } else {
          state := Transport;
        }
        Same();
      case Sync =>
        Synchronise(e);
      case Established =>
        var got := Receive(e.ins[0]);
        if got.TimedOut? || got == Delivered(SerialNotify) {
          if e.sends {
            sent := SerialQuery(session, serial);
            state := Sync;
          } else {
            state := Transport;
          }
        }
        Same();
      case NoDataAvail =>
        requestSession, serial, state := true, 0, Reset;
        Same();
        Purge(e.expired);
      case NoIncrUpdate =>
        requestSession, serial, state := true, 0, Reset;
        Same();
        Purge(e.expired);
      case FastReconnect | Transport | Fatal =>
        closed := true;
        state := Connecting;
        Same();
    }

    /** rtr_start and rtr_stop. */
    method Start()
      requires Valid()
      modifies this`state
      ensures Valid() && Fields() == RtrSync.Start(old(Fields())) && Held() == old(Held())
    {
      state := Connecting;
      Same();
    }

    method Stop()
      requires Valid()
      modifies this, pfx, pfx.Repr, spki, spki.hashtable
      ensures Valid() && Fields() == RtrSync.Stop(old(Fields())) && Held() == Purged(old(Held()), me)
    {
      hide PfxTable.Valid, SpkiTable.Valid;
      RemoveRecords();
      label removed: requestSession, serial, lastUpdate, state := true, 0, 0, Closed;
      Same@removed();
    }
  }
}
