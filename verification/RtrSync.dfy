/** One socket of the RPKI-RTR client: receiving PDUs, synchronising, and the state machine
    (rtrlib/rtr/packets.c and rtrlib/rtr/rtr.c). One turn of the machine's loop is one step. */
module RtrSync {
  import opened SyncUndo
  import opened SyncTables
  import opened Trie
  import opened LinearHashing
  import opened AspaTable
  import opened AspaUpdate

  datatype State =
    | Connecting | Established | Reset | Sync | FastReconnect
    | NoDataAvail | NoIncrUpdate | Fatal | Transport | Closed

  /** struct rtr_socket. */
  datatype Socket = Socket(
    state: State, version: nat, session: nat, serial: nat,
    requestSession: bool, lastUpdate: nat, resetting: bool, hasReceived: bool)

  const MAX_VERSION: nat := 2
  const NO_DATA_AVAIL: nat := 2
  const UNSUPPORTED_PROTOCOL_VER: nat := 4

  datatype Pdu =
    | SerialNotify
    | CacheResponse(session: nat)
    | Ipv4Prefix(prefix: Change<Record>)
    | Ipv6Prefix(prefix: Change<Record>)
    | RouterKey(key: Change<KeyEntry>)
    | Aspa(add: bool, customer: nat, providers: seq<nat>)
    | EndOfData(session: nat, serial: nat)
    | CacheReset
    | ErrorReport(code: nat)
    | Query

  datatype Why = WouldBlock | Interrupted | TransportError | Broken

  datatype Header = NoHeader | Header(version: nat, isError: bool)

  /** What one call of the transport brings: a PDU with the version in its header, or a
      failure before or after the header. Broken stands for a closed connection, a bad
      length and an unknown type. */
  datatype Recv = Got(version: nat, pdu: Pdu) | Cut(header: Header, why: Why)

  datatype Received = Delivered(pdu: Pdu) | TimedOut | Undelivered

  // ----- rtr_receive_pdu -----

  /** Live downgrading: the first PDU of a connection may lower the version. */
  function SeeHeader(s: Socket, version: nat, isError: bool): Socket {
    if s.hasReceived then s
    else if !isError && s.version > version && version <= MAX_VERSION then s.(version := version, hasReceived := true)
    else s.(hasReceived := true)
  }

  function Receive(s: Socket, r: Recv): (Socket, Received) {
    match r
    case Got(version, pdu) =>
      var s' := SeeHeader(s, version, pdu.ErrorReport?);
      if version != s'.version && !pdu.ErrorReport? then (s', Undelivered)
      else if pdu.Aspa? && version != 2 then (s', Undelivered)
      else (s', Delivered(pdu))
    case Cut(header, why) =>
      var s' := if header.NoHeader? then s else SeeHeader(s, header.version, header.isError);
      if header.Header? && header.version != s'.version && !header.isError then (s', Undelivered)
      else match why
        case WouldBlock => (s', TimedOut)
        case Interrupted => (s', Undelivered)
        case TransportError => (s'.(state := Transport), Undelivered)
        case Broken => (s'.(state := Fatal), Undelivered)
  }

  // ----- Handling single PDUs -----

  /** rtr_handle_error_pdu. */
  function HandleError(s: Socket, code: nat, version: nat): Socket {
    if code == NO_DATA_AVAIL then s.(state := NoDataAvail)
    else if code == UNSUPPORTED_PROTOCOL_VER && version <= MAX_VERSION && version < s.version then
      s.(version := version, state := FastReconnect)
    else s.(state := Fatal)
  }

  /** rtr_handle_cache_response_pdu, whose result is not looked at. */
  function HandleCacheResponse(s: Socket, session: nat): Socket {
    if s.requestSession then
      if s.lastUpdate != 0 then s.(lastUpdate := 0, resetting := true, session := session)
      else s.(session := session)
    else if s.session != session then s.(state := Fatal)
    else s
  }

  /** The PDU's record becomes one of this socket. */
  function Own(c: Change<Record>, me: nat): Change<Record> {
    Change(c.flags, c.record.(socket := me))
  }

  function OwnKey(c: Change<KeyEntry>, me: nat): Change<KeyEntry> {
    Change(c.flags, c.record.(socket := me))
  }

  const NO_PDUS: Batch := Batch([], [], [], [])

  predicate IsData(p: Pdu) {
    p.Ipv4Prefix? || p.Ipv6Prefix? || p.RouterKey? || p.Aspa?
  }

  /** rtr_store_prefix_pdu, rtr_store_router_key_pdu, rtr_store_aspa_pdu. */
  function StorePdu(b: Batch, p: Pdu, me: nat): Batch
    requires IsData(p)
  {
    match p
    case Ipv4Prefix(c) => b.(v4 := b.v4 + [Own(c, me)])
    case Ipv6Prefix(c) => b.(v6 := b.v6 + [Own(c, me)])
    case RouterKey(c) => b.(keys := b.keys + [OwnKey(c, me)])
    case Aspa(add, customer, providers) => b.(aspa := b.aspa + [Op(add, customer, if add then providers else [])])
  }

  // ----- rtr_sync -----

  /** A call that came to its end, with what it left unread. */
  datatype Outcome = Outcome(socket: Socket, tables: Tables, ok: bool, rest: seq<Recv>) | Starved

  /** Atomic reset: the response is applied to a copy without the socket's records; the
      copy replaces the tables on success. Without an ASPA PDU the copy has no ASPA records
      to put in place, and the old ones stay. */
  function ResetTables(t: Tables, b: Batch, me: nat): Result {
    var r := Update(Purged(t, me), b);
    if r.ok then Result(r.tables.(aspa := if b.aspa == [] then t.aspa else r.tables.aspa), true)
    else Result(t, false)
  }

  /** The End of Data PDU: apply what was stored. */
  function EndSync(s: Socket, t: Tables, b: Batch, me: nat, session: nat, serial: nat, rest: seq<Recv>): Outcome {
    if session != s.session then Outcome(s.(state := Fatal), t, false, rest)
    else
      var r := if s.resetting then ResetTables(t, b, me) else Update(t, b);
      if r.ok then Outcome(s.(serial := serial, resetting := false), r.tables, true, rest)
      else Outcome(s.(state := Fatal, resetting := false), r.tables, false, rest)
  }

  /** rtr_sync_receive_and_store_pdus. */
  function Collect(s: Socket, t: Tables, b: Batch, me: nat, ins: seq<Recv>): Outcome
    decreases |ins|
  {
    if ins == [] then Starved
    else
      var (s', got) := Receive(s, ins[0]);
      match got
      case TimedOut => Outcome(s'.(state := Transport), t, false, ins[1..])
      case Undelivered => Outcome(s', t, false, ins[1..])
      case Delivered(p) =>
        if p.SerialNotify? then Collect(s', t, b, me, ins[1..])
        else if IsData(p) then Collect(s', t, StorePdu(b, p, me), me, ins[1..])
        else if p.EndOfData? then EndSync(s', t, b, me, p.session, p.serial, ins[1..])
        else if p.ErrorReport? then Outcome(HandleError(s', p.code, ins[0].version), t, false, ins[1..])
        else Outcome(s', t, false, ins[1..])
  }

  function SyncOnce(s: Socket, t: Tables, me: nat, ins: seq<Recv>, now: nat): Outcome
    decreases |ins|
  {
    if ins == [] then Starved
    else
      var (s', got) := Receive(s, ins[0]);
      match got
      case TimedOut => Outcome(s'.(state := Transport), t, false, ins[1..])
      case Undelivered => Outcome(s', t, false, ins[1..])
      case Delivered(p) =>
        if p.SerialNotify? then SyncOnce(s', t, me, ins[1..], now)
        else if p.ErrorReport? then Outcome(HandleError(s', p.code, ins[0].version), t, false, ins[1..])
        else if p.CacheReset? then Outcome(s'.(state := NoIncrUpdate), t, false, ins[1..])
        else if p.CacheResponse? then
          var o := Collect(HandleCacheResponse(s', p.session), t, NO_PDUS, me, ins[1..]);
          if o.Outcome? && o.ok then o.(socket := o.socket.(requestSession := false, lastUpdate := now)) else o
        else Outcome(s', t, false, ins[1..])
  }

  // ----- rtr_fsm_start -----

  datatype Sent = Nothing | ResetQuery | SerialQuery(session: nat, serial: nat)

  /** What the outside decides during one turn: whether the records have expired, whether
      opening and sending succeed, what is received, and the time, which is not 0. */
  datatype Env = Env(expired: bool, opens: bool, sends: bool, ins: seq<Recv>, now: nat)

  datatype Turn = Turn(socket: Socket, tables: Tables, sent: Sent, closed: bool) | Waiting

  /** rtr_purge_outdated_records. */
  predicate Purges(s: Socket, expired: bool) {
    s.lastUpdate != 0 && expired
  }

  function PurgedSocket(s: Socket, expired: bool): Socket {
    if Purges(s, expired) then s.(requestSession := true, serial := 0, lastUpdate := 0, resetting := true) else s
  }

  function PurgedTables(s: Socket, t: Tables, me: nat, expired: bool): Tables {
    if Purges(s, expired) then Purged(t, me) else t
  }

  function SendSerialQuery(s: Socket, t: Tables, sends: bool, otherwise: State): Turn {
    if sends then Turn(s.(state := Sync), t, SerialQuery(s.session, s.serial), false)
    else Turn(s.(state := otherwise), t, Nothing, false)
  }

  function Advance(s: Socket, t: Tables, me: nat, e: Env): Turn {
    match s.state
    case Connecting =>
      var s1 := s.(hasReceived := false);
      var s2, t2 := PurgedSocket(s1, e.expired), PurgedTables(s1, t, me, e.expired);
      if !e.opens then Turn(s2.(state := Transport), t2, Nothing, false)
      else if s2.requestSession then Turn(s2.(state := Reset), t2, Nothing, false)
      else SendSerialQuery(s2, t2, e.sends, Fatal)
    case Reset =>
      if e.sends then Turn(s.(state := Sync), t, ResetQuery, false) else Turn(s.(state := Transport), t, Nothing, false)
    case Sync =>
      var o := SyncOnce(s, t, me, e.ins, e.now);
      if o.Starved? || o.rest != [] then Waiting
      else Turn(if o.ok then o.socket.(state := Established) else o.socket, o.tables, Nothing, false)
    case Established =>
      if |e.ins| != 1 then Waiting
      else
        var (s', got) := Receive(s, e.ins[0]);
        if got.TimedOut? || got == Delivered(SerialNotify) then SendSerialQuery(s', t, e.sends, Transport)
        else Turn(s', t, Nothing, false)
    case NoDataAvail =>
      var s' := s.(requestSession := true, serial := 0, state := Reset);
      Turn(PurgedSocket(s', e.expired), PurgedTables(s', t, me, e.expired), Nothing, false)
    case NoIncrUpdate =>
      var s' := s.(requestSession := true, serial := 0, state := Reset);
      Turn(PurgedSocket(s', e.expired), PurgedTables(s', t, me, e.expired), Nothing, false)
    case FastReconnect => Turn(s.(state := Connecting), t, Nothing, true)
    case Transport => Turn(s.(state := Connecting), t, Nothing, true)
    case Fatal => Turn(s.(state := Connecting), t, Nothing, true)
    case Closed => Waiting
  }

  /** rtr_init. */
  predicate Initial(s: Socket) {
    && s.state == Closed && s.version == MAX_VERSION && s.serial == 0
    && s.requestSession && s.lastUpdate == 0 && !s.resetting && !s.hasReceived
  }

  /** rtr_start. */
  function Start(s: Socket): Socket {
    s.(state := Connecting)
  }

  /** rtr_stop. */
  function Stop(s: Socket): Socket {
    s.(requestSession := true, serial := 0, lastUpdate := 0, state := Closed)
  }
}
