/** rtr_sync_update_tables (rtrlib/rtr/packets.c): a complete response applied to the three
    tables, prefixes first, then router keys, then ASPA, and undone after an error. */
module SyncTables {
  import opened SyncUndo
  import opened Trie
  import opened LinearHashing
  import opened AspaTable
  import opened AspaUpdate
  import opened AspaMerge

  /** The prefix and the router key table, shared by all sockets, and the ASPA records of
      this socket. */
  datatype Tables = Tables(pfx: set<Record>, keys: set<KeyEntry>, aspa: seq<AspaRecord>)

  /** The PDUs stored until End of Data. */
  datatype Batch = Batch(v4: seq<Change<Record>>, v6: seq<Change<Record>>, keys: seq<Change<KeyEntry>>, aspa: seq<Op>)

  datatype Result = Result(tables: Tables, ok: bool)

  function Prefixes(b: Batch): seq<Change<Record>> {
    b.v4 + b.v6
  }

  predicate EmptyAnnouncement(ops: seq<Op>) {
    exists o :: o in ops && o.add && o.providers == []
  }

  /** rtr_compute_update_aspa_table: nothing to do, or refused, or a new array. */
  predicate AspaAccepts(arr: seq<AspaRecord>, ops: seq<Op>) {
    ops == [] || (!EmptyAnnouncement(ops) && Run(arr, SortOps(ops), 0, 0, [], []).Done?)
  }

  function AspaArray(arr: seq<AspaRecord>, ops: seq<Op>): seq<AspaRecord>
    requires AspaAccepts(arr, ops)
  {
    if ops == [] then arr else Run(arr, SortOps(ops), 0, 0, [], []).arr
  }

  /** What is left of a table after its first changes and their undoing. */
  function TakenBack<T(==)>(s: set<T>, cs: seq<Change<T>>): set<T> {
    UndoAll(DoAll(s, cs), cs)
  }

  function Update(t: Tables, b: Batch): Result {
    var prefixes := Prefixes(b);
    var n := AcceptedCount(t.pfx, prefixes);
    if n < |prefixes| then Result(t.(pfx := TakenBack(t.pfx, prefixes[..n])), false)
    else
      var k := AcceptedCount(t.keys, b.keys);
      if k < |b.keys| then
        Result(t.(keys := TakenBack(t.keys, b.keys[..k]), pfx := TakenBack(t.pfx, prefixes)), false)
      else if !AspaAccepts(t.aspa, b.aspa) then
        Result(t.(keys := TakenBack(t.keys, b.keys), pfx := TakenBack(t.pfx, prefixes)), false)
      else
        Result(Tables(DoAll(t.pfx, prefixes), DoAll(t.keys, b.keys), AspaArray(t.aspa, b.aspa)), true)
  }

  /** The prefix changes made before the error. */
  function AppliedPrefixes(t: Tables, b: Batch): seq<Change<Record>> {
    Prefixes(b)[..AcceptedCount(t.pfx, Prefixes(b))]
  }

  function AppliedKeys(t: Tables, b: Batch): seq<Change<KeyEntry>> {
    if AcceptedCount(t.pfx, Prefixes(b)) < |Prefixes(b)| then [] else b.keys[..AcceptedCount(t.keys, b.keys)]
  }

  /** The update succeeds exactly when every change is accepted. After an error the ASPA
      records are as before, and each other table is as before if and only if every record
      changed before the error was changed an odd number of times. */
  lemma UpdateAllOrNothing(t: Tables, b: Batch)
    ensures var r := Update(t, b);
            && (r.ok <==> AllAccepted(t.pfx, Prefixes(b)) && AllAccepted(t.keys, b.keys) && AspaAccepts(t.aspa, b.aspa))
            && (r.ok ==> r.tables.pfx == DoAll(t.pfx, Prefixes(b)) && r.tables.keys == DoAll(t.keys, b.keys))
            && (!r.ok ==>
                && r.tables.aspa == t.aspa
                && (r.tables.pfx == t.pfx <==> OddOccurrences(AppliedPrefixes(t, b)))
                && (r.tables.keys == t.keys <==> OddOccurrences(AppliedKeys(t, b))))
  {
    hide AspaAccepts, AspaArray, OddOccurrences, DoAll, UndoAll, AcceptedCount;
    var prefixes, n := Prefixes(b), AcceptedCount(t.pfx, Prefixes(b));
    var k := AcceptedCount(t.keys, b.keys);
    PrefixAccepted(t.pfx, prefixes);
    PrefixAccepted(t.keys, b.keys);
    UndoRestoresIff(t.pfx, prefixes[..n]);
    UndoRestoresIff(t.keys, b.keys[..k]);
    NothingToUndo();
    assert prefixes[..|prefixes|] == prefixes && b.keys[..|b.keys|] == b.keys;
  }

  lemma NothingToUndo()
    ensures OddOccurrences<KeyEntry>([])
  {
  }

  /** No record twice in the batch. */
  ghost predicate DistinctBatch(b: Batch) {
    DistinctRecords(Prefixes(b)) && DistinctRecords(b.keys)
  }

  /** A batch that names each record once changes everything or nothing. */
  lemma DistinctBatchRestores(t: Tables, b: Batch)
    requires DistinctBatch(b)
    ensures !Update(t, b).ok ==> Update(t, b).tables == t
  {
    UpdateAllOrNothing(t, b);
    DistinctIsOdd(AppliedPrefixes(t, b));
    DistinctIsOdd(AppliedKeys(t, b));
    hide OddOccurrences, Update;
  }

  /** In every table, for every record not in it: announced, withdrawn and withdrawn once
      more, which is refused. The undo leaves the record in. */
  lemma UndoneInTheWrongOrder(t: Tables, r: Record)
    requires r !in t.pfx
    ensures Update(t, Batch([Change(1, r), Change(0, r), Change(0, r)], [], [], [])) == Result(t.(pfx := t.pfx + {r}), false)
  {
    var on, off := Change(1, r), Change(0, r);
    var b := Batch([on, off, off], [], [], []);
    var s, with := t.pfx, t.pfx + {r};
    assert Prefixes(b) == [on, off, off];
    assert [on, off, off][1..] == [off, off] && [off, off][1..] == [off] && [on, off, off][..2] == [on, off] && [on, off][1..] == [off];
    assert Do(s, on) == with && Do(with, off) == s && Undo(s, on) == s && Undo(s, off) == with;
    assert AcceptedCount(s, [off]) == 0 && AcceptedCount(with, [off, off]) == 1;
    assert AcceptedCount(s, [on, off, off]) == 2;
    TwoChanges(s, on, off);
  }

  lemma TwoChanges<T>(s: set<T>, a: Change<T>, b: Change<T>)
    ensures DoAll(s, [a, b]) == Do(Do(s, a), b) && UndoAll(s, [a, b]) == Undo(Undo(s, a), b)
  {
    assert [a, b][1..] == [b] && [b][1..] == [];
    assert DoAll(Do(s, a), [b]) == Do(Do(s, a), b) && UndoAll(Undo(s, a), [b]) == Undo(Undo(s, a), b);
  }

  // ----- One socket's share -----

  function PfxOf(s: set<Record>, socket: nat): set<Record> {
    set r | r in s && r.socket == socket
  }

  function KeysOf(s: set<KeyEntry>, socket: nat): set<KeyEntry> {
    set e | e in s && e.socket == socket
  }

  function PfxBut(s: set<Record>, socket: nat): set<Record> {
    set r | r in s && r.socket != socket
  }

  function KeysBut(s: set<KeyEntry>, socket: nat): set<KeyEntry> {
    set e | e in s && e.socket != socket
  }

  /** The tables without the records of a socket. */
  function Purged(t: Tables, socket: nat): Tables {
    Tables(PfxBut(t.pfx, socket), KeysBut(t.keys, socket), [])
  }

  /** The batch holds records of this socket only, as the conversion of the PDUs makes sure. */
  ghost predicate OwnBatch(b: Batch, socket: nat) {
    && (forall c :: c in Prefixes(b) ==> c.record.socket == socket)
    && (forall c :: c in b.keys ==> c.record.socket == socket)
  }

  lemma {:induction false} DoAllOwnPfx(s: set<Record>, cs: seq<Change<Record>>, socket: nat)
    requires forall c :: c in cs ==> c.record.socket == socket
    ensures PfxBut(DoAll(s, cs), socket) == PfxBut(s, socket)
    ensures PfxBut(UndoAll(s, cs), socket) == PfxBut(s, socket)
    decreases |cs|
  {
    if cs != [] {
      assert cs[0] in cs;
      DoAllOwnPfx(Do(s, cs[0]), cs[1..], socket);
      DoAllOwnPfx(Undo(s, cs[0]), cs[1..], socket);
    }
  }

  lemma {:induction false} DoAllOwnKeys(s: set<KeyEntry>, cs: seq<Change<KeyEntry>>, socket: nat)
    requires forall c :: c in cs ==> c.record.socket == socket
    ensures KeysBut(DoAll(s, cs), socket) == KeysBut(s, socket)
    ensures KeysBut(UndoAll(s, cs), socket) == KeysBut(s, socket)
    decreases |cs|
  {
    if cs != [] {
      assert cs[0] in cs;
      DoAllOwnKeys(Do(s, cs[0]), cs[1..], socket);
      DoAllOwnKeys(Undo(s, cs[0]), cs[1..], socket);
    }
  }

  /** The socket's own changes act on its own share. */
  lemma {:induction false} OwnSharePfx(s: set<Record>, cs: seq<Change<Record>>, socket: nat)
    requires forall c :: c in cs ==> c.record.socket == socket
    ensures PfxOf(DoAll(s, cs), socket) == DoAll(PfxOf(s, socket), cs)
    ensures AcceptedCount(s, cs) == AcceptedCount(PfxOf(s, socket), cs)
    decreases |cs|
  {
    if cs != [] {
      assert cs[0] in cs;
      OwnSharePfx(Do(s, cs[0]), cs[1..], socket);
      assert PfxOf(Do(s, cs[0]), socket) == Do(PfxOf(s, socket), cs[0]);
    }
  }

  lemma {:induction false} OwnShareKeys(s: set<KeyEntry>, cs: seq<Change<KeyEntry>>, socket: nat)
    requires forall c :: c in cs ==> c.record.socket == socket
    ensures KeysOf(DoAll(s, cs), socket) == DoAll(KeysOf(s, socket), cs)
    ensures AcceptedCount(s, cs) == AcceptedCount(KeysOf(s, socket), cs)
    decreases |cs|
  {
    if cs != [] {
      assert cs[0] in cs;
      OwnShareKeys(Do(s, cs[0]), cs[1..], socket);
      assert KeysOf(Do(s, cs[0]), socket) == Do(KeysOf(s, socket), cs[0]);
    }
  }

  /** Whatever one cache sends, the records of the other sockets stay. */
  lemma OthersUntouched(t: Tables, b: Batch, socket: nat)
    requires OwnBatch(b, socket)
    ensures PfxBut(Update(t, b).tables.pfx, socket) == PfxBut(t.pfx, socket)
    ensures KeysBut(Update(t, b).tables.keys, socket) == KeysBut(t.keys, socket)
  {
    hide PfxBut, KeysBut, DoAll, UndoAll, AspaAccepts, AspaArray, AcceptedCount;
    var prefixes, n := Prefixes(b), AcceptedCount(t.pfx, Prefixes(b));
    var k := AcceptedCount(t.keys, b.keys);
    DoAllOwnPfx(t.pfx, prefixes[..n], socket);
    DoAllOwnPfx(DoAll(t.pfx, prefixes[..n]), prefixes[..n], socket);
    DoAllOwnKeys(t.keys, b.keys[..k], socket);
    DoAllOwnKeys(DoAll(t.keys, b.keys[..k]), b.keys[..k], socket);
    assert prefixes[..|prefixes|] == prefixes && b.keys[..|b.keys|] == b.keys;
  }

  // ----- Against the cache's data -----

  /** What a cache holds for this socket at one serial number. */
  datatype Data = Data(pfx: set<Record>, keys: set<KeyEntry>)

  ghost predicate HoldsData(t: Tables, socket: nat, d: Data) {
    PfxOf(t.pfx, socket) == d.pfx && KeysOf(t.keys, socket) == d.keys
  }

  ghost predicate OwnData(d: Data, socket: nat) {
    (forall r :: r in d.pfx ==> r.socket == socket) && (forall e :: e in d.keys ==> e.socket == socket)
  }

  /** The batch is the merged difference of two states of the cache. */
  ghost predicate Leads(b: Batch, d: Data, d': Data) {
    IsDelta(Prefixes(b), d.pfx, d'.pfx) && IsDelta(b.keys, d.keys, d'.keys)
  }

  /** A delta works as well on a table with other records beside the old data. */
  lemma {:induction false} DeltaBeside<T(!new)>(cs: seq<Change<T>>, s: set<T>, s': set<T>, others: set<T>)
    requires IsDelta(cs, s, s') && others !! s + s'
    ensures IsDelta(cs, s + others, s' + others)
  {
    assert (s + others) - (s' + others) == s - s';
    assert (s' + others) - (s + others) == s' - s;
  }

  lemma Shares(t: Tables, socket: nat)
    ensures t.pfx == PfxOf(t.pfx, socket) + PfxBut(t.pfx, socket)
    ensures t.keys == KeysOf(t.keys, socket) + KeysBut(t.keys, socket)
  {
  }

  /** An honest delta leaves the tables with the new data, or as they were. */
  lemma DeltaUpdates(t: Tables, b: Batch, socket: nat, d: Data, d': Data)
    requires HoldsData(t, socket, d) && OwnData(d, socket) && OwnData(d', socket) && Leads(b, d, d')
    ensures var r := Update(t, b);
            && (r.ok <==> AspaAccepts(t.aspa, b.aspa))
            && (r.ok ==> HoldsData(r.tables, socket, d'))
            && (!r.ok ==> r.tables == t)
  {
    hide Update, IsDelta, AspaAccepts;
    Shares(t, socket);
    var pfx, keys := PfxBut(t.pfx, socket), KeysBut(t.keys, socket);
    DeltaBeside(Prefixes(b), d.pfx, d'.pfx, pfx);
    DeltaBeside(b.keys, d.keys, d'.keys, keys);
    DeltaApplies(Prefixes(b), t.pfx, d'.pfx + pfx);
    DeltaApplies(b.keys, t.keys, d'.keys + keys);
    UpdateAllOrNothing(t, b);
    if !Update(t, b).ok { DeltaDistinct(b, d, d'); DistinctBatchRestores(t, b); }
  }

  lemma DeltaDistinct(b: Batch, d: Data, d': Data)
    requires Leads(b, d, d')
    ensures DistinctBatch(b)
  {
  }
}
