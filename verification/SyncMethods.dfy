/** rtr_sync_update_tables on the mutable tables: the loops over the stored PDUs, and the
    undoing after an error. */
module SyncMethods {
  import opened SyncUndo
  import opened SyncTables
  import opened Trie
  import opened LinearHashing
  import opened PfxTables
  import opened SpkiTables
  import opened AspaTable
  import opened AspaUpdate
  import opened AspaMerge
  import PfxTree

  ghost predicate Sendable(r: Record) {
    PfxTree.WellFormed(r, 32) || PfxTree.WellFormed(r, 128)
  }

  // ----- Batches in two parts -----

  lemma {:induction false} DoAllConcat<T>(s: set<T>, a: seq<Change<T>>, b: seq<Change<T>>)
    ensures DoAll(s, a + b) == DoAll(DoAll(s, a), b)
    ensures UndoAll(s, a + b) == UndoAll(UndoAll(s, a), b)
    decreases |a|
  {
    if a == [] {
      assert a + b == b;
    } else {
      assert (a + b)[1..] == a[1..] + b;
      DoAllConcat(Do(s, a[0]), a[1..], b);
      DoAllConcat(Undo(s, a[0]), a[1..], b);
    }
  }

  lemma {:induction false} AcceptedConcat<T>(s: set<T>, a: seq<Change<T>>, b: seq<Change<T>>)
    ensures AcceptedCount(s, a + b)
         == if AcceptedCount(s, a) < |a| then AcceptedCount(s, a) else |a| + AcceptedCount(DoAll(s, a), b)
    decreases |a|
  {
    if a == [] {
      assert a + b == b;
    } else {
      assert (a + b)[1..] == a[1..] + b;
      AcceptedConcat(Do(s, a[0]), a[1..], b);
    }
  }

  /** One more accepted change, or the end. */
  lemma AcceptedNext<T>(s: set<T>, cs: seq<Change<T>>, i: nat)
    requires i < |cs| && AllAccepted(s, cs[..i])
    ensures Applicable(DoAll(s, cs[..i]), cs[i]) ==> AllAccepted(s, cs[..i + 1])
    ensures !Applicable(DoAll(s, cs[..i]), cs[i]) ==> AcceptedCount(s, cs) == i
    ensures DoAll(s, cs[..i + 1]) == Do(DoAll(s, cs[..i]), cs[i])
  {
    assert cs[..i + 1] == cs[..i] + [cs[i]];
    assert cs == cs[..i] + cs[i..];
    AcceptedConcat(s, cs[..i], [cs[i]]);
    AcceptedConcat(s, cs[..i], cs[i..]);
    DoAllConcat(s, cs[..i], [cs[i]]);
  }

  lemma UndoNext<T>(s: set<T>, cs: seq<Change<T>>, i: nat)
    requires i < |cs|
    ensures UndoAll(s, cs[..i + 1]) == Undo(UndoAll(s, cs[..i]), cs[i])
  {
    assert cs[..i + 1] == cs[..i] + [cs[i]];
    DoAllConcat(s, cs[..i], [cs[i]]);
  }

  /** Accepted changes have flags 0 or 1. */
  lemma {:induction false} AcceptedFlags<T>(s: set<T>, cs: seq<Change<T>>)
    requires AllAccepted(s, cs)
    ensures forall c :: c in cs ==> c.flags <= 1
    decreases |cs|
  {
    if cs != [] { AcceptedFlags(Do(s, cs[0]), cs[1..]); }
  }

  // ----- The prefix table -----

  /** rtr_update_pfx_table. */
  method UpdatePfx(table: PfxTable, c: Change<Record>) returns (ok: bool)
    requires table.Valid() && Sendable(c.record)
    modifies table, table.Repr
    ensures table.Valid() && fresh(table.Repr - old(table.Repr)) && table.hasCallback == old(table.hasCallback)
    ensures ok == Applicable(old(table.Contents), c)
    ensures table.Contents == if ok then Do(old(table.Contents), c) else old(table.Contents)
    ensures ok <==> (c.flags == 1 && c.record !in old(table.Contents)) || (c.flags == 0 && c.record in old(table.Contents))
    ensures forall r :: r in table.Contents <==> if ok && r == c.record then c.flags == 1 else r in old(table.Contents)
  {
    hide PfxTable.Valid;
    if c.flags == 1 {
      var st := table.Add(c.record);
      ok := st.Success?;
    } else if c.flags == 0 {
      var st := table.Remove(c.record);
      ok := st.Success?;
    } else {
      ok := false;
    }
  }

  /** rtr_undo_update_pfx_table. */
  method UndoPfx(table: PfxTable, c: Change<Record>)
    requires table.Valid() && Sendable(c.record) && c.flags <= 1
    modifies table, table.Repr
    ensures table.Valid() && fresh(table.Repr - old(table.Repr)) && table.hasCallback == old(table.hasCallback)
    ensures table.Contents == Undo(old(table.Contents), c)
    ensures forall r :: r in table.Contents <==> if r == c.record then c.flags == 0 else r in old(table.Contents)
  {
    hide PfxTable.Valid;
    if c.flags == 1 {
      var _ := table.Remove(c.record);
    } else {
      var _ := table.Add(c.record);
    }
  }

  method ApplyPfx(table: PfxTable, cs: seq<Change<Record>>) returns (n: nat)
    requires table.Valid() && forall c :: c in cs ==> Sendable(c.record)
    modifies table, table.Repr
    ensures table.Valid() && fresh(table.Repr - old(table.Repr)) && table.hasCallback == old(table.hasCallback)
    ensures n == AcceptedCount(old(table.Contents), cs) && n <= |cs|
    ensures table.Contents == DoAll(old(table.Contents), cs[..n])
  {
    hide PfxTable.Valid;
    ghost var s := table.Contents;
    n := 0;
    while n < |cs|
      invariant n <= |cs| && table.Valid() && fresh(table.Repr - old(table.Repr)) && table.hasCallback == old(table.hasCallback)
      invariant AllAccepted(s, cs[..n]) && table.Contents == DoAll(s, cs[..n])
    {
      hide AcceptedCount, DoAll;
      AcceptedNext(s, cs, n);
      var ok := UpdatePfx(table, cs[n]);
      if !ok { return; }
      n := n + 1;
    }
    assert cs[..n] == cs;
  }

  /** rtr_undo_update_pfx_table_batch, one version. */
  method UndoPfxBatch(table: PfxTable, cs: seq<Change<Record>>)
    requires table.Valid() && forall c :: c in cs ==> Sendable(c.record) && c.flags <= 1
    modifies table, table.Repr
    ensures table.Valid() && fresh(table.Repr - old(table.Repr)) && table.hasCallback == old(table.hasCallback)
    ensures table.Contents == UndoAll(old(table.Contents), cs)
  {
    hide PfxTable.Valid;
    ghost var s := table.Contents;
    for i := 0 to |cs|
      invariant table.Valid() && fresh(table.Repr - old(table.Repr)) && table.hasCallback == old(table.hasCallback)
      invariant table.Contents == UndoAll(s, cs[..i])
    {
      hide UndoAll;
      UndoNext(s, cs, i);
      UndoPfx(table, cs[i]);
    }
    assert cs[..|cs|] == cs;
  }

  /** The loops over the IPv4 and then the IPv6 PDUs, with the undoing after an error. */
  method UpdatePrefixes(table: PfxTable, b: Batch) returns (ok: bool)
    requires table.Valid() && forall c :: c in Prefixes(b) ==> Sendable(c.record)
    modifies table, table.Repr
    ensures table.Valid() && fresh(table.Repr - old(table.Repr)) && table.hasCallback == old(table.hasCallback)
    ensures var s := old(table.Contents); var cs := Prefixes(b); var n := AcceptedCount(s, cs);
            && ok == (n == |cs|)
            && table.Contents == if ok then DoAll(s, cs) else TakenBack(s, cs[..n])
  {
    hide PfxTable.Valid, AcceptedCount, DoAll, UndoAll;
    ghost var s, cs := table.Contents, Prefixes(b);
    AcceptedConcat(s, b.v4, b.v6);
    PrefixAccepted(s, cs);
    ghost var total := AcceptedCount(s, cs);
    AcceptedFlags(s, cs[..total]);
    assert forall c :: c in b.v4 || c in b.v6 ==> c in cs;
    var n := ApplyPfx(table, b.v4);
    if n < |b.v4| {
      assert cs[..n] == b.v4[..n];
      UndoPfxBatch(table, b.v4[..n]);
      return false;
    }
    assert b.v4[..n] == b.v4;
    var m := ApplyPfx(table, b.v6);
    DoAllConcat(s, b.v4, b.v6[..m]);
    assert cs[..total] == b.v4 + b.v6[..m];
    if m < |b.v6| {
      ghost var done := table.Contents;
      UndoPfxBatch(table, b.v4);
      UndoPfxBatch(table, b.v6[..m]);
      DoAllConcat(done, b.v4, b.v6[..m]);
      return false;
    }
    assert cs[..total] == cs;
    return true;
  }

  // ----- The router key table -----

  function KeySet(s: seq<KeyEntry>): set<KeyEntry> {
    set e | e in s
  }

  /** rtr_update_spki_table. */
  method UpdateKey(table: SpkiTable, c: Change<KeyEntry>) returns (ok: bool)
    requires table.Valid() && |table.list| + 1 < COUNT_LIMIT
    modifies table, table.hashtable
    ensures table.Valid() && table.hashtable == old(table.hashtable) && table.hasCallback == old(table.hasCallback)
    ensures |table.list| <= |old(table.list)| + if ok then 1 else 0
    ensures ok == Applicable(KeySet(old(table.list)), c)
    ensures KeySet(table.list) == if ok then Do(KeySet(old(table.list)), c) else KeySet(old(table.list))
    ensures ok <==> (c.flags == 1 && c.record !in old(table.list)) || (c.flags == 0 && c.record in old(table.list))
    ensures forall e :: e in table.list <==> if ok && e == c.record then c.flags == 1 else e in old(table.list)
  {
    hide SpkiTable.Valid;
    if c.flags == 1 {
      var st := table.Add(c.record);
      ok := st.Success?;
    } else if c.flags == 0 {
      var st := table.Remove(c.record);
      ok := st.Success?;
    } else {
      ok := false;
    }
  }

  /** rtr_undo_update_spki_table. */
  method UndoKey(table: SpkiTable, c: Change<KeyEntry>)
    requires table.Valid() && |table.list| + 1 < COUNT_LIMIT && c.flags <= 1
    modifies table, table.hashtable
    ensures table.Valid() && table.hashtable == old(table.hashtable) && table.hasCallback == old(table.hasCallback)
    ensures |table.list| <= |old(table.list)| + 1
    ensures KeySet(table.list) == Undo(KeySet(old(table.list)), c)
    ensures forall e :: e in table.list <==> if e == c.record then c.flags == 0 else e in old(table.list)
  {
    hide SpkiTable.Valid;
    if c.flags == 1 {
      var _ := table.Remove(c.record);
    } else {
      var _ := table.Add(c.record);
    }
  }

  method ApplyKeys(table: SpkiTable, cs: seq<Change<KeyEntry>>) returns (n: nat)
    requires table.Valid() && |table.list| + |cs| < COUNT_LIMIT
    modifies table, table.hashtable
    ensures table.Valid() && table.hashtable == old(table.hashtable) && table.hasCallback == old(table.hasCallback)
    ensures n == AcceptedCount(KeySet(old(table.list)), cs) && n <= |cs| && |table.list| <= |old(table.list)| + n
    ensures KeySet(table.list) == DoAll(KeySet(old(table.list)), cs[..n])
  {
    hide SpkiTable.Valid, KeySet;
    ghost var s := KeySet(table.list);
    n := 0;
    while n < |cs|
      invariant n <= |cs| && table.Valid() && table.hashtable == old(table.hashtable) && table.hasCallback == old(table.hasCallback)
      invariant AllAccepted(s, cs[..n]) && KeySet(table.list) == DoAll(s, cs[..n])
      invariant |table.list| <= |old(table.list)| + n
    {
      hide AcceptedCount, DoAll;
      AcceptedNext(s, cs, n);
      var ok := UpdateKey(table, cs[n]);
      if !ok { return; }
      n := n + 1;
    }
    assert cs[..n] == cs;
  }

  /** rtr_undo_update_spki_table_batch. */
  method UndoKeys(table: SpkiTable, cs: seq<Change<KeyEntry>>)
    requires table.Valid() && |table.list| + |cs| < COUNT_LIMIT && forall c :: c in cs ==> c.flags <= 1
    modifies table, table.hashtable
    ensures table.Valid() && table.hashtable == old(table.hashtable) && table.hasCallback == old(table.hasCallback)
    ensures KeySet(table.list) == UndoAll(KeySet(old(table.list)), cs)
  {
    hide SpkiTable.Valid, KeySet;
    ghost var s := KeySet(table.list);
    for i := 0 to |cs|
      invariant table.Valid() && table.hashtable == old(table.hashtable) && table.hasCallback == old(table.hasCallback)
      invariant |table.list| <= |old(table.list)| + i
      invariant KeySet(table.list) == UndoAll(s, cs[..i])
    {
      hide UndoAll;
      UndoNext(s, cs, i);
      UndoKey(table, cs[i]);
    }
    assert cs[..|cs|] == cs;
  }

  // ----- All three -----

  ghost function Current(pfx: PfxTable, spki: SpkiTable, aspa: seq<AspaRecord>): Tables
    reads pfx, spki
  {
    Tables(pfx.Contents, KeySet(spki.list), aspa)
  }

  /** rtr_compute_update_aspa_table. */
  method ComputeAspa(arr: seq<AspaRecord>, ops: seq<Op>) returns (ok: bool, arr': seq<AspaRecord>)
    ensures ok == AspaAccepts(arr, ops)
    ensures arr' == if ok then AspaArray(arr, ops) else arr
  {
    if |ops| == 0 { return true, arr; }
    for i := 0 to |ops|
      invariant forall j :: 0 <= j < i ==> !(ops[j].add && ops[j].providers == [])
    {
      if ops[i].add && ops[i].providers == [] { return false, arr; }
    }
    var r := Compute(arr, SortOps(ops));
    match r
    case Done(result, _) => return true, result;
    case Failed(_, _) => return false, arr;
  }

  /** rtr_sync_update_tables. */
  method UpdateTables(pfx: PfxTable, spki: SpkiTable, aspa: seq<AspaRecord>, b: Batch)
    returns (ok: bool, aspa': seq<AspaRecord>)
    requires pfx.Valid() && spki.Valid() && forall c :: c in Prefixes(b) ==> Sendable(c.record)
    requires |spki.list| + 2 * |b.keys| < COUNT_LIMIT
    modifies pfx, pfx.Repr, spki, spki.hashtable
    ensures pfx.Valid() && fresh(pfx.Repr - old(pfx.Repr)) && pfx.hasCallback == old(pfx.hasCallback)
    ensures spki.Valid() && spki.hashtable == old(spki.hashtable) && spki.hasCallback == old(spki.hasCallback)
    ensures Result(Current(pfx, spki, aspa'), ok) == Update(old(Current(pfx, spki, aspa)), b)
  {
    hide PfxTable.Valid, SpkiTable.Valid, AcceptedCount, DoAll, UndoAll, AspaAccepts, AspaArray, KeySet;
    ghost var t := Current(pfx, spki, aspa);
    aspa' := aspa;
    ghost var cs := Prefixes(b);
    PrefixAccepted(t.pfx, cs);
    PrefixAccepted(t.keys, b.keys);
    ok := UpdatePrefixes(pfx, b);
    spki.Same();
    if !ok { return; }
    assert cs[..|cs|] == cs;
    AcceptedFlags(t.pfx, cs);
    label prefixes: var n := ApplyKeys(spki, b.keys);
    AcceptedFlags(t.keys, b.keys[..n]);
    pfx.Same@prefixes();
    if n == |b.keys| {
      assert b.keys[..n] == b.keys;
      ok, aspa' := ComputeAspa(aspa, b.aspa);
    } else {
      ok := false;
    }
    if !ok {
      UndoKeys(spki, b.keys[..n]);
      pfx.Same@prefixes();
      label keys: UndoPfxBatch(pfx, b.v4);
      UndoPfxBatch(pfx, b.v6);
      spki.Same@keys();
      DoAllConcat(DoAll(t.pfx, cs), b.v4, b.v6);
    }
  }
}
