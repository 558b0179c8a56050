/** The atomic reset on the mutable tables (rtrlib/rtr/packets.c): shadow tables are filled,
    updated, swapped in and compared with the old ones. */
module ResetMethods {
  import opened SyncUndo
  import opened SyncTables
  import opened SyncMethods
  import opened RtrSync
  import opened Trie
  import opened LinearHashing
  import opened PfxTables
  import opened SpkiTables
  import opened AspaTable
  import opened AspaUpdate
  import PfxTree
  import PfxReset
  import SpkiReset

  /** The shadow tables: the other sockets' records, and no ASPA records. */
  method MakeShadow(pfx: PfxTable, spki: SpkiTable, me: nat, ghost aspa: seq<AspaRecord>)
    returns (pfx': PfxTable, spki': SpkiTable)
    requires pfx.Valid() && spki.Valid() && 2 * |spki.list| + 1 < COUNT_LIMIT
    ensures pfx'.Valid() && fresh(pfx') && fresh(pfx'.Repr) && !pfx'.hasCallback
    ensures spki'.Valid() && fresh(spki') && fresh(spki'.hashtable) && !spki'.hasCallback && spki'.hashOf == spki.hashOf
    ensures |spki'.list| <= |spki.list|
    ensures Current(pfx', spki', []) == Purged(Current(pfx, spki, aspa), me)
  {
    hide PfxTable.Valid, SpkiTable.Valid, Filter;
    pfx' := new PfxTable(false);
    pfx.Same();
    var _ := PfxReset.CopyExceptSocket(pfx, pfx', me);
    spki' := new SpkiTable(spki.hashOf, false);
    spki.Same();
    label copied: var _ := SpkiReset.CopyExceptSocket(spki, spki', me);
    pfx'.Same@copied();
    FilterMembers(spki.list, NotFrom(me));
    FilterShorter(spki.list, NotFrom(me));
  }

  lemma {:induction false} FilterShorter(s: seq<KeyEntry>, p: KeyEntry -> bool)
    ensures |Filter(s, p)| <= |s|
  {
    if s != [] { FilterShorter(s[1..], p); }
  }

  /** The notifications of a table after the swap: what the socket gained and what it lost,
      each record once. */
  ghost predicate PfxDiff(added: seq<Record>, removed: seq<Record>, was: set<Record>, now: set<Record>, me: nat) {
    && Trie.Distinct(added) && PfxTree.Elements(added) == PfxOf(now, me) - PfxOf(was, me)
    && Trie.Distinct(removed) && PfxTree.Elements(removed) == PfxOf(was, me) - PfxOf(now, me)
  }

  /** Swapping the shadow in and notifying the difference. */
  method SwapPfx(pfx: PfxTable, shadow: PfxTable, me: nat) returns (ghost added: seq<Record>, ghost removed: seq<Record>)
    requires pfx.Valid() && shadow.Valid() && pfx != shadow && pfx.Repr !! shadow.Repr
    modifies pfx, pfx.Repr, shadow
    ensures pfx.Valid() && pfx.Repr == old(shadow.Repr) && pfx.hasCallback == old(pfx.hasCallback)
    ensures pfx.Contents == old(shadow.Contents)
    ensures pfx.hasCallback ==> PfxDiff(added, removed, old(pfx.Contents), pfx.Contents, me)
    ensures pfx.log == old(pfx.log) + if pfx.hasCallback then NotifyAll(added, true) + NotifyAll(removed, false) else []
  {
    hide PfxTable.Valid;
    PfxReset.Swap(pfx, shadow);
    if pfx.hasCallback {
      added, removed := PfxReset.NotifyDiff(pfx, shadow, me);
      DiffSets(added, removed, old(pfx.Contents), old(shadow.Contents), me);
    } else {
      added, removed := [], [];
    }
  }

  lemma DiffSets(added: seq<Record>, removed: seq<Record>, was: set<Record>, now: set<Record>, me: nat)
    requires Trie.Distinct(added) && PfxTree.Elements(added) == PfxTree.OfSocket(now, me) - PfxTree.OfSocket(was, me)
    requires Trie.Distinct(removed) && PfxTree.Elements(removed) == PfxTree.OfSocket(was, me) - PfxTree.OfSocket(now, me)
    ensures PfxDiff(added, removed, was, now, me)
  {
  }

  method SwapSpki(spki: SpkiTable, shadow: SpkiTable, me: nat)
    requires spki.Valid() && shadow.Valid() && spki != shadow && spki.hashtable != shadow.hashtable && spki.hashOf == shadow.hashOf
    modifies spki, spki.hashtable, shadow
    ensures spki.Valid() && spki.hashtable == old(shadow.hashtable) && spki.hasCallback == old(spki.hasCallback)
    ensures spki.list == old(shadow.list)
    ensures spki.log == old(spki.log) +
              if spki.hasCallback
              then Notes(Filter(spki.list, NewFrom(me, old(spki.list))), true)
                 + Notes(Filter(old(spki.list), NewFrom(me, spki.list)), false)
              else []
  {
    SpkiReset.Swap(spki, shadow);
    hide SpkiTable.Valid, Filter;
    if spki.hasCallback {
      SpkiReset.NotifyDiff(spki, shadow, me);
    }
  }

  /** The whole reset. */
  method ResetAll(pfx: PfxTable, spki: SpkiTable, aspa: seq<AspaRecord>, b: Batch, me: nat)
    returns (ok: bool, aspa': seq<AspaRecord>, ghost added: seq<Record>, ghost removed: seq<Record>)
    requires pfx.Valid() && spki.Valid() && forall c :: c in Prefixes(b) ==> Sendable(c.record)
    requires 2 * |spki.list| + 2 * |b.keys| + 1 < COUNT_LIMIT
    modifies pfx, pfx.Repr, spki, spki.hashtable
    ensures pfx.Valid() && fresh(pfx.Repr - old(pfx.Repr)) && pfx.hasCallback == old(pfx.hasCallback)
    ensures spki.Valid() && (fresh(spki.hashtable) || spki.hashtable == old(spki.hashtable))
    ensures Result(Current(pfx, spki, aspa'), ok) == ResetTables(old(Current(pfx, spki, aspa)), b, me)
    ensures ok && pfx.hasCallback ==> PfxDiff(added, removed, old(pfx.Contents), pfx.Contents, me)
    ensures pfx.log == old(pfx.log) +
              if ok && pfx.hasCallback then NotifyAll(added, true) + NotifyAll(removed, false) else []
    ensures spki.log == old(spki.log) +
              if ok && spki.hasCallback
              then Notes(Filter(spki.list, NewFrom(me, old(spki.list))), true)
                 + Notes(Filter(old(spki.list), NewFrom(me, spki.list)), false)
              else []
  {
    hide PfxTable.Valid, SpkiTable.Valid, Filter, Update, KeySet;
    var pfx', spki' := MakeShadow(pfx, spki, me, aspa);
    pfx.Same();
    spki.Same();
    aspa' := aspa;
    added, removed := [], [];
    var arr;
    ok, arr := UpdateTables(pfx', spki', [], b);
    pfx.Same();
    spki.Same();
    if ok {
      label updated: added, removed := SwapPfx(pfx, pfx', me);
      spki.Same@updated();
      spki'.Same@updated();
      label swapped: SwapSpki(spki, spki', me);
      pfx.Same@swapped();
      if |b.aspa| > 0 { aspa' := arr; }
    }
  }
}
