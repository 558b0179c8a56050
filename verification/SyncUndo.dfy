/** Applying the PDUs of a synchronisation to a table, and taking them back after an error
    (rtrlib/rtr/packets.c). The inverses are replayed in the order of the PDUs, not in
    reverse. */
module SyncUndo {

  /** A prefix or router key PDU: flags 1 announces, 0 withdraws, anything else is refused. */
  datatype Change<T> = Change(flags: nat, record: T)

  /** Whether rtr_update_pfx_table or rtr_update_spki_table succeeds. */
  predicate Applicable<T(==)>(s: set<T>, c: Change<T>) {
    (c.flags == 1 && c.record !in s) || (c.flags == 0 && c.record in s)
  }

  function Do<T(==)>(s: set<T>, c: Change<T>): set<T> {
    if c.flags == 1 then s + {c.record} else s - {c.record}
  }

  /** rtr_undo_update_pfx_table, whose duplicate and not-found results are ignored. */
  function Undo<T(==)>(s: set<T>, c: Change<T>): set<T> {
    if c.flags == 1 then s - {c.record} else s + {c.record}
  }

  function DoAll<T(==)>(s: set<T>, cs: seq<Change<T>>): set<T>
    decreases |cs|
  {
    if cs == [] then s else DoAll(Do(s, cs[0]), cs[1..])
  }

  /** Forward order, as rtr_undo_update_pfx_table_batch does it. */
  function UndoAll<T(==)>(s: set<T>, cs: seq<Change<T>>): set<T>
    decreases |cs|
  {
    if cs == [] then s else UndoAll(Undo(s, cs[0]), cs[1..])
  }

  /** How many changes are accepted one after another. */
  function AcceptedCount<T(==)>(s: set<T>, cs: seq<Change<T>>): (n: nat)
    ensures n <= |cs|
    decreases |cs|
  {
    if cs == [] || !Applicable(s, cs[0]) then 0 else 1 + AcceptedCount(Do(s, cs[0]), cs[1..])
  }

  ghost predicate AllAccepted<T>(s: set<T>, cs: seq<Change<T>>) {
    AcceptedCount(s, cs) == |cs|
  }

  /** The accepted changes of a batch are accepted on their own. */
  lemma {:induction false} PrefixAccepted<T>(s: set<T>, cs: seq<Change<T>>)
    ensures AllAccepted(s, cs[..AcceptedCount(s, cs)])
    decreases |cs|
  {
    var n := AcceptedCount(s, cs);
    if n > 0 {
      PrefixAccepted(Do(s, cs[0]), cs[1..]);
      assert cs[..n][1..] == cs[1..][..n - 1];
    }
  }

  /** How often a record occurs in a batch. */
  function Occurrences<T(==)>(cs: seq<Change<T>>, r: T): nat {
    if cs == [] then 0 else (if cs[0].record == r then 1 else 0) + Occurrences(cs[1..], r)
  }

  /** Each accepted change of a record turns its presence around. */
  lemma {:induction false} Toggles<T>(s: set<T>, cs: seq<Change<T>>, r: T)
    requires AllAccepted(s, cs)
    ensures r in DoAll(s, cs) <==> (r in s) != (Occurrences(cs, r) % 2 == 1)
    decreases |cs|
  {
    if cs != [] { Toggles(Do(s, cs[0]), cs[1..], r); }
  }

  /** The last inverse of a record decides, so it undoes the last change only. */
  lemma {:induction false} LastInverseWins<T>(s: set<T>, x: set<T>, cs: seq<Change<T>>, r: T)
    ensures Occurrences(cs, r) > 0 ==> (r in UndoAll(x, cs) <==> r !in DoAll(s, cs))
    ensures Occurrences(cs, r) == 0 ==> (r in UndoAll(x, cs) <==> r in x)
    ensures Occurrences(cs, r) == 0 ==> (r in DoAll(s, cs) <==> r in s)
    decreases |cs|
  {
    if cs != [] {
      LastInverseWins(Do(s, cs[0]), Undo(x, cs[0]), cs[1..], r);
    }
  }

  lemma UndoneAt<T>(s: set<T>, cs: seq<Change<T>>, r: T)
    requires AllAccepted(s, cs)
    ensures var n := Occurrences(cs, r);
            (r in UndoAll(DoAll(s, cs), cs) <==> r in s) <==> (n == 0 || n % 2 == 1)
  {
    Toggles(s, cs, r);
    LastInverseWins(s, DoAll(s, cs), cs, r);
  }

  /** Every record of the batch occurs an odd number of times. */
  ghost predicate OddOccurrences<T(!new)>(cs: seq<Change<T>>) {
    forall r :: Occurrences(cs, r) == 0 || Occurrences(cs, r) % 2 == 1
  }

  /** Main result: undoing an accepted batch restores the table if and only if every record
      occurs in it an odd number of times. */
  lemma UndoRestoresIff<T(!new)>(s: set<T>, cs: seq<Change<T>>)
    requires AllAccepted(s, cs)
    ensures UndoAll(DoAll(s, cs), cs) == s <==> OddOccurrences(cs)
  {
    var u := UndoAll(DoAll(s, cs), cs);
    if OddOccurrences(cs) {
      forall r ensures r in u <==> r in s { UndoneAt(s, cs, r); }
    } else {
      var r :| !(Occurrences(cs, r) == 0 || Occurrences(cs, r) % 2 == 1);
      UndoneAt(s, cs, r);
    }
  }

  ghost predicate DistinctRecords<T>(cs: seq<Change<T>>) {
    forall i, j :: 0 <= i < j < |cs| ==> cs[i].record != cs[j].record
  }

  lemma {:induction false} OccursWhere<T>(cs: seq<Change<T>>, r: T)
    ensures Occurrences(cs, r) > 0 <==> exists i :: 0 <= i < |cs| && cs[i].record == r
  {
    if cs != [] {
      OccursWhere(cs[1..], r);
      if i :| 0 <= i < |cs| && cs[i].record == r {
        if i > 0 { assert cs[1..][i - 1].record == r; }
      }
    }
  }

  /** A batch that names each record once can always be undone. */
  lemma {:induction false} DistinctIsOdd<T(!new)>(cs: seq<Change<T>>)
    requires DistinctRecords(cs)
    ensures OddOccurrences(cs)
  {
    forall r ensures Occurrences(cs, r) <= 1 { AtMostOnce(cs, r); }
  }

  lemma {:induction false} AtMostOnce<T>(cs: seq<Change<T>>, r: T)
    requires DistinctRecords(cs)
    ensures Occurrences(cs, r) <= 1
  {
    if cs != [] {
      AtMostOnce(cs[1..], r);
      OccursWhere(cs[1..], r);
      if i :| 0 <= i < |cs[1..]| && cs[1..][i].record == r { assert cs[0].record != cs[i + 1].record; }
    }
  }

  /** An honest delta between two sets: each record once, announced or withdrawn as needed. */
  ghost predicate IsDelta<T(!new)>(cs: seq<Change<T>>, s: set<T>, s': set<T>) {
    && DistinctRecords(cs)
    && (forall c :: c in cs ==> (c.flags == 1 && c.record in s' - s) || (c.flags == 0 && c.record in s - s'))
    && (forall r :: r in (s - s') + (s' - s) ==> Occurrences(cs, r) > 0)
  }

  /** It is accepted whole and leads from the one to the other. */
  lemma {:induction false} DeltaApplies<T(!new)>(cs: seq<Change<T>>, s: set<T>, s': set<T>)
    requires IsDelta(cs, s, s')
    ensures AllAccepted(s, cs) && DoAll(s, cs) == s'
  {
    if cs == [] {
      forall r ensures r in s <==> r in s' {
        assert r !in (s - s') + (s' - s);
      }
      assert s == s';
    } else {
      var c, next := cs[0], Do(s, cs[0]);
      assert c in cs;
      forall x | x in cs[1..]
        ensures (x.flags == 1 && x.record in s' - next) || (x.flags == 0 && x.record in next - s')
      {
        var i :| 1 <= i < |cs| && cs[i] == x;
        assert cs[0].record != cs[i].record;
      }
      forall r | r in (next - s') + (s' - next) ensures Occurrences(cs[1..], r) > 0 {
        assert r in (s - s') + (s' - s);
      }
      DeltaApplies(cs[1..], next, s');
    }
  }
}
