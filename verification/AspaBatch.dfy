/** What a batch of ASPA operations does, said customer by customer: which batches are
    accepted, what an error names, and what is stored afterwards (rtrlib/aspa/aspa.c). */
module AspaBatch {
  import opened AspaTable
  import opened AspaUpdate
  import opened AspaMerge
  import SyncTables

  /** The `k`-th operation on a customer fits the one before it: announcements and withdrawals
      take turns, and a withdrawal comes first only for a customer that has a record. */
  predicate InTurn(m: Providers, announced: set<nat>, mine: seq<Op>, k: nat)
    requires k < |mine|
  {
    var o := mine[k];
    if k > 0 then o.add != mine[k - 1].add else if o.add then o.customer !in announced else o.customer in m
  }

  ghost predicate TakesTurns(m: Providers, announced: set<nat>, mine: seq<Op>) {
    forall k :: 0 <= k < |mine| ==> InTurn(m, announced, mine, k)
  }

  lemma OfFirst(ops: seq<Op>, c: nat)
    requires ops != []
    ensures Of(ops, c) == if ops[0].customer == c then [ops[0]] + Of(ops[1..], c) else Of(ops[1..], c)
  {
  }

  lemma {:induction false} OfSame(ops: seq<Op>, c: nat)
    ensures forall k :: 0 <= k < |Of(ops, c)| ==> Of(ops, c)[k].customer == c
  {
    if ops != [] { OfSame(ops[1..], c); }
  }

  /** After an accepted operation, the later ones on the same customer go on from it. */
  lemma TurnsFirst(m: Providers, announced: set<nat>, o: Op, rest: seq<Op>)
    requires Accepts(m, announced, o) && forall k :: 0 <= k < |rest| ==> rest[k].customer == o.customer
    ensures TakesTurns(m, announced, [o] + rest) <==> TakesTurns(Apply(m, o), Announce(announced, o), rest)
    ensures forall k :: 0 <= k < |rest| ==>
              (InTurn(m, announced, [o] + rest, k + 1) <==> InTurn(Apply(m, o), Announce(announced, o), rest, k))
  {
    hide SortAsns;
    var all := [o] + rest;
    assert forall k :: 0 <= k < |rest| ==> all[k + 1] == rest[k];
    forall k | 0 <= k < |rest|
      ensures InTurn(m, announced, all, k + 1) <==> InTurn(Apply(m, o), Announce(announced, o), rest, k)
    {
    }
    if TakesTurns(Apply(m, o), Announce(announced, o), rest) {
      forall k | 0 <= k < |all| ensures InTurn(m, announced, all, k) {
        if k > 0 { assert InTurn(Apply(m, o), Announce(announced, o), rest, k - 1); }
      }
    } else {
      var k :| 0 <= k < |rest| && !InTurn(Apply(m, o), Announce(announced, o), rest, k);
      assert !InTurn(m, announced, all, k + 1);
    }
  }

  /** An operation on one customer leaves the others' turns as they are. */
  lemma TurnsOther(m: Providers, announced: set<nat>, o: Op, mine: seq<Op>)
    requires forall k :: 0 <= k < |mine| ==> mine[k].customer != o.customer
    ensures TakesTurns(m, announced, mine) <==> TakesTurns(Apply(m, o), Announce(announced, o), mine)
    ensures forall k :: 0 <= k < |mine| ==>
              (InTurn(m, announced, mine, k) <==> InTurn(Apply(m, o), Announce(announced, o), mine, k))
  {
    hide SortAsns;
    forall k | 0 <= k < |mine|
      ensures InTurn(m, announced, mine, k) <==> InTurn(Apply(m, o), Announce(announced, o), mine, k)
    {
    }
  }

  lemma TurnsStep(m: Providers, announced: set<nat>, ops: seq<Op>, c: nat)
    requires ops != [] && Accepts(m, announced, ops[0])
    ensures TakesTurns(m, announced, Of(ops, c))
       <==> TakesTurns(Apply(m, ops[0]), Announce(announced, ops[0]), Of(ops[1..], c))
  {
    hide TakesTurns, Of;
    OfFirst(ops, c);
    OfSame(ops[1..], c);
    if ops[0].customer == c {
      TurnsFirst(m, announced, ops[0], Of(ops[1..], c));
    } else {
      TurnsOther(m, announced, ops[0], Of(ops[1..], c));
    }
  }

  ghost predicate AllTakeTurns(m: Providers, announced: set<nat>, ops: seq<Op>) {
    forall c :: TakesTurns(m, announced, Of(ops, c))
  }

  lemma AllStep(m: Providers, announced: set<nat>, ops: seq<Op>)
    requires ops != [] && Accepts(m, announced, ops[0])
    ensures AllTakeTurns(m, announced, ops) <==> AllTakeTurns(Apply(m, ops[0]), Announce(announced, ops[0]), ops[1..])
  {
    hide Of, TakesTurns, Apply, Announce, Accepts;
    var m', announced', rest := Apply(m, ops[0]), Announce(announced, ops[0]), ops[1..];
    if AllTakeTurns(m, announced, ops) {
      forall c ensures TakesTurns(m', announced', Of(rest, c)) { TurnsStep(m, announced, ops, c); }
    }
    if AllTakeTurns(m', announced', rest) {
      forall c ensures TakesTurns(m, announced, Of(ops, c)) { TurnsStep(m, announced, ops, c); }
    }
  }

  /** The operation that breaks the turns. */
  predicate BreaksTurns(m: Providers, announced: set<nat>, mine: seq<Op>, k: nat, o: Op) {
    k < |mine| && mine[k] == o && !InTurn(m, announced, mine, k)
  }

  ghost predicate OutOfTurn(m: Providers, announced: set<nat>, ops: seq<Op>, o: Op) {
    exists k :: BreaksTurns(m, announced, Of(ops, o.customer), k, o)
  }

  lemma BreaksLater(m: Providers, announced: set<nat>, h: Op, rest: seq<Op>, k: nat, o: Op)
    requires Accepts(m, announced, h) && forall i :: 0 <= i < |rest| ==> rest[i].customer == o.customer
    requires BreaksTurns(Apply(m, h), Announce(announced, h), rest, k, o)
    ensures if h.customer == o.customer then BreaksTurns(m, announced, [h] + rest, k + 1, o)
            else BreaksTurns(m, announced, rest, k, o)
  {
    if h.customer == o.customer {
      TurnsFirst(m, announced, h, rest);
    } else {
      TurnsOther(m, announced, h, rest);
    }
  }

  lemma OutOfTurnLater(m: Providers, announced: set<nat>, ops: seq<Op>, o: Op)
    requires ops != [] && Accepts(m, announced, ops[0])
    requires OutOfTurn(Apply(m, ops[0]), Announce(announced, ops[0]), ops[1..], o)
    ensures OutOfTurn(m, announced, ops, o)
  {
    hide Of, BreaksTurns, Apply, Announce, Accepts;
    var h, rest := ops[0], Of(ops[1..], o.customer);
    OfFirst(ops, o.customer);
    OfSame(ops[1..], o.customer);
    var k :| BreaksTurns(Apply(m, h), Announce(announced, h), rest, k, o);
    BreaksLater(m, announced, h, rest, k, o);
  }

  /** Applying the operations one by one succeeds if and only if every customer's operations
      take turns. An error names an operation out of turn: an announcement as a duplicate, a
      withdrawal as not found. */
  lemma {:induction false} FoldTakesTurns(m: Providers, announced: set<nat>, ops: seq<Op>)
    ensures var f := Fold(m, announced, ops);
            && (f.Ok? <==> AllTakeTurns(m, announced, ops))
            && (f.Err? ==> f.status == (if f.op.add then DuplicateRecord else RecordNotFound) && OutOfTurn(m, announced, ops, f.op))
    decreases |ops|
  {
    hide AllTakeTurns, OutOfTurn, Apply, Announce;
    if ops == [] {
      NoTurns(m, announced);
    } else if Accepts(m, announced, ops[0]) {
      FoldTakesTurns(Apply(m, ops[0]), Announce(announced, ops[0]), ops[1..]);
      AllStep(m, announced, ops);
      var f := Fold(m, announced, ops);
      if f.Err? { OutOfTurnLater(m, announced, ops, f.op); }
    } else {
      FirstRefused(m, announced, ops);
    }
  }

  lemma NoTurns(m: Providers, announced: set<nat>)
    ensures AllTakeTurns(m, announced, [])
  {
  }

  lemma FirstRefused(m: Providers, announced: set<nat>, ops: seq<Op>)
    requires ops != [] && !Accepts(m, announced, ops[0])
    ensures OutOfTurn(m, announced, ops, ops[0]) && !AllTakeTurns(m, announced, ops)
  {
    hide Of;
    OfFirst(ops, ops[0].customer);
    assert Of(ops, ops[0].customer)[0] == ops[0];
    assert BreaksTurns(m, announced, Of(ops, ops[0].customer), 0, ops[0]);
  }

  /** The last operation on a customer decides what is stored for it. */
  ghost predicate Decided(m: Providers, m': Providers, mine: seq<Op>, c: nat) {
    if mine == [] then (c in m' <==> c in m) && (c in m ==> m'[c] == m[c])
    else
      var last := mine[|mine| - 1];
      if last.add then c in m' && m'[c] == SortAsns(last.providers) else c !in m'
  }

  lemma {:induction false} FoldDecides(m: Providers, announced: set<nat>, ops: seq<Op>, c: nat)
    requires Fold(m, announced, ops).Ok?
    ensures Decided(m, Fold(m, announced, ops).m, Of(ops, c), c)
    decreases |ops|
  {
    if ops != [] {
      OfFirst(ops, c);
      hide Of, SortAsns;
      FoldDecides(Apply(m, ops[0]), Announce(announced, ops[0]), ops[1..], c);
    }
  }

  /** Sorting the batch does not change whose turn it is. */
  lemma SortedTurns(m: Providers, ops: seq<Op>)
    ensures AllTakeTurns(m, {}, SortOps(ops)) <==> AllTakeTurns(m, {}, ops)
    ensures forall o :: OutOfTurn(m, {}, SortOps(ops), o) ==> OutOfTurn(m, {}, ops, o)
  {
    hide Of, SortOps, TakesTurns, InTurn;
    var sorted := SortOps(ops);
    forall c ensures Of(sorted, c) == Of(ops, c) { SortStable(ops, c); }
    if AllTakeTurns(m, {}, sorted) {
      forall c ensures TakesTurns(m, {}, Of(ops, c)) { assert TakesTurns(m, {}, Of(sorted, c)); }
    }
    if AllTakeTurns(m, {}, ops) {
      forall c ensures TakesTurns(m, {}, Of(sorted, c)) { assert TakesTurns(m, {}, Of(ops, c)); }
    }
    forall o | OutOfTurn(m, {}, sorted, o) ensures OutOfTurn(m, {}, ops, o) {
      assert Of(sorted, o.customer) == Of(ops, o.customer);
    }
  }

  lemma PassIsFold(arr: seq<AspaRecord>, ops: seq<Op>, m: Providers)
    requires Represents(arr, m)
    ensures Agrees(Run(arr, SortOps(ops), 0, 0, [], []), Fold(m, {}, SortOps(ops)), m)
  {
    var sorted := SortOps(ops);
    SortOpsSorts(ops);
    StartLive(arr, sorted, m);
    assert Replay([], m) == m;
    hide *;
    RunFromStart(arr, sorted, m);
  }

  lemma RunFromStart(arr: seq<AspaRecord>, sorted: seq<Op>, m: Providers)
    requires StrictlySorted(arr) && SortedOps(sorted) && At(arr, sorted, 0, 0, Replay([], m), {})
    ensures Agrees(Run(arr, sorted, 0, 0, [], []), Fold(m, {}, sorted), m)
  {
    hide Run, Fold, StrictlySorted, SortedOps, At;
    assert sorted[0..] == sorted && Replay([], m) == m;
    RunAgrees(arr, sorted, 0, 0, [], [], m, {});
  }

  /** aspa_table_update_compute_internal on the sorted batch, said of the batch as it arrived:
      it succeeds if and only if every customer's operations take turns. An error names an
      operation out of turn with the status that fits its kind. The notifications lead to the
      map in which each customer's last operation decides. */
  lemma UpdateByCustomer(arr: seq<AspaRecord>, ops: seq<Op>, m: Providers)
    requires Represents(arr, m)
    ensures var r := Run(arr, SortOps(ops), 0, 0, [], []);
            && (r.Done? <==> AllTakeTurns(m, {}, ops))
            && (r.Failed? ==> r.status == (if r.op.add then DuplicateRecord else RecordNotFound) && OutOfTurn(m, {}, ops, r.op))
            && (r.Done? ==> forall c :: Decided(m, Replay(r.notes, m), Of(ops, c), c))
  {
    var sorted := SortOps(ops);
    PassIsFold(arr, ops, m);
    FoldTakesTurns(m, {}, sorted);
    SortedTurns(m, ops);
    hide Run, SortOps, Of, AllTakeTurns, OutOfTurn, Decided, Represents, Fold, Replay;
    var r := Run(arr, sorted, 0, 0, [], []);
    if r.Done? {
      forall c ensures Decided(m, Replay(r.notes, m), Of(ops, c), c) {
        FoldDecides(m, {}, sorted, c);
        SortStable(ops, c);
      }
    }
  }

  /** rtr_compute_update_aspa_table accepts the ASPA PDUs of a response if and only if every
      announcement names a provider and every customer's PDUs take turns. */
  lemma ResponseAccepted(arr: seq<AspaRecord>, ops: seq<Op>, m: Providers)
    requires Represents(arr, m)
    ensures SyncTables.AspaAccepts(arr, ops) <==>
              (forall i :: 0 <= i < |ops| && ops[i].add ==> ops[i].providers != []) && AllTakeTurns(m, {}, ops)
  {
    UpdateByCustomer(arr, ops, m);
    NoTurns(m, {});
    hide Run, SortOps, AllTakeTurns, Represents, OutOfTurn, Decided, Of;
    assert (forall i :: 0 <= i < |ops| && ops[i].add ==> ops[i].providers != []) <==> !SyncTables.EmptyAnnouncement(ops);
  }
}
