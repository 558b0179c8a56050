/** aspa_table_update_compute_internal (rtrlib/aspa/aspa.c): one pass over the sorted
    operations and the sorted array, against folding the operations one by one. */
module AspaMerge {
  import opened AspaTable
  import opened AspaUpdate

  // ----- The pass -----

  /** The first position from `e` on whose customer is not below `c`. */
  function Skip(arr: seq<AspaRecord>, e: nat, c: nat): (r: nat)
    requires e <= |arr|
    ensures e <= r <= |arr|
    ensures forall k :: e <= k < r ==> arr[k].customer < c
    ensures r < |arr| ==> c <= arr[r].customer
    decreases |arr| - e
  {
    if e < |arr| && arr[e].customer < c then Skip(arr, e + 1, c) else e
  }

  function Last(s: seq<AspaRecord>): AspaRecord
    requires s != []
  {
    s[|s| - 1]
  }

  /** The old records left over are appended, except the next one if the last new record
      has the same customer. */
  function Finish(arr: seq<AspaRecord>, e: nat, acc: seq<AspaRecord>): seq<AspaRecord>
    requires e <= |arr|
  {
    if acc != [] && e < |arr| && Last(acc).customer == arr[e].customer then acc + arr[e + 1..]
    else acc + arr[e..]
  }

  function NewRecord(o: Op): AspaRecord {
    AspaRecord(o.customer, SortAsns(o.providers))
  }

  predicate Matches(arr: seq<AspaRecord>, e: nat, c: nat) {
    e < |arr| && arr[e].customer == c
  }

  predicate NextSame(ops: seq<Op>, i: nat) {
    i + 1 < |ops| && ops[i + 1].customer == ops[i].customer
  }

  /** The loop from operation `i` on: `e` old records are consumed, `acc` is the new array
      and `notes` the notifications so far. */
  function Run(arr: seq<AspaRecord>, ops: seq<Op>, e: nat, i: nat, acc: seq<AspaRecord>, notes: seq<Note>): Outcome
    requires e <= |arr| && i <= |ops|
    decreases |ops| - i
  {
    if i == |ops| then Done(Finish(arr, e, acc), notes)
    else
      var o := ops[i];
      var e1 := Skip(arr, e, o.customer);
      var acc1 := acc + arr[e..e1];
      var matches := Matches(arr, e1, o.customer);
      if o.add then
        if NextSame(ops, i) && ops[i + 1].add then Failed(DuplicateRecord, ops[i + 1])
        else if NextSame(ops, i) then
          if matches then Run(arr, ops, e1 + 1, i + 2, acc1, notes + [Note(false, arr[e1])])
          else Run(arr, ops, e1, i + 2, acc1, notes)
        else Run(arr, ops, e1, i + 1, acc1 + [NewRecord(o)], notes + [Note(true, NewRecord(o))])
      else
        if !matches then Failed(RecordNotFound, o)
        else if NextSame(ops, i) && !ops[i + 1].add then Failed(RecordNotFound, ops[i + 1])
        else Run(arr, ops, e1 + 1, i + 1, acc1, notes + [Note(false, arr[e1])])
  }

  /** The inner loop: records below the operation's customer are copied. */
  method SkipRecords(arr: seq<AspaRecord>, e0: nat, c: nat, acc0: seq<AspaRecord>)
    returns (e: nat, acc: seq<AspaRecord>)
    requires e0 <= |arr|
    ensures e == Skip(arr, e0, c) && acc == acc0 + arr[e0..e]
  {
    e, acc := e0, acc0;
    while e < |arr| && arr[e].customer < c
      invariant e0 <= e <= |arr|
      invariant Skip(arr, e, c) == Skip(arr, e0, c)
      invariant acc == acc0 + arr[e0..e]
    {
      assert arr[e0..e + 1] == arr[e0..e] + [arr[e]];
      acc := acc + [arr[e]];
      e := e + 1;
    }
  }

  /** aspa_table_update_compute_internal, with the notifications its operations stand for. */
  method Compute(arr: seq<AspaRecord>, ops: seq<Op>) returns (r: Outcome)
    ensures r == Run(arr, ops, 0, 0, [], [])
  {
    hide Skip, NewRecord;
    var e: nat, i: nat := 0, 0;
    var acc: seq<AspaRecord>, notes: seq<Note> := [], [];
    while i < |ops|
      invariant e <= |arr| && i <= |ops|
      invariant Run(arr, ops, e, i, acc, notes) == Run(arr, ops, 0, 0, [], [])
    {
      var o := ops[i];
      e, acc := SkipRecords(arr, e, o.customer, acc);
      var matches := Matches(arr, e, o.customer);
      var nextSame := NextSame(ops, i);
      if o.add {
        if nextSame && ops[i + 1].add {
          return Failed(DuplicateRecord, ops[i + 1]);
        }
        if nextSame {
          if matches {
            notes := notes + [Note(false, arr[e])];
            e := e + 1;
          }
          i := i + 2;
          continue;
        }
        acc, notes := acc + [NewRecord(o)], notes + [Note(true, NewRecord(o))];
      } else {
        if !matches {
          return Failed(RecordNotFound, o);
        }
        if nextSame && !ops[i + 1].add {
          return Failed(RecordNotFound, ops[i + 1]);
        }
        notes := notes + [Note(false, arr[e])];
        e := e + 1;
      }
      i := i + 1;
    }
    if acc != [] && e < |arr| && Last(acc).customer == arr[e].customer {
      e := e + 1;
    }
    r := Done(acc + arr[e..], notes);
  }

  // ----- Success, errors and notifications -----

  /** From customer `lo` on, the map holds exactly what is left of the array. */
  ghost predicate Live(m: Providers, arr: seq<AspaRecord>, e: nat, lo: nat) {
    && (forall k :: e <= k < |arr| && lo <= arr[k].customer ==> arr[k].customer in m && m[arr[k].customer] == arr[k].providers)
    && (forall c :: c in m && lo <= c ==> exists k :: e <= k < |arr| && arr[k].customer == c)
  }

  /** What must hold before operation `i`. */
  ghost predicate At(arr: seq<AspaRecord>, ops: seq<Op>, e: nat, i: nat, m: Providers, announced: set<nat>) {
    && e <= |arr| && i <= |ops|
    && (i < |ops| ==> Live(m, arr, e, ops[i].customer) && forall c :: c in announced ==> c < ops[i].customer)
  }

  lemma SkipLive(m: Providers, arr: seq<AspaRecord>, e: nat, c: nat)
    requires StrictlySorted(arr) && e <= |arr| && Live(m, arr, e, c)
    ensures var e1 := Skip(arr, e, c);
            && Live(m, arr, e1, c)
            && (Matches(arr, e1, c) <==> c in m)
            && (Matches(arr, e1, c) ==> m[c] == arr[e1].providers)
  {
    var e1 := Skip(arr, e, c);
    if c in m {
      var k :| e <= k < |arr| && arr[k].customer == c;
      assert k >= e1;
    }
  }

  /** Consuming the record of a withdrawn customer. */
  lemma DropLive(m: Providers, arr: seq<AspaRecord>, e: nat, c: nat)
    requires StrictlySorted(arr) && Live(m, arr, e, c) && (e < |arr| ==> c <= arr[e].customer)
    ensures Live(m - {c}, arr, if Matches(arr, e, c) then e + 1 else e, c)
  {
    var e' := if Matches(arr, e, c) then e + 1 else e;
    forall k | e' <= k < |arr| && c <= arr[k].customer
      ensures arr[k].customer in m - {c} && m[arr[k].customer] == arr[k].providers
    {
      if e < k { assert arr[e].customer < arr[k].customer; }
    }
    forall x | x in m - {c} && c <= x ensures exists k :: e' <= k < |arr| && arr[k].customer == x {
      var k :| e <= k < |arr| && arr[k].customer == x;
      assert e' <= k;
    }
  }

  lemma RaiseLive(m: Providers, arr: seq<AspaRecord>, e: nat, lo: nat, hi: nat)
    requires Live(m, arr, e, lo) && lo <= hi
    ensures Live(m, arr, e, hi)
  {
  }

  lemma ReplaySnoc(notes: seq<Note>, n: Note, m: Providers)
    ensures Replay(notes + [n], m)
         == var m' := Replay(notes, m); if n.added then m'[n.record.customer := n.record.providers] else m' - {n.record.customer}
  {
    if notes != [] {
      assert (notes + [n])[1..] == notes[1..] + [n];
      var h := notes[0];
      ReplaySnoc(notes[1..], n, if h.added then m[h.record.customer := h.record.providers] else m - {h.record.customer});
    }
  }

  /** The outcome of the pass is the outcome of the fold: the same first error, or success
      and notifications that lead from the old map to the folded one. */
  ghost predicate Agrees(r: Outcome, f: Folded, m0: Providers) {
    match r
    case Failed(status, op) => f == Err(status, op)
    case Done(_, notes) => f == Ok(Replay(notes, m0))
  }

  lemma {:induction false} RunAgrees(arr: seq<AspaRecord>, ops: seq<Op>, e: nat, i: nat, acc: seq<AspaRecord>,
                                     notes: seq<Note>, m0: Providers, announced: set<nat>)
    requires StrictlySorted(arr) && SortedOps(ops)
    requires At(arr, ops, e, i, Replay(notes, m0), announced)
    ensures Agrees(Run(arr, ops, e, i, acc, notes), Fold(Replay(notes, m0), announced, ops[i..]), m0)
    decreases |ops| - i
  {
    hide Live, Replay, StrictlySorted, Skip, SortAsns;
    if i < |ops| {
      var o := ops[i];
      var e1 := Skip(arr, e, o.customer);
      var acc1 := acc + arr[e..e1];
      SkipLive(Replay(notes, m0), arr, e, o.customer);
      assert ops[i..] == [o] + ops[i + 1..];
      if o.add && NextSame(ops, i) {
        assert ops[i + 1..] == [ops[i + 1]] + ops[i + 2..];
        if !ops[i + 1].add { PairAgrees(arr, ops, e1, i, acc1, notes, m0, announced); }
      } else if o.add {
        AddAgrees(arr, ops, e1, i, acc1, notes, m0, announced);
      } else if Matches(arr, e1, o.customer) {
        RemoveAgrees(arr, ops, e1, i, acc1, notes, m0, announced);
      }
    }
  }

  /** What holds once the records below operation `i` are skipped. */
  ghost predicate AtOp(arr: seq<AspaRecord>, ops: seq<Op>, e: nat, i: nat, m: Providers, announced: set<nat>) {
    && e <= |arr| && i < |ops|
    && var c := ops[i].customer;
    && Live(m, arr, e, c) && (e < |arr| ==> c <= arr[e].customer)
    && (Matches(arr, e, c) <==> c in m) && (forall x :: x in announced ==> x < c)
  }

  /** An announcement that stands. */
  lemma AddAgrees(arr: seq<AspaRecord>, ops: seq<Op>, e: nat, i: nat, acc: seq<AspaRecord>,
                  notes: seq<Note>, m0: Providers, announced: set<nat>)
    requires StrictlySorted(arr) && SortedOps(ops) && AtOp(arr, ops, e, i, Replay(notes, m0), announced)
    requires ops[i].add && !NextSame(ops, i)
    ensures var n := NewRecord(ops[i]);
            Agrees(Run(arr, ops, e, i + 1, acc + [n], notes + [Note(true, n)]), Fold(Replay(notes, m0), announced, ops[i..]), m0)
    decreases |ops| - i, 0
  {
    hide Run, StrictlySorted, SortAsns;
    var m, o := Replay(notes, m0), ops[i];
    var n := NewRecord(o);
    assert ops[i..] == [o] + ops[i + 1..];
    ReplaySnoc(notes, Note(true, n), m0);
    if i + 1 < |ops| {
      assert o.customer < ops[i + 1].customer;
      AddLive(m, arr, e, o, ops[i + 1].customer);
    }
    RunAgrees(arr, ops, e, i + 1, acc + [n], notes + [Note(true, n)], m0, announced + {o.customer});
  }

  /** A withdrawal of a present record. */
  lemma RemoveAgrees(arr: seq<AspaRecord>, ops: seq<Op>, e: nat, i: nat, acc: seq<AspaRecord>,
                     notes: seq<Note>, m0: Providers, announced: set<nat>)
    requires StrictlySorted(arr) && SortedOps(ops) && AtOp(arr, ops, e, i, Replay(notes, m0), announced)
    requires !ops[i].add && Matches(arr, e, ops[i].customer)
    ensures var r := if NextSame(ops, i) && !ops[i + 1].add then Failed(RecordNotFound, ops[i + 1])
                     else Run(arr, ops, e + 1, i + 1, acc, notes + [Note(false, arr[e])]);
            Agrees(r, Fold(Replay(notes, m0), announced, ops[i..]), m0)
    decreases |ops| - i, 0
  {
    hide Run, StrictlySorted;
    var m, o := Replay(notes, m0), ops[i];
    var n := Note(false, arr[e]);
    assert ops[i..] == [o] + ops[i + 1..];
    assert announced - {o.customer} == announced;
    if NextSame(ops, i) && !ops[i + 1].add {
      assert ops[i + 1..][0] == ops[i + 1];
    } else {
      ReplaySnoc(notes, n, m0);
      DropLive(m, arr, e, o.customer);
      if i + 1 < |ops| { RaiseLive(m - {o.customer}, arr, e + 1, o.customer, ops[i + 1].customer); }
      RunAgrees(arr, ops, e + 1, i + 1, acc, notes + [n], m0, announced);
    }
  }

  lemma AddLive(m: Providers, arr: seq<AspaRecord>, e: nat, o: Op, hi: nat)
    requires Live(m, arr, e, o.customer) && o.customer < hi
    ensures Live(Apply(m, o), arr, e, hi)
  {
  }

  /** An announcement and its withdrawal, taken together. */
  lemma PairAgrees(arr: seq<AspaRecord>, ops: seq<Op>, e: nat, i: nat, acc: seq<AspaRecord>,
                   notes: seq<Note>, m0: Providers, announced: set<nat>)
    requires StrictlySorted(arr) && SortedOps(ops) && AtOp(arr, ops, e, i, Replay(notes, m0), announced)
    requires ops[i].add && NextSame(ops, i) && !ops[i + 1].add
    ensures var r := if Matches(arr, e, ops[i].customer) then Run(arr, ops, e + 1, i + 2, acc, notes + [Note(false, arr[e])])
                     else Run(arr, ops, e, i + 2, acc, notes);
            Agrees(r, Fold(Replay(notes, m0), announced, ops[i..]), m0)
    decreases |ops| - i, 0
  {
    hide Run, Fold, Replay, StrictlySorted;
    var m, o, w := Replay(notes, m0), ops[i], ops[i + 1];
    var c := o.customer;
    assert ops[i..] == [o, w] + ops[i + 2..];
    FoldPair(m, announced, o, w, ops[i + 2..]);
    DropLive(m, arr, e, c);
    if Matches(arr, e, c) {
      var n := Note(false, arr[e]);
      ReplaySnoc(notes, n, m0);
      if i + 2 < |ops| { RaiseLive(m - {c}, arr, e + 1, c, ops[i + 2].customer); }
      RunAgrees(arr, ops, e + 1, i + 2, acc, notes + [n], m0, announced);
    } else {
      assert m - {c} == m;
      if i + 2 < |ops| { RaiseLive(m, arr, e, c, ops[i + 2].customer); }
      RunAgrees(arr, ops, e, i + 2, acc, notes, m0, announced);
    }
  }

  lemma FoldPair(m: Providers, announced: set<nat>, o: Op, w: Op, rest: seq<Op>)
    requires o.add && !w.add && o.customer == w.customer && o.customer !in announced
    ensures Fold(m, announced, [o, w] + rest) == Fold(m - {o.customer}, announced, rest)
  {
    FoldTwo(m, announced, o, w, rest);
    assert Apply(Apply(m, o), w) == m - {o.customer};
    assert Announce(Announce(announced, o), w) == announced;
  }

  // ----- The new array -----

  /** The array is the map's records in ascending order of the customer. */
  ghost predicate Represents(s: seq<AspaRecord>, m: Providers) {
    && StrictlySorted(s)
    && (forall r :: r in s ==> r.customer in m && m[r.customer] == r.providers)
    && (forall c :: c in m ==> AspaRecord(c, m[c]) in s)
  }

  predicate Present(arr: seq<AspaRecord>, c: nat) {
    exists k :: 0 <= k < |arr| && arr[k].customer == c
  }

  predicate FirstOfCustomer(ops: seq<Op>, i: nat)
    requires i < |ops|
  {
    i == 0 || ops[i - 1].customer != ops[i].customer
  }

  /** Operation `i` is its customer's only one, announces a customer that has a record, and
      is not the last of the sorted batch: the pass then copies the old record behind the
      new one. */
  predicate Stale(arr: seq<AspaRecord>, ops: seq<Op>, i: nat)
    requires i < |ops|
  {
    ops[i].add && FirstOfCustomer(ops, i) && !NextSame(ops, i) && i + 1 < |ops| && Present(arr, ops[i].customer)
  }

  ghost predicate NoStale(arr: seq<AspaRecord>, ops: seq<Op>, i: nat) {
    forall j :: i <= j < |ops| ==> !Stale(arr, ops, j)
  }

  /** What was put into the new array stays there. */
  lemma {:induction false} RunKeeps(arr: seq<AspaRecord>, ops: seq<Op>, e: nat, i: nat, acc: seq<AspaRecord>, notes: seq<Note>)
    requires e <= |arr| && i <= |ops|
    requires Run(arr, ops, e, i, acc, notes).Done?
    ensures acc <= Run(arr, ops, e, i, acc, notes).arr
    ensures i < |ops| ==> acc + arr[e..Skip(arr, e, ops[i].customer)] <= Run(arr, ops, e, i, acc, notes).arr
    decreases |ops| - i
  {
    hide Skip, NewRecord;
    if i < |ops| {
      var o := ops[i];
      var e1 := Skip(arr, e, o.customer);
      var acc1 := acc + arr[e..e1];
      var removed := if Matches(arr, e1, o.customer) then notes + [Note(false, arr[e1])] else notes;
      var e2 := if Matches(arr, e1, o.customer) then e1 + 1 else e1;
      if o.add && NextSame(ops, i) {
        RunKeeps(arr, ops, e2, i + 2, acc1, removed);
      } else if o.add {
        RunKeeps(arr, ops, e1, i + 1, acc1 + [NewRecord(o)], notes + [Note(true, NewRecord(o))]);
      } else {
        RunKeeps(arr, ops, e2, i + 1, acc1, removed);
      }
    }
  }

  lemma InsertRecord(acc: seq<AspaRecord>, rest: seq<AspaRecord>, m: Providers, n: AspaRecord)
    requires Represents(acc + rest, m)
    requires forall r :: r in acc ==> r.customer < n.customer
    requires forall r :: r in rest ==> n.customer < r.customer
    ensures Represents(acc + [n] + rest, m[n.customer := n.providers])
  {
    var s := acc + rest;
    var s' := acc + [n] + rest;
    forall i, j | 0 <= i < j < |s'| ensures s'[i].customer < s'[j].customer {
      if i < |acc| && |acc| < j { assert s[i] == s'[i] && s[j - 1] == s'[j]; }
      if |acc| < i { assert s[i - 1] == s'[i] && s[j - 1] == s'[j]; }
      if j < |acc| { assert s[i] == s'[i] && s[j] == s'[j]; }
      if j == |acc| { assert s'[i] in acc; }
      if i == |acc| { assert s'[j] in rest; }
    }
    var m' := m[n.customer := n.providers];
    forall c | c in m' ensures AspaRecord(c, m'[c]) in s' {
      if c == n.customer { assert s'[|acc|] == n; } else { assert AspaRecord(c, m[c]) in s; }
    }
    forall r | r in s' ensures r.customer in m' && m'[r.customer] == r.providers {
      if r != n { assert r in s && (r in acc || r in rest); }
    }
  }

  lemma DropRecord(acc: seq<AspaRecord>, gone: AspaRecord, rest: seq<AspaRecord>, m: Providers)
    requires Represents(acc + [gone] + rest, m)
    ensures Represents(acc + rest, m - {gone.customer})
    ensures forall r :: r in acc ==> r.customer < gone.customer
    ensures forall r :: r in rest ==> gone.customer < r.customer
  {
    var s := acc + [gone] + rest;
    var s' := acc + rest;
    assert s[|acc|] == gone;
    forall r | r in acc ensures r.customer < gone.customer {
      var i :| 0 <= i < |acc| && acc[i] == r;
      assert s[i] == r;
    }
    forall r | r in rest ensures gone.customer < r.customer {
      var i :| 0 <= i < |rest| && rest[i] == r;
      assert s[|acc| + 1 + i] == r;
    }
    forall i, j | 0 <= i < j < |s'| ensures s'[i].customer < s'[j].customer {
      assert s'[i] == s[if i < |acc| then i else i + 1] && s'[j] == s[if j < |acc| then j else j + 1];
    }
    forall r | r in s' ensures r.customer in m - {gone.customer} && m[r.customer] == r.providers {
      assert r in acc || r in rest;
      assert r in s;
    }
    forall c | c in m - {gone.customer} ensures AspaRecord(c, m[c]) in s' {
      assert AspaRecord(c, m[c]) in s;
    }
  }

  /** Before operation `i`, the new array followed by what is left of the old one
      represents the map. */
  ghost predicate Around(arr: seq<AspaRecord>, ops: seq<Op>, e: nat, i: nat, acc: seq<AspaRecord>, m: Providers) {
    && e <= |arr| && i <= |ops|
    && Represents(acc + arr[e..], m)
    && (i < |ops| ==> Position(arr, ops, e, i, acc, m))
  }

  /** Everything below the customer of operation `i` is dealt with, and nothing above it. */
  ghost predicate Position(arr: seq<AspaRecord>, ops: seq<Op>, e: nat, i: nat, acc: seq<AspaRecord>, m: Providers)
    requires e <= |arr| && i < |ops|
  {
    var c := ops[i].customer;
    && (forall r :: r in acc ==> r.customer < c)
    && (forall k :: 0 <= k < e ==> arr[k].customer <= c)
    && (FirstOfCustomer(ops, i) ==> forall k :: 0 <= k < e ==> arr[k].customer < c)
    && (!FirstOfCustomer(ops, i) ==> c !in m)
  }

  /** The same once the records below the customer are copied. */
  ghost predicate Skipped(arr: seq<AspaRecord>, ops: seq<Op>, e: nat, i: nat, acc: seq<AspaRecord>, m: Providers) {
    && e <= |arr| && i < |ops|
    && Represents(acc + arr[e..], m)
    && var c := ops[i].customer;
    && (forall r :: r in acc ==> r.customer < c)
    && (forall r :: r in arr[e..] ==> c <= r.customer)
    && (forall k :: 0 <= k < e ==> arr[k].customer <= c)
    && (Matches(arr, e, c) ==> FirstOfCustomer(ops, i))
    && (!Matches(arr, e, c) ==> c !in m && forall r :: r in arr[e..] ==> c < r.customer)
    && (FirstOfCustomer(ops, i) ==> (Present(arr, c) <==> Matches(arr, e, c)))
  }

  lemma SkipAround(arr: seq<AspaRecord>, ops: seq<Op>, e: nat, i: nat, acc: seq<AspaRecord>, m: Providers)
    requires StrictlySorted(arr) && Around(arr, ops, e, i, acc, m) && i < |ops|
    ensures var e1 := Skip(arr, e, ops[i].customer); Skipped(arr, ops, e1, i, acc + arr[e..e1], m)
  {
    hide Skip, Represents;
    var c := ops[i].customer;
    var e1 := Skip(arr, e, c);
    var acc1 := acc + arr[e..e1];
    assert acc1 + arr[e1..] == acc + arr[e..];
    SkippedMatch(arr, e1, acc1, m, c);
    forall r | r in arr[e1..] ensures c <= r.customer && (!Matches(arr, e1, c) ==> c < r.customer) {
      var k :| e1 <= k < |arr| && arr[k] == r;
    }
  }

  lemma SkippedMatch(arr: seq<AspaRecord>, e: nat, acc: seq<AspaRecord>, m: Providers, c: nat)
    requires e <= |arr| && Represents(acc + arr[e..], m)
    requires forall r :: r in acc ==> r.customer != c
    requires e < |arr| ==> c <= arr[e].customer
    ensures Matches(arr, e, c) <==> c in m
  {
    var s := acc + arr[e..];
    if e < |arr| { assert s[|acc|] == arr[e] && arr[e] in s; }
    if c in m {
      var k :| 0 <= k < |s| && s[k] == AspaRecord(c, m[c]);
      assert forall j :: 0 <= j < |acc| ==> s[j] in acc;
    }
  }

  /** The new array is exact unless a stale record was kept. */
  ghost predicate Exact(arr: seq<AspaRecord>, ops: seq<Op>, i: nat, r: Outcome, m0: Providers) {
    r.Done? ==> if NoStale(arr, ops, i) then Represents(r.arr, Replay(r.notes, m0)) else !StrictlySorted(r.arr)
  }

  lemma {:induction false} RunExact(arr: seq<AspaRecord>, ops: seq<Op>, e: nat, i: nat, acc: seq<AspaRecord>,
                                    notes: seq<Note>, m0: Providers)
    requires StrictlySorted(arr) && SortedOps(ops) && Around(arr, ops, e, i, acc, Replay(notes, m0))
    ensures Exact(arr, ops, i, Run(arr, ops, e, i, acc, notes), m0)
    decreases |ops| - i
  {
    hide Replay, Skip, SortAsns, StrictlySorted;
    if i < |ops| {
      hide Exact;
      var e1 := Skip(arr, e, ops[i].customer);
      var acc1 := acc + arr[e..e1];
      SkipAround(arr, ops, e, i, acc, Replay(notes, m0));
      RunSkipped(arr, ops, e1, i, acc1, Replay(notes, m0));
      assert Run(arr, ops, e1, i, acc1, notes) == Run(arr, ops, e, i, acc, notes);
      if ops[i].add && NextSame(ops, i) {
        PairExact(arr, ops, e1, i, acc1, notes, m0);
      } else if ops[i].add {
        AddExact(arr, ops, e1, i, acc1, notes, m0);
      } else {
        RemoveExact(arr, ops, e1, i, acc1, notes, m0);
      }
    } else {
      FinishExact(arr, e, acc, Replay(notes, m0));
    }
  }

  lemma FinishExact(arr: seq<AspaRecord>, e: nat, acc: seq<AspaRecord>, m: Providers)
    requires e <= |arr| && Represents(acc + arr[e..], m)
    ensures Represents(Finish(arr, e, acc), m)
  {
    if acc != [] && e < |arr| {
      var s := acc + arr[e..];
      assert s[|acc| - 1] == Last(acc) && s[|acc|] == arr[e];
    }
  }

  lemma RunSkipped(arr: seq<AspaRecord>, ops: seq<Op>, e: nat, i: nat, acc: seq<AspaRecord>, m: Providers)
    requires Skipped(arr, ops, e, i, acc, m)
    ensures Skip(arr, e, ops[i].customer) == e && acc + arr[e..e] == acc
  {
    if e < |arr| { assert arr[e] == arr[e..][0]; }
  }

  lemma NextPosition(arr: seq<AspaRecord>, ops: seq<Op>, e: nat, j: nat, acc: seq<AspaRecord>, m: Providers, c: nat)
    requires SortedOps(ops) && e <= |arr| && 0 < j < |ops| && c == ops[j - 1].customer
    requires forall r :: r in acc ==> r.customer < c || (r.customer == c && FirstOfCustomer(ops, j))
    requires forall k :: 0 <= k < e ==> arr[k].customer <= c
    requires FirstOfCustomer(ops, j) || c !in m
    ensures Position(arr, ops, e, j, acc, m)
  {
    assert c <= ops[j].customer;
  }

  lemma AddExact(arr: seq<AspaRecord>, ops: seq<Op>, e: nat, i: nat, acc: seq<AspaRecord>,
                 notes: seq<Note>, m0: Providers)
    requires StrictlySorted(arr) && SortedOps(ops) && Skipped(arr, ops, e, i, acc, Replay(notes, m0))
    requires ops[i].add && !NextSame(ops, i)
    ensures Exact(arr, ops, i, Run(arr, ops, e, i, acc, notes), m0)
    decreases |ops| - i, 0
  {
    hide Represents, StrictlySorted, Replay, SortedOps, Skip, SortAsns;
    var m, o, n := Replay(notes, m0), ops[i], NewRecord(ops[i]);
    RunSkipped(arr, ops, e, i, acc, m);
    var acc', notes' := acc + [n], notes + [Note(true, n)];
    var r := Run(arr, ops, e, i + 1, acc', notes');
    assert Run(arr, ops, e, i, acc, notes) == r;
    ReplaySnoc(notes, Note(true, n), m0);
    if !Matches(arr, e, o.customer) {
      InsertNew(arr, ops, e, i, acc, m);
      RunExact(arr, ops, e, i + 1, acc', notes', m0);
      assert !Stale(arr, ops, i);
    } else if i + 1 == |ops| {
      ReplaceLast(arr, e, acc, n, m);
    } else if r.Done? {
      KeptStale(arr, ops, e, i, acc', notes');
      assert Stale(arr, ops, i);
    }
  }

  lemma InsertNew(arr: seq<AspaRecord>, ops: seq<Op>, e: nat, i: nat, acc: seq<AspaRecord>, m: Providers)
    requires SortedOps(ops) && Skipped(arr, ops, e, i, acc, m)
    requires ops[i].add && !NextSame(ops, i) && !Matches(arr, e, ops[i].customer)
    ensures Around(arr, ops, e, i + 1, acc + [NewRecord(ops[i])], Apply(m, ops[i]))
  {
    hide Represents, SortAsns;
    var n := NewRecord(ops[i]);
    InsertRecord(acc, arr[e..], m, n);
    if i + 1 < |ops| { NextPosition(arr, ops, e, i + 1, acc + [n], Apply(m, ops[i]), n.customer); }
  }

  lemma ReplaceLast(arr: seq<AspaRecord>, e: nat, acc: seq<AspaRecord>, n: AspaRecord, m: Providers)
    requires e < |arr| && arr[e].customer == n.customer && Represents(acc + arr[e..], m)
    ensures Represents(Finish(arr, e, acc + [n]), m[n.customer := n.providers])
  {
    hide Represents;
    assert acc + arr[e..] == acc + [arr[e]] + arr[e + 1..];
    DropRecord(acc, arr[e], arr[e + 1..], m);
    InsertRecord(acc, arr[e + 1..], m - {n.customer}, n);
    assert (m - {n.customer})[n.customer := n.providers] == m[n.customer := n.providers];
  }

  /** The old record is copied behind the new one. */
  lemma KeptStale(arr: seq<AspaRecord>, ops: seq<Op>, e: nat, i: nat, acc: seq<AspaRecord>, notes: seq<Note>)
    requires SortedOps(ops) && i + 1 < |ops| && e < |arr| && !NextSame(ops, i)
    requires acc != [] && Last(acc).customer == ops[i].customer == arr[e].customer
    requires Run(arr, ops, e, i + 1, acc, notes).Done?
    ensures !StrictlySorted(Run(arr, ops, e, i + 1, acc, notes).arr)
  {
    RunKeeps(arr, ops, e, i + 1, acc, notes);
    var s := Run(arr, ops, e, i + 1, acc, notes).arr;
    var e2 := Skip(arr, e, ops[i + 1].customer);
    assert e < e2;
    var prefix := acc + arr[e..e2];
    assert prefix[|acc| - 1] == Last(acc) && prefix[|acc|] == arr[e];
    assert s[|acc| - 1] == prefix[|acc| - 1] && s[|acc|] == prefix[|acc|];
  }

  /** Consuming the record of a withdrawn customer, before operation `j`. */
  lemma DropNext(arr: seq<AspaRecord>, ops: seq<Op>, e: nat, i: nat, j: nat, acc: seq<AspaRecord>, m: Providers)
    requires SortedOps(ops) && Skipped(arr, ops, e, i, acc, m) && i < j <= |ops|
    requires ops[j - 1].customer == ops[i].customer
    ensures var c := ops[i].customer;
            Around(arr, ops, if Matches(arr, e, c) then e + 1 else e, j, acc, m - {c})
  {
    hide Represents;
    var c := ops[i].customer;
    var e' := if Matches(arr, e, c) then e + 1 else e;
    if Matches(arr, e, c) {
      assert acc + arr[e..] == acc + [arr[e]] + arr[e + 1..];
      DropRecord(acc, arr[e], arr[e + 1..], m);
    } else {
      assert m - {c} == m;
    }
    if j < |ops| { NextPosition(arr, ops, e', j, acc, m - {c}, c); }
  }

  lemma RemoveExact(arr: seq<AspaRecord>, ops: seq<Op>, e: nat, i: nat, acc: seq<AspaRecord>,
                    notes: seq<Note>, m0: Providers)
    requires StrictlySorted(arr) && SortedOps(ops) && Skipped(arr, ops, e, i, acc, Replay(notes, m0))
    requires !ops[i].add
    ensures Exact(arr, ops, i, Run(arr, ops, e, i, acc, notes), m0)
    decreases |ops| - i, 0
  {
    hide Represents;
    var m, o := Replay(notes, m0), ops[i];
    RunSkipped(arr, ops, e, i, acc, m);
    if Matches(arr, e, o.customer) && !(NextSame(ops, i) && !ops[i + 1].add) {
      var n := Note(false, arr[e]);
      ReplaySnoc(notes, n, m0);
      DropNext(arr, ops, e, i, i + 1, acc, m);
      RunExact(arr, ops, e + 1, i + 1, acc, notes + [n], m0);
      assert !Stale(arr, ops, i);
    }
  }

  lemma PairExact(arr: seq<AspaRecord>, ops: seq<Op>, e: nat, i: nat, acc: seq<AspaRecord>,
                  notes: seq<Note>, m0: Providers)
    requires StrictlySorted(arr) && SortedOps(ops) && Skipped(arr, ops, e, i, acc, Replay(notes, m0))
    requires ops[i].add && NextSame(ops, i)
    ensures Exact(arr, ops, i, Run(arr, ops, e, i, acc, notes), m0)
    decreases |ops| - i, 0
  {
    hide Represents, StrictlySorted, Replay, SortedOps, Skip, SortAsns;
    var m, o := Replay(notes, m0), ops[i];
    RunSkipped(arr, ops, e, i, acc, m);
    if !ops[i + 1].add {
      DropNext(arr, ops, e, i, i + 2, acc, m);
      assert !Stale(arr, ops, i) && !Stale(arr, ops, i + 1);
      if Matches(arr, e, o.customer) {
        var n := Note(false, arr[e]);
        ReplaySnoc(notes, n, m0);
        RunExact(arr, ops, e + 1, i + 2, acc, notes + [n], m0);
      } else {
        assert m - {o.customer} == m;
        RunExact(arr, ops, e, i + 2, acc, notes, m0);
      }
    }
  }

  // ----- The whole update, in arrival order -----

  /** The operations of one customer, in order. */
  function Of(ops: seq<Op>, c: nat): (r: seq<Op>)
    ensures forall o :: o in r ==> o in ops && o.customer == c
  {
    if ops == [] then [] else if ops[0].customer == c then [ops[0]] + Of(ops[1..], c) else Of(ops[1..], c)
  }

  lemma {:induction false} InsertOpStable(o: Op, ops: seq<Op>, c: nat)
    ensures Of(InsertOp(o, ops), c) == Of([o] + ops, c)
  {
    assert ([o] + ops)[1..] == ops;
    if ops != [] && o.customer > ops[0].customer {
      InsertOpStable(o, ops[1..], c);
      assert ([ops[0]] + InsertOp(o, ops[1..]))[1..] == InsertOp(o, ops[1..]);
      assert ([o] + ops[1..])[1..] == ops[1..];
    }
  }

  /** Sorting keeps the order of one customer's operations. */
  lemma {:induction false} SortStable(ops: seq<Op>, c: nat)
    ensures Of(SortOps(ops), c) == Of(ops, c)
  {
    if ops != [] {
      var sorted := SortOps(ops[1..]);
      SortStable(ops[1..], c);
      InsertOpStable(ops[0], sorted, c);
      assert ([ops[0]] + sorted)[1..] == sorted;
    }
  }

  lemma {:induction false} OfTwo(ops: seq<Op>, a: nat, b: nat)
    requires a < b < |ops| && ops[a].customer == ops[b].customer
    ensures |Of(ops, ops[a].customer)| >= 2
  {
    var c := ops[a].customer;
    if a == 0 {
      OfSome(ops[1..], b - 1);
    } else {
      OfTwo(ops[1..], a - 1, b - 1);
    }
  }

  lemma {:induction false} OfSome(ops: seq<Op>, a: nat)
    requires a < |ops|
    ensures ops[a] in Of(ops, ops[a].customer)
  {
    if a > 0 { OfSome(ops[1..], a - 1); }
  }

  lemma {:induction false} OfNone(ops: seq<Op>, c: nat)
    requires forall k :: 0 <= k < |ops| ==> ops[k].customer != c
    ensures Of(ops, c) == []
  {
    if ops != [] { OfNone(ops[1..], c); }
  }

  lemma {:induction false} OfOne(ops: seq<Op>, a: nat)
    requires a < |ops| && forall k :: 0 <= k < |ops| && k != a ==> ops[k].customer != ops[a].customer
    ensures Of(ops, ops[a].customer) == [ops[a]]
  {
    if a > 0 { OfOne(ops[1..], a - 1); } else { OfNone(ops[1..], ops[a].customer); }
  }

  /** In arrival order: customer `c` has a record, the batch holds one operation for it, an
      announcement, and the batch also names a greater customer. */
  ghost predicate StaleCustomer(arr: seq<AspaRecord>, ops: seq<Op>, c: nat) {
    && Present(arr, c)
    && |Of(ops, c)| == 1 && Of(ops, c)[0].add
    && exists o :: o in ops && o.customer > c
  }

  lemma StaleInOrder(arr: seq<AspaRecord>, ops: seq<Op>, i: nat)
    requires SortedOps(ops) && i < |ops| && Stale(arr, ops, i)
    ensures StaleCustomer(arr, ops, ops[i].customer)
  {
    OfOne(ops, i);
    assert ops[i + 1] in ops && ops[i + 1].customer > ops[i].customer;
  }

  lemma StaleSomewhere(arr: seq<AspaRecord>, ops: seq<Op>, c: nat)
    requires SortedOps(ops) && StaleCustomer(arr, ops, c)
    ensures !NoStale(arr, ops, 0)
  {
    var o := Of(ops, c)[0];
    assert o in Of(ops, c) && o in ops;
    var i :| 0 <= i < |ops| && ops[i] == o;
    if i > 0 && ops[i - 1].customer == c { OfTwo(ops, i - 1, i); }
    if NextSame(ops, i) { OfTwo(ops, i, i + 1); }
    var p :| p in ops && p.customer > c;
    var j :| 0 <= j < |ops| && ops[j] == p;
    assert i < j;
    assert Stale(arr, ops, i);
  }

  lemma StaleIff(arr: seq<AspaRecord>, ops: seq<Op>)
    ensures NoStale(arr, SortOps(ops), 0) <==> forall c :: !StaleCustomer(arr, ops, c)
  {
    var sorted := SortOps(ops);
    SortOpsSorts(ops);
    forall o ensures o in sorted <==> o in ops {
      assert o in multiset(sorted) <==> o in multiset(ops);
    }
    forall c ensures StaleCustomer(arr, ops, c) <==> StaleCustomer(arr, sorted, c) {
      SortStable(ops, c);
    }
    if NoStale(arr, sorted, 0) {
      forall c ensures !StaleCustomer(arr, ops, c) {
        if StaleCustomer(arr, sorted, c) { StaleSomewhere(arr, sorted, c); }
      }
    } else {
      var i :| 0 <= i < |sorted| && Stale(arr, sorted, i);
      StaleInOrder(arr, sorted, i);
    }
  }

  /** The update of a table that holds `m`, for every batch in every order of arrival. It
      fails exactly when applying the operations one by one fails. Otherwise its
      notifications lead from `m` to the resulting map, and the new array represents that
      map if and only if no customer is stale. */
  lemma UpdateMeansFold(arr: seq<AspaRecord>, ops: seq<Op>, m: Providers)
    requires Represents(arr, m)
    ensures var r := Run(arr, SortOps(ops), 0, 0, [], []);
            var f := Fold(m, {}, ops);
            && (r.Failed? <==> f.Err?)
            && (r.Done? ==> f == Ok(Replay(r.notes, m)))
            && (r.Done? ==> (Represents(r.arr, f.m) <==> forall c :: !StaleCustomer(arr, ops, c)))
            && (r.Done? ==> (StrictlySorted(r.arr) <==> forall c :: !StaleCustomer(arr, ops, c)))
  {
    hide Run, Fold, SortOps, StaleCustomer, StrictlySorted;
    var sorted := SortOps(ops);
    var r := Run(arr, sorted, 0, 0, [], []);
    SortOpsSorts(ops);
    SortSameEffect(m, {}, ops);
    assert sorted[0..] == sorted;
    StartLive(arr, sorted, m);
    RunAgrees(arr, sorted, 0, 0, [], [], m, {});
    StartAround(arr, sorted, m);
    RunExact(arr, sorted, 0, 0, [], [], m);
    StaleIff(arr, ops);
  }

  // ----- Arrays with stale records -----

  /** Every old record from position `e` on is at or after every new one. */
  ghost predicate Behind(acc: seq<AspaRecord>, arr: seq<AspaRecord>, e: nat) {
    forall i, k :: 0 <= i < |acc| && e <= k < |arr| ==> acc[i].customer <= arr[k].customer
  }

  ghost predicate NoneAfter(acc: seq<AspaRecord>, c: nat) {
    forall i :: 0 <= i < |acc| ==> acc[i].customer <= c
  }

  ghost predicate GoodOps(ops: seq<Op>) {
    forall i :: 0 <= i < |ops| ==> forall j :: 0 <= j < |ops[i].providers| ==> ops[i].providers[j] < TWO32
  }

  lemma SkipGood(arr: seq<AspaRecord>, e: nat, acc: seq<AspaRecord>, c: nat)
    requires GoodArray(arr) && GoodArray(acc) && e <= |arr| && Behind(acc, arr, e) && NoneAfter(acc, c)
    ensures var e1 := Skip(arr, e, c); var acc1 := acc + arr[e..e1];
            GoodArray(acc1) && Behind(acc1, arr, e1) && NoneAfter(acc1, c)
  {
  }

  lemma AppendGood(arr: seq<AspaRecord>, e: nat, acc: seq<AspaRecord>, o: Op)
    requires GoodArray(arr) && GoodArray(acc) && Behind(acc, arr, e) && NoneAfter(acc, o.customer)
    requires e < |arr| ==> o.customer <= arr[e].customer
    requires forall j :: 0 <= j < |o.providers| ==> o.providers[j] < TWO32
    ensures GoodArray(acc + [NewRecord(o)]) && Behind(acc + [NewRecord(o)], arr, e) && NoneAfter(acc + [NewRecord(o)], o.customer)
  {
    hide SortAsns;
    SortAsnsSorts(o.providers);
    var sorted := SortAsns(o.providers);
    forall j | 0 <= j < |sorted| ensures sorted[j] < TWO32 {
      assert sorted[j] in multiset(sorted) && sorted[j] in multiset(o.providers);
    }
  }

  lemma {:induction false} RunKeepsGood(arr: seq<AspaRecord>, ops: seq<Op>, e: nat, i: nat, acc: seq<AspaRecord>, notes: seq<Note>)
    requires GoodArray(arr) && GoodArray(acc) && SortedOps(ops) && GoodOps(ops)
    requires e <= |arr| && i <= |ops| && Behind(acc, arr, e) && (i < |ops| ==> NoneAfter(acc, ops[i].customer))
    ensures var r := Run(arr, ops, e, i, acc, notes); r.Done? ==> GoodArray(r.arr)
    decreases |ops| - i
  {
    hide Skip, NewRecord, Ascending;
    if i < |ops| {
      var o := ops[i];
      var e1 := Skip(arr, e, o.customer);
      SkipGood(arr, e, acc, o.customer);
      var acc1 := acc + arr[e..e1];
      if o.add && NextSame(ops, i) {
        if !ops[i + 1].add {
          if Matches(arr, e1, o.customer) {
            RunKeepsGood(arr, ops, e1 + 1, i + 2, acc1, notes + [Note(false, arr[e1])]);
          } else {
            RunKeepsGood(arr, ops, e1, i + 2, acc1, notes);
          }
        }
      } else if o.add {
        AppendGood(arr, e1, acc1, o);
        RunKeepsGood(arr, ops, e1, i + 1, acc1 + [NewRecord(o)], notes + [Note(true, NewRecord(o))]);
      } else if Matches(arr, e1, o.customer) && !(NextSame(ops, i) && !ops[i + 1].add) {
        RunKeepsGood(arr, ops, e1 + 1, i + 1, acc1, notes + [Note(false, arr[e1])]);
      }
    }
  }

  /** Every accepted batch leaves an array in order of the customer with sorted providers,
      also one that has stale records from before. */
  lemma UpdateKeepsGood(arr: seq<AspaRecord>, ops: seq<Op>)
    requires GoodArray(arr) && GoodOps(ops)
    ensures var r := Run(arr, SortOps(ops), 0, 0, [], []); r.Done? ==> GoodArray(r.arr)
  {
    var sorted := SortOps(ops);
    SortOpsSorts(ops);
    forall i | 0 <= i < |sorted| ensures forall j :: 0 <= j < |sorted[i].providers| ==> sorted[i].providers[j] < TWO32 {
      assert sorted[i] in multiset(sorted) && sorted[i] in multiset(ops);
    }
    hide Run, SortOps;
    RunKeepsGood(arr, sorted, 0, 0, [], []);
  }

  lemma StartLive(arr: seq<AspaRecord>, ops: seq<Op>, m: Providers)
    requires Represents(arr, m)
    ensures At(arr, ops, 0, 0, Replay([], m), {})
  {
    assert forall k :: 0 <= k < |arr| ==> arr[k] in arr;
  }

  lemma StartAround(arr: seq<AspaRecord>, ops: seq<Op>, m: Providers)
    requires Represents(arr, m)
    ensures Around(arr, ops, 0, 0, [], Replay([], m))
  {
    assert [] + arr[0..] == arr;
  }

  /** Replacing the record of customer 1 while customer 2 is announced: both records of
      customer 1 are in the new array. */
  lemma StaleKept()
    ensures var ops := [Op(true, 1, [7]), Op(true, 2, [9])];
            var r := Run([AspaRecord(1, [5])], SortOps(ops), 0, 0, [], []);
            && Fold(map[1 := [5]], {}, ops) == Ok(map[1 := [7], 2 := [9]])
            && r.Done? && r.arr == [AspaRecord(1, [7]), AspaRecord(1, [5]), AspaRecord(2, [9])]
  {
    var a, b := Op(true, 1, [7]), Op(true, 2, [9]);
    TwoSorted(a, b);
    assert SortAsns([7]) == [7] && SortAsns([9]) == [9];
    hide SortAsns, SortOps;
    FoldTwo(map[1 := [5]], {}, a, b, []);
    assert [a, b] + [] == [a, b];
    TwoAdded(AspaRecord(1, [5]), a, b);
  }

  lemma TwoSorted(a: Op, b: Op)
    requires a.customer < b.customer
    ensures SortOps([a, b]) == [a, b]
  {
    assert [a, b][1..] == [b] && SortOps([b]) == [b];
  }

  /** Two announcements, the first for a customer that has a record. */
  lemma TwoAdded(was: AspaRecord, a: Op, b: Op)
    requires a.add && b.add && was.customer == a.customer < b.customer
    ensures var r := Run([was], [a, b], 0, 0, [], []);
            r.Done? && r.arr == [NewRecord(a), was, NewRecord(b)]
  {
    hide Run, NewRecord;
    var arr, ops := [was], [a, b];
    RunAdd(arr, ops, 0, 0, [], []);
    assert Skip(arr, 0, a.customer) == 0 && [] + arr[0..0] + [NewRecord(a)] == [NewRecord(a)];
    RunAdd(arr, ops, 0, 1, [NewRecord(a)], [] + [Note(true, NewRecord(a))]);
    assert Skip(arr, 0, b.customer) == 1;
    assert [NewRecord(a)] + arr[0..1] + [NewRecord(b)] == [NewRecord(a), was, NewRecord(b)];
  }

  lemma RunAdd(arr: seq<AspaRecord>, ops: seq<Op>, e: nat, i: nat, acc: seq<AspaRecord>, notes: seq<Note>)
    requires e <= |arr| && i < |ops| && ops[i].add && !NextSame(ops, i)
    ensures var e1 := Skip(arr, e, ops[i].customer); var n := NewRecord(ops[i]);
            && Run(arr, ops, e, i, acc, notes) == Run(arr, ops, e1, i + 1, acc + arr[e..e1] + [n], notes + [Note(true, n)])
            && (i + 1 == |ops| ==>
              Run(arr, ops, e, i, acc, notes) == Done(Finish(arr, e1, acc + arr[e..e1] + [n]), notes + [Note(true, n)]))
  {
    hide Skip, NewRecord;
  }
}
