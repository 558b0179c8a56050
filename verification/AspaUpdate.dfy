/** The swap-in update of rtrlib/aspa/aspa.c: a batch of announcements and withdrawals is
    sorted by customer and merged into the socket's sorted array of records. */
module AspaUpdate {
  import opened AspaTable

  /** struct aspa_update_operation. Its index is the position in the batch. */
  datatype Op = Op(add: bool, customer: nat, providers: seq<nat>)

  datatype Status = DuplicateRecord | RecordNotFound

  /** One notification of a client. */
  datatype Note = Note(added: bool, record: AspaRecord)

  datatype Outcome =
    | Done(arr: seq<AspaRecord>, notes: seq<Note>)
    | Failed(status: Status, op: Op)

  // ----- qsort by compare_asns -----

  function InsertAsn(a: nat, s: seq<nat>): seq<nat> {
    if s == [] || a <= s[0] then [a] + s else [s[0]] + InsertAsn(a, s[1..])
  }

  function SortAsns(s: seq<nat>): seq<nat> {
    if s == [] then [] else InsertAsn(s[0], SortAsns(s[1..]))
  }

  lemma {:induction false} InsertAsnKeeps(a: nat, s: seq<nat>)
    ensures multiset(InsertAsn(a, s)) == multiset{a} + multiset(s)
  {
    if s != [] && a > s[0] {
      InsertAsnKeeps(a, s[1..]);
      assert s == [s[0]] + s[1..];
    }
  }

  lemma FromEither(r: seq<nat>, a: nat, s: seq<nat>, i: nat)
    requires multiset(r) == multiset{a} + multiset(s) && i < |r|
    ensures r[i] == a || r[i] in s
  {
    assert r[i] in multiset(r);
  }

  lemma ConsAscending(h: nat, r: seq<nat>)
    requires Ascending(r) && forall i :: 0 <= i < |r| ==> h <= r[i]
    ensures Ascending([h] + r)
  {
  }

  lemma InsertLater(a: nat, s: seq<nat>)
    requires s != [] && a > s[0]
    ensures InsertAsn(a, s) == [s[0]] + InsertAsn(a, s[1..])
  {
  }

  lemma {:induction false} InsertAsnSorts(a: nat, s: seq<nat>)
    requires Ascending(s)
    ensures Ascending(InsertAsn(a, s))
  {
    if s != [] && a > s[0] {
      var r := InsertAsn(a, s[1..]);
      InsertAsnSorts(a, s[1..]);
      InsertAsnKeeps(a, s[1..]);
      forall i | 0 <= i < |r| ensures s[0] <= r[i] { FromEither(r, a, s[1..], i); }
      hide InsertAsn;
      ConsAscending(s[0], r);
      assert InsertAsn(a, s) == [s[0]] + r by { InsertLater(a, s); }
    }
  }

  /** Sorting the providers keeps exactly the providers, in ascending order. */
  lemma {:induction false} SortAsnsSorts(s: seq<nat>)
    ensures Ascending(SortAsns(s)) && multiset(SortAsns(s)) == multiset(s)
  {
    if s != [] {
      SortAsnsSorts(s[1..]);
      InsertAsnSorts(s[0], SortAsns(s[1..]));
      InsertAsnKeeps(s[0], SortAsns(s[1..]));
      assert s == [s[0]] + s[1..];
    }
  }

  // ----- What an update means -----

  type Providers = map<nat, seq<nat>>

  datatype Folded = Ok(m: Providers) | Err(status: Status, op: Op)

  /** An announcement is refused if the batch's last operation on the customer announced
      it too (`announced` holds those customers); a withdrawal needs a present record. */
  predicate Accepts(m: Providers, announced: set<nat>, o: Op) {
    if o.add then o.customer !in announced else o.customer in m
  }

  function Apply(m: Providers, o: Op): Providers {
    if o.add then m[o.customer := SortAsns(o.providers)] else m - {o.customer}
  }

  function Announce(announced: set<nat>, o: Op): set<nat> {
    if o.add then announced + {o.customer} else announced - {o.customer}
  }

  /** The operations one after another. */
  function Fold(m: Providers, announced: set<nat>, ops: seq<Op>): Folded
    decreases |ops|
  {
    if ops == [] then Ok(m)
    else
      var o := ops[0];
      if !Accepts(m, announced, o) then Err(if o.add then DuplicateRecord else RecordNotFound, o)
      else Fold(Apply(m, o), Announce(announced, o), ops[1..])
  }

  function Replay(notes: seq<Note>, m: Providers): Providers {
    if notes == [] then m
    else
      var n := notes[0];
      Replay(notes[1..], if n.added then m[n.record.customer := n.record.providers] else m - {n.record.customer})
  }

  ghost predicate StrictlySorted(arr: seq<AspaRecord>) {
    forall i, j :: 0 <= i < j < |arr| ==> arr[i].customer < arr[j].customer
  }

  // ----- The stable sort of the batch -----

  function InsertOp(o: Op, ops: seq<Op>): seq<Op> {
    if ops == [] || o.customer <= ops[0].customer then [o] + ops else [ops[0]] + InsertOp(o, ops[1..])
  }

  /** qsort by compare_update_operations: by customer, and by arrival for one customer,
      because the operations' indices break the ties. */
  function SortOps(ops: seq<Op>): seq<Op> {
    if ops == [] then [] else InsertOp(ops[0], SortOps(ops[1..]))
  }

  ghost predicate SortedOps(ops: seq<Op>) {
    forall i, j :: 0 <= i < j < |ops| ==> ops[i].customer <= ops[j].customer
  }

  /** Both fail, or both succeed with the same map. */
  ghost predicate SameEffect(a: Folded, b: Folded) {
    if a.Ok? then b == a else b.Err?
  }

  /** Operations on different customers commute. */
  lemma SwapOps(m: Providers, announced: set<nat>, a: Op, b: Op, rest: seq<Op>)
    requires a.customer != b.customer
    ensures SameEffect(Fold(m, announced, [a, b] + rest), Fold(m, announced, [b, a] + rest))
  {
    FoldTwo(m, announced, a, b, rest);
    FoldTwo(m, announced, b, a, rest);
    assert Apply(Apply(m, a), b) == Apply(Apply(m, b), a);
    assert Announce(Announce(announced, a), b) == Announce(Announce(announced, b), a);
  }

  lemma FoldTwo(m: Providers, announced: set<nat>, a: Op, b: Op, rest: seq<Op>)
    ensures var f := Fold(m, announced, [a, b] + rest);
            if Accepts(m, announced, a) && Accepts(Apply(m, a), Announce(announced, a), b)
            then f == Fold(Apply(Apply(m, a), b), Announce(Announce(announced, a), b), rest)
            else f.Err?
  {
    assert ([a, b] + rest)[1..] == [b] + rest && ([b] + rest)[1..] == rest;
  }

  lemma {:induction false} InsertOpSameEffect(m: Providers, announced: set<nat>, o: Op, ops: seq<Op>)
    ensures SameEffect(Fold(m, announced, [o] + ops), Fold(m, announced, InsertOp(o, ops)))
    decreases |ops|
  {
    if ops != [] && o.customer > ops[0].customer {
      var h, rest := ops[0], ops[1..];
      assert [o] + ops == [o, h] + rest;
      SwapOps(m, announced, o, h, rest);
      assert ([h, o] + rest)[1..] == [o] + rest;
      InsertOpSameEffect(Apply(m, h), Announce(announced, h), o, rest);
      assert ([h] + InsertOp(o, rest))[1..] == InsertOp(o, rest);
    }
  }

  /** Sorting the batch changes neither whether it is accepted nor what it does. */
  lemma {:induction false} SortSameEffect(m: Providers, announced: set<nat>, ops: seq<Op>)
    ensures SameEffect(Fold(m, announced, ops), Fold(m, announced, SortOps(ops)))
    decreases |ops|
  {
    if ops != [] {
      var o, sorted := ops[0], SortOps(ops[1..]);
      InsertOpSameEffect(m, announced, o, sorted);
      assert ([o] + sorted)[1..] == sorted;
      SortSameEffect(Apply(m, o), Announce(announced, o), ops[1..]);
    }
  }

  lemma {:induction false} InsertOpKeeps(o: Op, ops: seq<Op>)
    ensures multiset(InsertOp(o, ops)) == multiset{o} + multiset(ops)
  {
    if ops != [] && o.customer > ops[0].customer {
      InsertOpKeeps(o, ops[1..]);
      assert ops == [ops[0]] + ops[1..];
    }
  }

  lemma {:induction false} InsertOpSorts(o: Op, ops: seq<Op>)
    requires SortedOps(ops)
    ensures SortedOps(InsertOp(o, ops))
  {
    if ops != [] && o.customer > ops[0].customer {
      var r := InsertOp(o, ops[1..]);
      InsertOpSorts(o, ops[1..]);
      InsertOpKeeps(o, ops[1..]);
      forall i | 0 <= i < |r| ensures ops[0].customer <= r[i].customer {
        assert r[i] in multiset(r);
        assert r[i] == o || r[i] in ops[1..];
      }
    }
  }

  lemma {:induction false} SortOpsSorts(ops: seq<Op>)
    ensures SortedOps(SortOps(ops)) && multiset(SortOps(ops)) == multiset(ops)
  {
    if ops != [] {
      SortOpsSorts(ops[1..]);
      InsertOpSorts(ops[0], SortOps(ops[1..]));
      InsertOpKeeps(ops[0], SortOps(ops[1..]));
      assert ops == [ops[0]] + ops[1..];
    }
  }
}
