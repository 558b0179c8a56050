/** Every table that additions, removals and socket removals can build, with prefixes
    that may carry bits beyond their length: when validation is exact, and when the
    trie code reads bits past the address. */
module TableRuns {
  import opened Trie
  import opened PfxTree
  import opened OriginValidation

  // ----- Every table the operations can build -----

  datatype TableOp = Put(record: Record) | Take(record: Record) | Forget(socket: nat)

  function Perform(t: Tree, op: TableOp): Tree {
    match op
    case Put(r) => PfxTree.Add(t, r).1
    case Take(r) => PfxTree.Remove(t, r).1
    case Forget(socket) => SrcRemove(t, socket).0
  }

  /** The tree after a sequence of operations on an empty table. */
  function Built(ops: seq<TableOp>): Tree {
    if ops == [] then Nil else Perform(Built(ops[..|ops| - 1]), ops[|ops| - 1])
  }

  ghost function PutRecords(ops: seq<TableOp>): set<Record> {
    set op | op in ops && op.Put? :: op.record
  }

  lemma PerformKeeps(t: Tree, op: TableOp, w: nat)
    requires Inv(t, [], w) && (op.Put? ==> |op.record.prefix| == w)
    ensures Inv(Perform(t, op), [], w)
    ensures Records(Perform(t, op)) <= Records(t) + (if op.Put? then {op.record} else {})
  {
    match op
    case Put(r) => AddInserts(t, r, w);
    case Take(r) => RemoveDeletes(t, r, w);
    case Forget(socket) => SrcRemoveKeepsInv(t, socket, [], w); SrcRemoveRecords(t, socket, [], w);
  }

  lemma {:induction false} BuiltKeeps(ops: seq<TableOp>, w: nat)
    requires forall op :: op in ops && op.Put? ==> |op.record.prefix| == w
    ensures Inv(Built(ops), [], w) && Records(Built(ops)) <= PutRecords(ops)
  {
    if ops != [] {
      var before, last := ops[..|ops| - 1], ops[|ops| - 1];
      assert ops == before + [last] && last in ops;
      BuiltKeeps(before, w);
      PerformKeeps(Built(before), last, w);
    }
  }

  /** Over every sequence of additions, removals and socket removals of arbitrary
      prefixes: the walk is exact if and only if no node sits deeper than its length,
      and so whenever no two added records stand for the same prefix with different
      bits beyond its length, in particular when all are canonical. */
  lemma EveryTable(ops: seq<TableOp>, w: nat)
    requires forall op :: op in ops && op.Put? ==> |op.record.prefix| == w
    ensures Exact(Built(ops), w) <==> LevelsFit(Built(ops), 0)
    ensures OnePrefixOneKey(PutRecords(ops)) ==> Exact(Built(ops), w)
    ensures (forall r :: r in PutRecords(ops) ==> Canonical(r.prefix, r.minLen, w)) ==> Exact(Built(ops), w)
  {
    BuiltKeeps(ops, w);
    WalkExactIffLevelsFit(Built(ops), w);
    if forall r :: r in PutRecords(ops) ==> Canonical(r.prefix, r.minLen, w) { CanonicalIsOneKey(PutRecords(ops), w); }
    if OnePrefixOneKey(PutRecords(ops)) { OneKeyLevels(Built(ops), w); }
  }

  function Zeros(w: nat): (a: Addr)
    ensures |a| == w
  {
    seq(w, _ => false)
  }

  lemma BuiltSnoc(ops: seq<TableOp>, op: TableOp)
    ensures Built(ops + [op]) == Perform(Built(ops), op)
  {
    assert (ops + [op])[..|ops|] == ops;
  }

  function StrayRecords(): (Record, Record, Record) {
    var zero := Zeros(32);
    (Record(zero[1 := true], 1, 32, 1, 0), Record(zero, 1, 32, 2, 0), Record(zero[2 := true], 1, 32, 7, 0))
  }

  /** The three nodes hang below each other. */
  lemma StrayTree() returns (bottom: Tree, middle: Tree, top: Tree)
    ensures var (r1, r2, r3) := StrayRecords();
            && bottom == Node(r3.prefix, 1, [Elem(7, 32, 0)], Nil, Nil)
            && middle == Node(r2.prefix, 1, [Elem(2, 32, 0)], bottom, Nil)
            && top == Node(r1.prefix, 1, [Elem(1, 32, 0)], middle, Nil)
            && top == Built([Put(r1), Put(r2), Put(r3)])
  {
    hide Built;
    var (r1, r2, r3) := StrayRecords();
    assert !r2.prefix[1] && r1.prefix[1] && !r3.prefix[1];
    bottom := Node(r3.prefix, 1, [Elem(7, 32, 0)], Nil, Nil);
    middle := Node(r2.prefix, 1, [Elem(2, 32, 0)], bottom, Nil);
    top := Node(r1.prefix, 1, [Elem(1, 32, 0)], middle, Nil);
    var m := Node(r2.prefix, 1, [Elem(2, 32, 0)], Nil, Nil);
    var t1 := Node(r1.prefix, 1, [Elem(1, 32, 0)], Nil, Nil);
    var t2 := t1.(left := m);
    assert Built([]) == Nil by { BuiltNothing(); }
    BuiltSnoc([], Put(r1));
    assert [] + [Put(r1)] == [Put(r1)];
    assert Built([Put(r1)]) == t1;
    BuiltSnoc([Put(r1)], Put(r2));
    assert LookupExact(t1, r2.prefix, 1, 0) == (false, []);
    assert Insert(Nil, r2.prefix, 1, [Elem(2, 32, 0)], 1) == m;
    assert Built([Put(r1), Put(r2)]) == t2 by { assert [Put(r1)] + [Put(r2)] == [Put(r1), Put(r2)]; }
    BuiltSnoc([Put(r1), Put(r2)], Put(r3));
    assert r3.prefix[2] && !r2.prefix[2];
    assert LookupExact(m, r3.prefix, 1, 1) == (false, []);
    assert r3.prefix != r1.prefix && !r3.prefix[0] && [false] + [] == [false];
    assert LookupExact(t2, r3.prefix, 1, 0) == (false, [false]);
    assert Insert(Nil, r3.prefix, 1, [Elem(7, 32, 0)], 2) == bottom;
    assert Insert(m, r3.prefix, 1, [Elem(7, 32, 0)], 1) == middle;
    assert [false][1..] == [];
    assert ReplaceAt(m, [], middle) == middle && At(m, []) == m;
    assert At(t2, [false]) == m && ReplaceAt(t2, [false], middle) == top;
    assert [Put(r1), Put(r2)] + [Put(r3)] == [Put(r1), Put(r2), Put(r3)];
  }

  lemma BuiltNothing()
    ensures Built([]) == Nil
  {
  }

  /** The tree above is not exact. */
  lemma StrayTreeHides()
    ensures var (r1, r2, r3) := StrayRecords();
            var t := Built([Put(r1), Put(r2), Put(r3)]); !LevelsFit(t, 0) && !Exact(t, 32)
  {
    var (r1, r2, r3) := StrayRecords();
    var bottom, middle, top := StrayTree();
    assert !LevelsFit(bottom, 2) && !LevelsFit(middle, 1) && !LevelsFit(top, 0);
    EveryTable([Put(r1), Put(r2), Put(r3)], 32);
  }

  /** Three announcements of length 1 that differ only beyond their length: the walk
      calls a route invalid that the scan calls valid. */
  lemma StrayBitHidesRecord()
    ensures var (r1, r2, r3) := StrayRecords();
            var t := Built([Put(r1), Put(r2), Put(r3)]);
            && Validate(t, 7, r1.prefix, 1).0 == Invalid
            && Scan(Records(t), 7, r1.prefix, 1) == Valid
  {
    var (r1, r2, r3) := StrayRecords();
    var bottom, middle, top := StrayTree();
    hide Built;
    var q := r1.prefix;
    assert q[..1] == r2.prefix[..1] == r3.prefix[..1] == [false];
    assert q[1] && !q[0];
    WalkNil(q, 1, 2);
    assert Walk(middle, q, 1, 1) == [middle];
    assert Walk(top, q, 1, 0) == [top, middle];
    assert !ElemMatches(top.data, 7, 1) && !ElemMatches(middle.data, 7, 1);
    assert [top, middle][1..] == [middle] && [middle][1..] == [];
    assert Visit([], 7, 1) == (false, []);
    assert !Visit([middle], 7, 1).0;
    assert Elem(7, 32, 0) in bottom.data && r3 == ToRecord(bottom.prefix, 1, Elem(7, 32, 0));
    assert r3 in Records(bottom) && r3 in Records(middle) && r3 in Records(top);
    assert Matching(r3, 7, q, 1);
  }

  // ----- Bits past the address -----

  /** How many bits of the route rtr_pfx_table_validate_r reads, from bit `lvl` on: one
      below each node that it does not stop at. */
  function BitsRead(t: Tree, asn: nat, q: Addr, qlen: nat, lvl: nat): nat {
    if t.Nil? || (Covers(t.prefix, t.len, q, qlen) && ElemMatches(t.data, asn, qlen)) then 0
    else 1 + BitsRead(Child(t, Bit(q, lvl)), asn, q, qlen, lvl + 1)
  }

  /** How many bits trie_insert reads. */
  function InsertReads(t: Tree, prefix: Addr, len: nat, lvl: nat): nat {
    if t.Nil? then 0
    else if len < t.len then 1 + InsertReads(Child(t, Bit(t.prefix, lvl)), t.prefix, t.len, lvl + 1)
    else 1 + InsertReads(Child(t, Bit(prefix, lvl)), prefix, len, lvl + 1)
  }

  /** The nodes on the route's path. */
  function OnPath(t: Tree, q: Addr, lvl: nat): seq<Tree> {
    if t.Nil? then [] else [t] + OnPath(Child(t, Bit(q, lvl)), q, lvl + 1)
  }

  /** Unless a node matches, one bit is read below each node on the path. */
  lemma {:induction false} ReadsUntilMatch(t: Tree, asn: nat, q: Addr, qlen: nat, lvl: nat)
    ensures BitsRead(t, asn, q, qlen, lvl) <= |OnPath(t, q, lvl)|
    ensures BitsRead(t, asn, q, qlen, lvl) == |OnPath(t, q, lvl)| <==> !Visit(WalkOf(t, q, qlen, lvl), asn, qlen).0
  {
    if t.Node? {
      ReadsUntilMatch(Child(t, Bit(q, lvl)), asn, q, qlen, lvl + 1);
      VisitFirst(t, asn, q, qlen, lvl);
    }
  }

  lemma {:induction false} PathLength(t: Tree, q: Addr, path: seq<bool>, w: nat)
    requires Inv(t, path, w) && LevelsFit(t, |path|) && |q| == w && Routed(q, path) && |path| <= w
    requires forall k :: k in Keys(t) ==> k.1 <= w
    ensures |path| + |OnPath(t, q, |path|)| <= w + 1
    ensures |path| + |OnPath(t, q, |path|)| == w + 1 ==> (q, w) in Keys(t)
  {
    if t.Node? {
      var b := Bit(q, |path|);
      RoutedOn(q, path, b);
      if |path| == w {
        NoChildPastWidth(t, path, w);
        forall i | 0 <= i < w ensures Bit(q, i) == Bit(t.prefix, i) { assert path[i] == Bit(q, i); }
        SameBits(q, t.prefix);
        assert OnPath(Nil, q, |path| + 1) == [];
      } else {
        PathLength(Child(t, b), q, path + [b], w);
      }
    }
  }

  /** In a table of canonical prefixes validation reads at most one bit past the
      address. It reads that bit if and only if there is a node at every level of the
      route's path and none matches; one of them is then the full address itself. */
  lemma ReadsPastAddress(t: Tree, asn: nat, q: Addr, qlen: nat, w: nat)
    requires Inv(t, [], w) && |q| == w && forall k :: k in Keys(t) ==> Canonical(k.0, k.1, w)
    ensures BitsRead(t, asn, q, qlen, 0) <= w + 1
    ensures BitsRead(t, asn, q, qlen, 0) == w + 1
       <==> |OnPath(t, q, 0)| == w + 1 && Validate(t, asn, q, qlen).0 != Valid
    ensures |OnPath(t, q, 0)| == w + 1 ==> (q, w) in Keys(t)
  {
    CanonicalUnambiguous(Keys(t), w);
    LevelAtMostLength(t, [], w);
    PathLength(t, q, [], w);
    ReadsUntilMatch(t, asn, q, qlen, 0);
  }

  function WalkOf(t: Tree, q: Addr, qlen: nat, lvl: nat): (nodes: seq<Tree>)
    ensures nodes == Walk(t, q, qlen, lvl) && forall n :: n in nodes ==> n.Node?
  {
    WalkNodes(t, q, qlen, lvl);
    Walk(t, q, qlen, lvl)
  }

  lemma VisitFirst(t: Tree, asn: nat, q: Addr, qlen: nat, lvl: nat)
    requires t.Node?
    ensures Visit(WalkOf(t, q, qlen, lvl), asn, qlen).0
        <==> (Covers(t.prefix, t.len, q, qlen) && ElemMatches(t.data, asn, qlen))
             || Visit(WalkOf(Child(t, Bit(q, lvl)), q, qlen, lvl + 1), asn, qlen).0
  {
    var rest := WalkOf(Child(t, Bit(q, lvl)), q, qlen, lvl + 1);
    WalkStep(t, q, qlen, lvl);
    assert ([t] + rest)[1..] == rest && [] + rest == rest;
    if Covers(t.prefix, t.len, q, qlen) {
      assert WalkOf(t, q, qlen, lvl) == [t] + rest;
    } else {
      assert WalkOf(t, q, qlen, lvl) == rest;
    }
  }

  /** Adding a canonical prefix to a table of canonical prefixes reads no bit past the
      address: the prefix that moves down is always longer than the level it is at. */
  lemma {:induction false} InsertReadsInside(t: Tree, prefix: Addr, len: nat, data: seq<Elem>, path: seq<bool>, w: nat)
    requires Inv(t, path, w) && LevelsFit(t, |path|) && Insertable(t, prefix, len, data, path, w)
    requires Unambiguous(Keys(t) + {(prefix, len)}) && forall k :: k in Keys(t) + {(prefix, len)} ==> k.1 <= w
    requires |path| <= len
    ensures |path| + InsertReads(t, prefix, len, |path|) <= w
  {
    if t.Node? {
      assert (t.prefix, t.len) in Keys(t);
      var (p, l, d) := if len < t.len then (t.prefix, t.len, t.data) else (prefix, len, data);
      var b := Bit(p, |path|);
      RoutedOn(p, path, b);
      if l == |path| {
        forall i | 0 <= i < len ensures Bit(t.prefix, i) == Bit(prefix, i) { assert path[i] == Bit(prefix, i); }
        assert SamePrefix((t.prefix, t.len), (prefix, len));
      }
      InsertReadsInside(Child(t, b), p, l, d, path + [b], w);
    }
  }

  /** All prefixes of the zero address from one length on, below each other. */
  function Chain(w: nat, from: nat, count: nat): Tree
    decreases count
  {
    if count == 0 then Nil else Node(Zeros(w), from, [Elem(1, w, 0)], Chain(w, from + 1, count - 1), Nil)
  }

  /** The same, below a prefix of length 0 whose first bit is set if `stray`. */
  function Tower(w: nat, stray: bool, count: nat): Tree
    requires stray ==> 0 < w
  {
    if stray then Node(Zeros(w)[0 := true], 0, [Elem(1, w, 0)], Chain(w, 0, count), Nil) else Chain(w, 0, count)
  }

  function TowerOps(w: nat, stray: bool, count: nat): (ops: seq<TableOp>)
    requires stray ==> 0 < w
    ensures forall op :: op in ops ==> op.Put? && |op.record.prefix| == w
  {
    if count == 0 then if stray then [Put(Record(Zeros(w)[0 := true], 0, w, 1, 0))] else []
    else TowerOps(w, stray, count - 1) + [Put(Record(Zeros(w), count - 1, w, 1, 0))]
  }

  lemma {:induction false} ChainInsert(w: nat, from: nat, count: nat, lvl: nat)
    ensures Insert(Chain(w, from, count), Zeros(w), from + count, [Elem(1, w, 0)], lvl) == Chain(w, from, count + 1)
    ensures InsertReads(Chain(w, from, count), Zeros(w), from + count, lvl) == count
    ensures forall k :: k in Keys(Chain(w, from, count)) ==> k.1 < from + count
    decreases count
  {
    if count != 0 { ChainInsert(w, from + 1, count - 1, lvl + 1); }
  }

  lemma {:induction false} TowerIsBuilt(w: nat, stray: bool, count: nat)
    requires stray ==> 0 < w
    ensures Built(TowerOps(w, stray, count)) == Tower(w, stray, count)
  {
    hide Built, Perform, Tower;
    if count == 0 {
      TowerStarts(w, stray);
    } else {
      TowerIsBuilt(w, stray, count - 1);
      BuiltKeeps(TowerOps(w, stray, count - 1), w);
      BuiltSnoc(TowerOps(w, stray, count - 1), Put(Record(Zeros(w), count - 1, w, 1, 0)));
      TowerGrows(w, stray, count - 1);
    }
  }

  lemma TowerStarts(w: nat, stray: bool)
    requires stray ==> 0 < w
    ensures Built(TowerOps(w, stray, 0)) == Tower(w, stray, 0)
  {
    BuiltNothing();
    if stray {
      hide Built;
      BuiltSnoc([], Put(Record(Zeros(w)[0 := true], 0, w, 1, 0)));
      assert [] + TowerOps(w, stray, 0) == TowerOps(w, stray, 0);
    }
  }

  lemma TowerGrows(w: nat, stray: bool, count: nat)
    requires (stray ==> 0 < w) && Inv(Tower(w, stray, count), [], w)
    ensures Perform(Tower(w, stray, count), Put(Record(Zeros(w), count, w, 1, 0))) == Tower(w, stray, count + 1)
  {
    var t := Tower(w, stray, count);
    ChainInsert(w, 0, count, if stray then 1 else 0);
    assert stray ==> Zeros(w)[0 := true] != Zeros(w) by { if stray { assert Zeros(w)[0 := true][0] != Zeros(w)[0]; } }
    assert (Zeros(w), count) !in Keys(t);
    if t.Node? {
      LookupExactFinds(t, Zeros(w), count, [], w);
      InsertWhereStopped(t, Zeros(w), count, [Elem(1, w, 0)], [], w);
    }
  }

  lemma {:induction false} ChainReads(w: nat, from: nat, count: nat, lvl: nat)
    ensures BitsRead(Chain(w, from, count), 2, Zeros(w), w, lvl) == count
    decreases count
  {
    if count != 0 { ChainReads(w, from + 1, count - 1, lvl + 1); }
  }

  /** At every width there are such tables: with all prefixes of an address stored,
      validating the address for another origin reads bit `w`; below one stray bit,
      adding the address itself does. */
  lemma SomeReadPastAddress(w: nat)
    requires 0 < w
    ensures w < BitsRead(Built(TowerOps(w, false, w + 1)), 2, Zeros(w), w, 0)
    ensures w < InsertReads(Built(TowerOps(w, true, w)), Zeros(w), w, 0)
  {
    TowerIsBuilt(w, false, w + 1);
    ChainReads(w, 0, w + 1, 0);
    TowerIsBuilt(w, true, w);
    ChainInsert(w, 0, w, 1);
  }
}
