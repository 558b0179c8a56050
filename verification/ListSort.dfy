/** The list merge sort of third-party/tommyds/tommychain.h and tommylist.c, on linked nodes:
    a stable sort that keeps the links of the list correct. */
module ListSort {
  import opened Powers

  /** tommy_node, with the key its data is compared by. */
  class ListNode {
    const key: nat
    var next: ListNode?
    var prev: ListNode?

    constructor (key: nat)
      ensures this.key == key && next == null && prev == this
    {
      this.key, next := key, null;
      prev := this;
    }
  }

  /** tommy_chain. */
  datatype Chain = Chain(head: ListNode, tail: ListNode)

  ghost predicate NoRepeats(c: seq<ListNode>) {
    forall i, j :: 0 <= i < j < |c| ==> c[i] != c[j]
  }

  /** The inner links; head.prev and tail.next are open. */
  ghost predicate Linked(c: seq<ListNode>)
    reads c
  {
    && (forall i :: 0 <= i < |c| - 1 ==> c[i].next == c[i + 1])
    && (forall i :: 0 < i < |c| ==> c[i].prev == c[i - 1])
  }

  ghost predicate IsChain(h: Chain, c: seq<ListNode>)
    reads c
  {
    c != [] && h.head == c[0] && h.tail == c[|c| - 1] && NoRepeats(c) && Linked(c)
  }

  ghost function Nodes(c: seq<ListNode>): set<ListNode> {
    set n | n in c
  }

  // ----- Stable merging -----

  ghost predicate Sorted(c: seq<ListNode>) {
    forall i, j :: 0 <= i < j < |c| ==> c[i].key <= c[j].key
  }

  /** The nodes with one key, in order. */
  function OfKey(c: seq<ListNode>, k: nat): seq<ListNode> {
    if c == [] then [] else if c[0].key == k then [c[0]] + OfKey(c[1..], k) else OfKey(c[1..], k)
  }

  lemma OfKeyCons(n: ListNode, rest: seq<ListNode>, k: nat)
    ensures OfKey([n] + rest, k) == if n.key == k then [n] + OfKey(rest, k) else OfKey(rest, k)
  {
    assert ([n] + rest)[1..] == rest;
  }

  lemma {:induction false} OfKeyConcat(a: seq<ListNode>, b: seq<ListNode>, k: nat)
    ensures OfKey(a + b, k) == OfKey(a, k) + OfKey(b, k)
  {
    if a == [] {
      assert a + b == b;
    } else {
      var x, rest := a[0], a[1..];
      assert a == [x] + rest && a + b == [x] + (rest + b);
      OfKeyConcat(rest, b, k);
      hide OfKey;
      OfKeyCons(x, rest, k);
      OfKeyCons(x, rest + b, k);
      assert [x] + (OfKey(rest, k) + OfKey(b, k)) == [x] + OfKey(rest, k) + OfKey(b, k);
    }
  }

  /** The same nodes, those of equal key in the same order: a stable permutation. */
  ghost predicate SameByKey(a: seq<ListNode>, b: seq<ListNode>) {
    forall k: nat :: OfKey(a, k) == OfKey(b, k)
  }

  lemma {:induction false} OfKeyCounts(c: seq<ListNode>, n: ListNode)
    ensures multiset(OfKey(c, n.key))[n] == multiset(c)[n]
  {
    if c != [] {
      OfKeyCounts(c[1..], n);
      assert c == [c[0]] + c[1..];
    }
  }

  /** It is a permutation. */
  lemma SameByKeyPermutes(a: seq<ListNode>, b: seq<ListNode>, n: ListNode)
    requires SameByKey(a, b)
    ensures multiset(a)[n] == multiset(b)[n]
  {
    OfKeyCounts(a, n);
    OfKeyCounts(b, n);
  }

  function MergeOf(a: seq<ListNode>, b: seq<ListNode>): seq<ListNode> {
    if a == [] then b
    else if b == [] then a
    else if a[0].key > b[0].key then [b[0]] + MergeOf(a, b[1..])
    else [a[0]] + MergeOf(a[1..], b)
  }

  lemma {:induction false} MergeMembers(a: seq<ListNode>, b: seq<ListNode>)
    ensures |MergeOf(a, b)| == |a| + |b|
    ensures forall n :: n in MergeOf(a, b) <==> n in a || n in b
  {
    if a != [] && b != [] {
      if a[0].key > b[0].key { MergeMembers(a, b[1..]); } else { MergeMembers(a[1..], b); }
    }
  }

  lemma {:induction false} MergeSorted(a: seq<ListNode>, b: seq<ListNode>)
    requires Sorted(a) && Sorted(b)
    ensures Sorted(MergeOf(a, b))
  {
    if a != [] && b != [] {
      if a[0].key > b[0].key {
        MergeSorted(a, b[1..]);
        MergeMembers(a, b[1..]);
        SortedCons(b[0], MergeOf(a, b[1..]), a, b[1..]);
      } else {
        MergeSorted(a[1..], b);
        MergeMembers(a[1..], b);
        SortedCons(a[0], MergeOf(a[1..], b), a[1..], b);
      }
    }
  }

  lemma SortedCons(n: ListNode, m: seq<ListNode>, a: seq<ListNode>, b: seq<ListNode>)
    requires Sorted(m) && forall x :: x in m <==> x in a || x in b
    requires (forall x :: x in a ==> n.key <= x.key) && (forall x :: x in b ==> n.key <= x.key)
    ensures Sorted([n] + m)
  {
    assert forall i :: 0 <= i < |m| ==> m[i] in m;
  }

  lemma {:induction false} MergeStable(a: seq<ListNode>, b: seq<ListNode>, k: nat)
    requires Sorted(a) && Sorted(b)
    ensures OfKey(MergeOf(a, b), k) == OfKey(a, k) + OfKey(b, k)
  {
    if a == [] || b == [] {
      NoKeys(k);
    } else {
      hide OfKey, MergeOf;
      MergeStep(a, b);
      var x, y := a[0], b[0];
      assert a == [x] + a[1..] && b == [y] + b[1..];
      if x.key > y.key {
        MergeStable(a, b[1..], k);
        OfKeyCons(y, MergeOf(a, b[1..]), k);
        OfKeyCons(y, b[1..], k);
        if y.key == k { NoneBelow(a, k); }
      } else {
        MergeStable(a[1..], b, k);
        OfKeyCons(x, MergeOf(a[1..], b), k);
        OfKeyCons(x, a[1..], k);
      }
    }
  }

  lemma NoKeys(k: nat)
    ensures OfKey([], k) == []
  {
  }

  lemma {:induction false} NoneBelow(a: seq<ListNode>, k: nat)
    requires forall x :: x in a ==> k < x.key
    ensures OfKey(a, k) == []
  {
    if a != [] { NoneBelow(a[1..], k); }
  }

  // ----- tommy_chain_merge -----

  ghost function Inserted(f: seq<ListNode>, i: nat, n: ListNode): seq<ListNode>
    requires i <= |f|
  {
    f[..i] + [n] + f[i..]
  }

  /** tommy_chain_concat before the head, or tommy_chain_splice of one node further on. */
  method LinkBefore(at: ListNode, isHead: bool, n: ListNode, ghost f: seq<ListNode>, ghost i: nat)
    requires i < |f| && f[i] == at && (isHead <==> i == 0) && n !in f && NoRepeats(f) && Linked(f)
    modifies Nodes(f), n
    ensures Linked(Inserted(f, i, n)) && NoRepeats(Inserted(f, i, n))
  {
    if isHead {
      at.prev := n;
      n.next := at;
    } else {
      var before := at.prev;
      assert before == f[i - 1];
      at.prev := n;
      n.prev := before;
      before.next := n;
      n.next := at;
    }
  }

  /** tommy_chain_concat behind the tail. */
  method LinkAfter(tail: ListNode, head: ListNode, ghost f: seq<ListNode>, ghost s: seq<ListNode>)
    requires f != [] && s != [] && f[|f| - 1] == tail && s[0] == head
    requires NoRepeats(f) && NoRepeats(s) && Linked(f) && Linked(s) && Nodes(f) !! Nodes(s)
    modifies tail, head
    ensures Linked(f + s) && NoRepeats(f + s)
  {
    Apart(f, s);
    assert forall i :: 0 <= i < |f| ==> f[i] in Nodes(f);
    assert forall i :: 0 <= i < |s| ==> s[i] in Nodes(s);
    head.prev := tail;
    tail.next := head;
  }

  lemma Apart(f: seq<ListNode>, s: seq<ListNode>)
    requires NoRepeats(f) && NoRepeats(s) && Nodes(f) !! Nodes(s)
    ensures NoRepeats(f + s)
  {
    forall i, j | 0 <= i < j < |f + s| ensures (f + s)[i] != (f + s)[j] {
      if i < |f| <= j { assert (f + s)[i] in Nodes(f) && (f + s)[j] in Nodes(s); }
    }
  }

  /** The two chains in the middle of a merge: `f` from `fi` on and `s` are still to be
      compared. */
  ghost predicate Merging(f: seq<ListNode>, fi: nat, s: seq<ListNode>, goal: seq<ListNode>, all: set<ListNode>)
    reads f, s
  {
    && fi < |f| && s != [] && NoRepeats(f) && NoRepeats(s) && Linked(f) && Linked(s)
    && Nodes(f) !! Nodes(s) && Nodes(f) + Nodes(s) == all
    && goal == f[..fi] + MergeOf(f[fi..], s)
  }

  lemma MergeStep(a: seq<ListNode>, b: seq<ListNode>)
    requires a != [] && b != []
    ensures MergeOf(a, b) == if a[0].key > b[0].key then [b[0]] + MergeOf(a, b[1..]) else [a[0]] + MergeOf(a[1..], b)
    ensures MergeOf(a, []) == a && MergeOf([], b) == b
  {
  }

  lemma InsertedParts(f: seq<ListNode>, fi: nat, n: ListNode, rest: seq<ListNode>)
    requires fi < |f|
    ensures var f' := Inserted(f, fi, n);
            && |f'| == |f| + 1 && f'[..fi + 1] == f[..fi] + [n] && f'[fi + 1..] == f[fi..]
            && f[..fi] + ([n] + rest) == f'[..fi + 1] + rest
            && f[..fi] + ([n] + f[fi..]) == f'
  {
    var f' := Inserted(f, fi, n);
    assert f'[..fi + 1] == f[..fi] + [n];
    assert f'[fi + 1..] == f[fi..];
  }

  lemma MergeTakesSecond(f: seq<ListNode>, fi: nat, s: seq<ListNode>)
    requires fi < |f| && s != [] && f[fi].key > s[0].key
    ensures f[..fi] + MergeOf(f[fi..], s) == Inserted(f, fi, s[0])[..fi + 1] + MergeOf(Inserted(f, fi, s[0])[fi + 1..], s[1..])
    ensures |s| == 1 ==> f[..fi] + MergeOf(f[fi..], s) == Inserted(f, fi, s[0])
  {
    hide MergeOf, Inserted;
    InsertedParts(f, fi, s[0], MergeOf(f[fi..], s[1..]));
    MergeStep(f[fi..], s);
    if |s| == 1 { assert s[1..] == []; }
  }

  lemma InsertedNodes(f: seq<ListNode>, fi: nat, s: seq<ListNode>)
    requires fi < |f| && s != [] && NoRepeats(s) && Nodes(f) !! Nodes(s)
    ensures var f' := Inserted(f, fi, s[0]);
            && Nodes(f') == Nodes(f) + {s[0]} && Nodes(s) == {s[0]} + Nodes(s[1..])
            && Nodes(f') !! Nodes(s[1..]) && s[0] !in f
  {
    var f' := Inserted(f, fi, s[0]);
    assert s[0] in Nodes(s);
    assert f == f[..fi] + f[fi..];
    assert s == [s[0]] + s[1..];
    assert s[0] !in s[1..];
  }

  lemma MergeKeepsFirst(f: seq<ListNode>, fi: nat, s: seq<ListNode>)
    requires fi < |f| && s != [] && f[fi].key <= s[0].key
    ensures fi + 1 < |f| ==> f[..fi] + MergeOf(f[fi..], s) == f[..fi + 1] + MergeOf(f[fi + 1..], s)
    ensures fi + 1 == |f| ==> f[..fi] + MergeOf(f[fi..], s) == f + s
  {
    hide MergeOf;
    MergeStep(f[fi..], s);
    assert f[fi..][1..] == f[fi + 1..];
    assert f[..fi + 1] == f[..fi] + [f[fi]];
    if fi + 1 == |f| { assert f[..fi + 1] == f && f[fi + 1..] == []; }
  }

  /** The second chain's head is smaller: it goes before the first chain's current node. */
  method TakeSecond(i: ListNode, isHead: bool, j: ListNode, ghost f: seq<ListNode>, ghost fi: nat, ghost s: seq<ListNode>,
                    ghost goal: seq<ListNode>, ghost all: set<ListNode>) returns (next: ListNode?)
    requires Merging(f, fi, s, goal, all) && i == f[fi] && j == s[0] && i.key > j.key && (isHead <==> fi == 0)
    modifies Nodes(f), j
    ensures var f' := Inserted(f, fi, j);
            && NoRepeats(f') && Linked(f') && Nodes(f') <= all
            && (|s| == 1 ==> goal == f')
            && (|s| > 1 ==> next == s[1] && Merging(f', fi + 1, s[1..], goal, all))
  {
    hide MergeOf;
    next := j.next;
    MergeTakesSecond(f, fi, s);
    InsertedNodes(f, fi, s);
    LinkBefore(i, isHead, j, f, fi);
    TailLinked(s);
  }

  twostate lemma TailLinked(s: seq<ListNode>)
    requires s != [] && NoRepeats(s) && old(Linked(s)) && forall k :: 0 < k < |s| ==> unchanged(s[k])
    ensures Linked(s[1..]) && NoRepeats(s[1..])
  {
  }

  /** The ends of the two chains, and the nodes to be compared next. */
  datatype Cursor = Cursor(head: ListNode, firstTail: ListNode, secondTail: ListNode, i: ListNode, j: ListNode)

  ghost predicate Points(c: Cursor, f: seq<ListNode>, fi: nat, s: seq<ListNode>) {
    && fi < |f| && s != []
    && c.head == f[0] && c.firstTail == f[|f| - 1] && c.secondTail == s[|s| - 1] && c.i == f[fi] && c.j == s[0]
  }

  /** One turn of the merge loop that takes from the second chain; done if that was its last. */
  method StepSecond(c: Cursor, ghost f: seq<ListNode>, ghost fi: nat, ghost s: seq<ListNode>,
                    ghost goal: seq<ListNode>, ghost all: set<ListNode>) returns (done: bool, c': Cursor)
    requires Merging(f, fi, s, goal, all) && Points(c, f, fi, s) && c.i.key > c.j.key
    modifies all
    ensures done ==> IsChain(Chain(c'.head, c'.firstTail), goal)
    ensures !done ==> |s| > 1 && var f' := Inserted(f, fi, s[0]);
                      Merging(f', fi + 1, s[1..], goal, all) && Points(c', f', fi + 1, s[1..])
  {
    hide Linked, NoRepeats, Inserted, Nodes, MergeOf;
    Ends(f, fi, c.j);
    InNodes(f, fi);
    InNodes(s, 0);
    var next := TakeSecond(c.i, c.i == c.head, c.j, f, fi, s, goal, all);
    c' := c.(head := if c.i == c.head then c.j else c.head);
    done := c.j == c.secondTail;
    if done {
      OnlyLast(s);
    } else {
      c' := c'.(j := next);
    }
  }

  /** One turn that goes on in the first chain; done if that was its last node. */
  method StepFirst(c: Cursor, ghost f: seq<ListNode>, ghost fi: nat, ghost s: seq<ListNode>,
                   ghost goal: seq<ListNode>, ghost all: set<ListNode>) returns (done: bool, c': Cursor)
    requires Merging(f, fi, s, goal, all) && Points(c, f, fi, s) && c.i.key <= c.j.key
    modifies all
    ensures done ==> IsChain(Chain(c'.head, c'.firstTail), goal)
    ensures !done ==> fi + 1 < |f| && Merging(f, fi + 1, s, goal, all) && Points(c', f, fi + 1, s)
  {
    hide Linked, NoRepeats, Nodes, MergeOf;
    Ends(f, fi, c.j);
    InNodes(f, fi);
    InNodes(s, 0);
    MergeKeepsFirst(f, fi, s);
    done := c.i == c.firstTail;
    if done {
      LinkAfter(c.i, c.j, f, s);
      c' := c.(firstTail := c.secondTail);
    } else {
      c' := c.(i := c.i.next);
    }
  }

  /** tommy_chain_merge: the nodes are relinked in the order of a stable merge. */
  method Merge(first: Chain, second: Chain, ghost a: seq<ListNode>, ghost b: seq<ListNode>) returns (r: Chain)
    requires IsChain(first, a) && IsChain(second, b) && Nodes(a) !! Nodes(b)
    modifies Nodes(a), Nodes(b)
    ensures IsChain(r, MergeOf(a, b))
  {
    ghost var f, fi: nat, s := a, 0, b;
    ghost var goal, all := MergeOf(a, b), Nodes(a) + Nodes(b);
    assert a[..0] + MergeOf(a[0..], b) == goal by { assert a[0..] == a; }
    hide Linked, NoRepeats, Inserted, Nodes, MergeOf;
    var c := Cursor(first.head, first.tail, second.tail, first.head, second.head);
    var done := false;
    while !done
      invariant if done then IsChain(Chain(c.head, c.firstTail), goal) else Merging(f, fi, s, goal, all) && Points(c, f, fi, s)
      decreases !done, |s|, |f| - fi
    {
      if c.i.key > c.j.key {
        done, c := StepSecond(c, f, fi, s, goal, all);
        if !done { f, fi, s := Inserted(f, fi, s[0]), fi + 1, s[1..]; }
      } else {
        done, c := StepFirst(c, f, fi, s, goal, all);
        if !done { fi := fi + 1; }
      }
    }
    r := Chain(c.head, c.firstTail);
  }

  lemma InNodes(f: seq<ListNode>, i: nat)
    requires i < |f|
    ensures f[i] in Nodes(f)
  {
  }

  lemma Ends(f: seq<ListNode>, fi: nat, n: ListNode)
    requires fi < |f| && NoRepeats(f) && Linked(f)
    ensures f[fi] == f[0] <==> fi == 0
    ensures fi + 1 < |f| ==> f[fi].next == f[fi + 1]
    ensures fi + 1 == |f| <==> f[fi] == f[|f| - 1]
    ensures var f' := Inserted(f, fi, n);
            && |f'| == |f| + 1 && f'[0] == (if fi == 0 then n else f[0]) && f'[|f|] == f[|f| - 1] && f'[fi + 1] == f[fi]
  {
  }

  lemma OnlyLast(s: seq<ListNode>)
    requires s != [] && NoRepeats(s) && s[0] == s[|s| - 1]
    ensures |s| == 1
  {
  }

  // ----- tommy_chain_merge_degenerated -----

  lemma {:induction false} MergeInOrder(a: seq<ListNode>, b: seq<ListNode>)
    requires a != [] && b != [] && Sorted(a) && a[|a| - 1].key <= b[0].key
    ensures MergeOf(a, b) == a + b
  {
    if |a| == 1 {
      assert a[1..] == [];
    } else {
      assert a[0].key <= a[|a| - 1].key;
      MergeInOrder(a[1..], b);
      assert [a[0]] + (a[1..] + b) == a + b;
    }
  }

  lemma {:induction false} MergeReversed(a: seq<ListNode>, b: seq<ListNode>)
    requires a != [] && b != [] && Sorted(b) && b[|b| - 1].key < a[0].key
    ensures MergeOf(a, b) == b + a
  {
    if |b| == 1 {
      assert b[1..] == [];
    } else {
      assert b[0].key <= b[|b| - 1].key;
      MergeReversed(a, b[1..]);
      assert [b[0]] + (b[1..] + a) == b + a;
    }
  }

  /** Two chains that need no interleaving are only concatenated. */
  method MergeDegenerated(first: Chain, second: Chain, ghost a: seq<ListNode>, ghost b: seq<ListNode>) returns (r: Chain)
    requires IsChain(first, a) && IsChain(second, b) && Nodes(a) !! Nodes(b) && Sorted(a) && Sorted(b)
    modifies Nodes(a), Nodes(b)
    ensures IsChain(r, MergeOf(a, b))
  {
    hide MergeOf;
    InNodes(a, 0); InNodes(a, |a| - 1); InNodes(b, 0); InNodes(b, |b| - 1);
    if first.tail.key <= second.head.key {
      MergeInOrder(a, b);
      LinkAfter(first.tail, second.head, a, b);
      return Chain(first.head, second.tail);
    }
    if second.tail.key < first.head.key {
      MergeReversed(a, b);
      LinkAfter(second.tail, first.head, b, a);
      return Chain(second.head, first.tail);
    }
    r := Merge(first, second, a, b);
  }

  // ----- The binary counter of chains -----

  const BITS: nat := 32

  /** From bucket `i` on, the buckets are the binary digits of `mask`: 2^i nodes or none. */
  ghost predicate Counts(b: seq<seq<ListNode>>, i: nat, mask: nat)
    requires i <= |b|
    decreases |b| - i
  {
    if i == |b| then mask == 0
    else |b[i]| == (if mask % 2 == 1 then Pow2(i) else 0) && Counts(b, i + 1, mask / 2)
  }

  /** The buckets' nodes, the fuller and earlier buckets first. */
  ghost function All(b: seq<seq<ListNode>>, i: nat): seq<ListNode>
    requires i <= |b|
    decreases |b| - i
  {
    if i == |b| then [] else All(b, i + 1) + b[i]
  }

  lemma {:induction false} CountsSame(b: seq<seq<ListNode>>, b': seq<seq<ListNode>>, i: nat, mask: nat)
    requires i <= |b| == |b'| && b[i..] == b'[i..] && Counts(b, i, mask)
    ensures Counts(b', i, mask) && All(b', i) == All(b, i)
    decreases |b| - i
  {
    if i < |b| {
      assert b[i] == b[i..][0] == b'[i..][0] == b'[i];
      assert b[i + 1..] == b[i..][1..] == b'[i..][1..] == b'[i + 1..];
      CountsSame(b, b', i + 1, mask / 2);
    }
  }

  function ShiftLeft(m: nat, i: nat): nat
    decreases i
  {
    if i == 0 then m else ShiftLeft(2 * m, i - 1)
  }

  lemma {:induction false} ShiftMonotone(m: nat, m': nat, i: nat)
    requires m <= m'
    ensures ShiftLeft(m, i) <= ShiftLeft(m', i)
    decreases i
  {
    if i > 0 { ShiftMonotone(2 * m, 2 * m', i - 1); }
  }

  /** Empty buckets below stand for zero digits. */
  lemma {:induction false} CountsDown(b: seq<seq<ListNode>>, i: nat, mask: nat)
    requires i <= |b| && Counts(b, i, mask) && forall k :: 0 <= k < i ==> b[k] == []
    ensures Counts(b, 0, ShiftLeft(mask, i)) && All(b, 0) == All(b, i)
    decreases i
  {
    if i > 0 {
      assert All(b, i - 1) == All(b, i) + [];
      CountsDown(b, i - 1, 2 * mask);
    }
  }

  lemma {:induction false} NothingAbove(b: seq<seq<ListNode>>, i: nat)
    requires i <= |b| && Counts(b, i, 0)
    ensures All(b, i) == []
    decreases |b| - i
  {
    if i < |b| { NothingAbove(b, i + 1); }
  }

  // ----- tommy_chain_mergesort -----

  /** The buckets from `i` on: sorted chains of different nodes. */
  ghost predicate Buckets(bit: seq<Chain>, b: seq<seq<ListNode>>, i: nat, all: set<ListNode>)
    reads all
  {
    && |bit| == |b| == BITS
    && (forall k :: i <= k < |b| && b[k] != [] ==> Nodes(b[k]) <= all && IsChain(bit[k], b[k]) && Sorted(b[k]))
    && (forall j, k :: i <= j < k < |b| ==> Nodes(b[j]) !! Nodes(b[k]))
  }

  /** A chain beside the buckets. */
  ghost predicate Carries(last: Chain, c: seq<ListNode>, b: seq<seq<ListNode>>, i: nat, all: set<ListNode>)
    reads all
  {
    && Nodes(c) <= all && IsChain(last, c) && Sorted(c)
    && forall k :: i <= k < |b| ==> Nodes(b[k]) !! Nodes(c)
  }

  /** Merging a bucket with the carry touches no other bucket. */
  method MergeCarry(bit: seq<Chain>, last: Chain, ghost b: seq<seq<ListNode>>, ghost c: seq<ListNode>, i: nat,
                    ghost all: set<ListNode>) returns (r: Chain)
    requires Buckets(bit, b, i, all) && Carries(last, c, b, i, all) && i < BITS && b[i] != []
    modifies all
    ensures Buckets(bit, b, i + 1, all) && Carries(r, MergeOf(b[i], c), b, i + 1, all)
  {
    hide MergeOf, Sorted, Linked, NoRepeats;
    r := MergeDegenerated(bit[i], last, b[i], c);
    MergeSorted(b[i], c);
    MergeNodes(b[i], c);
    forall k | i + 1 <= k < |b| && b[k] != [] ensures IsChain(bit[k], b[k]) {
      LinksKept(b[k]);
    }
  }

  lemma {:induction false} MergeNodes(a: seq<ListNode>, b: seq<ListNode>)
    ensures Nodes(MergeOf(a, b)) == Nodes(a) + Nodes(b)
  {
    if a != [] && b != [] {
      if a[0].key > b[0].key {
        MergeNodes(a, b[1..]);
        ConsNodes(b[0], MergeOf(a, b[1..]));
        ConsNodes(b[0], b[1..]);
        assert b == [b[0]] + b[1..];
      } else {
        MergeNodes(a[1..], b);
        ConsNodes(a[0], MergeOf(a[1..], b));
        ConsNodes(a[0], a[1..]);
        assert a == [a[0]] + a[1..];
      }
    }
  }

  lemma ConsNodes(n: ListNode, m: seq<ListNode>)
    ensures Nodes([n] + m) == {n} + Nodes(m)
  {
    assert forall x :: x in [n] + m <==> x == n || x in m;
  }

  twostate lemma LinksKept(c: seq<ListNode>)
    requires old(Linked(c)) && forall n :: n in Nodes(c) ==> unchanged(n)
    ensures Linked(c)
  {
    assert forall i :: 0 <= i < |c| ==> c[i] in Nodes(c);
  }

  lemma {:induction false} CarriedSame(b: seq<seq<ListNode>>, i: nat, c: seq<ListNode>, k: nat)
    requires i < |b| && Sorted(b[i]) && Sorted(c)
    ensures OfKey(All(b, i) + c, k) == OfKey(All(b, i + 1) + MergeOf(b[i], c), k)
  {
    MergeStable(b[i], c, k);
    hide MergeOf, OfKey, Sorted;
    OfKeyConcat(All(b, i), c, k);
    OfKeyConcat(All(b, i + 1), b[i], k);
    OfKeyConcat(All(b, i + 1), MergeOf(b[i], c), k);
  }

  /** Propagating a carry: `i` digits are zero now, and the rest of the old count is `mask`. */
  ghost predicate Propagating(bit: seq<Chain>, last: Chain, b: seq<seq<ListNode>>, c: seq<ListNode>, i: nat, mask: nat,
                              all: set<ListNode>, count: nat, content: seq<ListNode>)
    reads all
  {
    && i <= |b| && Buckets(bit, b, i, all) && Carries(last, c, b, i, all)
    && (forall k :: 0 <= k < i ==> b[k] == []) && Counts(b, i, mask) && |c| == Pow2(i)
    && ShiftLeft(mask + 1, i) == count + 1
    && SameByKey(All(b, i) + c, content)
  }

  method CarryStep(bit: seq<Chain>, last: Chain, ghost b: seq<seq<ListNode>>, ghost c: seq<ListNode>, i: nat, ghost mask: nat,
                   ghost all: set<ListNode>, ghost count: nat, ghost content: seq<ListNode>)
    returns (last': Chain, ghost b': seq<seq<ListNode>>, ghost c': seq<ListNode>)
    requires Propagating(bit, last, b, c, i, mask, all, count, content) && mask % 2 == 1
    modifies all
    ensures i < |b| && Propagating(bit, last', b', c', i + 1, mask / 2, all, count, content)
  {
    hide MergeOf, OfKey, Sorted, Linked, NoRepeats, IsChain;
    last' := MergeCarry(bit, last, b, c, i, all);
    b', c' := b[i := []], MergeOf(b[i], c);
    MergeMembers(b[i], c);
    CountsSame(b, b', i + 1, mask / 2);
    hide All, Carries;
    forall k: nat ensures OfKey(All(b', i + 1) + c', k) == OfKey(content, k) { CarriedSame(b, i, c, k); }
  }

  /** More nodes than the 32-bit counter can count are out of reach. */
  const MAX_NODES: nat := 0x1_0000_0000

  lemma Shift8(m: nat, i: nat)
    ensures ShiftLeft(m, i + 8) == ShiftLeft(256 * m, i)
  {
    assert ShiftLeft(m, i + 8) == ShiftLeft(2 * m, i + 7) == ShiftLeft(4 * m, i + 6);
    assert ShiftLeft(4 * m, i + 6) == ShiftLeft(8 * m, i + 5) == ShiftLeft(16 * m, i + 4);
    assert ShiftLeft(16 * m, i + 4) == ShiftLeft(32 * m, i + 3) == ShiftLeft(64 * m, i + 2);
    assert ShiftLeft(64 * m, i + 2) == ShiftLeft(128 * m, i + 1) == ShiftLeft(256 * m, i);
  }

  lemma ShiftTooFar(m: nat)
    ensures ShiftLeft(m + 1, BITS) >= MAX_NODES
  {
    ShiftMonotone(1, m + 1, BITS);
    Shift8(1, 24);
    Shift8(0x100, 16);
    Shift8(0x1_0000, 8);
    Shift8(0x100_0000, 0);
  }

  /** The carry goes into the first empty bucket. */
  lemma StoreCarry(bit: seq<Chain>, last: Chain, b: seq<seq<ListNode>>, c: seq<ListNode>, i: nat, mask: nat,
                   all: set<ListNode>, count: nat, content: seq<ListNode>)
    requires Propagating(bit, last, b, c, i, mask, all, count, content) && mask % 2 == 0 && count + 1 < MAX_NODES
    ensures i < |b|
    ensures var b' := b[i := c];
            && Buckets(bit[i := last], b', 0, all) && Counts(b', 0, count + 1) && SameByKey(All(b', 0), content)
  {
    hide Sorted, IsChain, OfKey;
    ShiftTooFar(mask);
    assert i < |b|;
    var b' := b[i := c];
    assert All(b, i) == All(b, i + 1) by { assert b[i] == []; }
    CountsSame(b, b', i + 1, mask / 2);
    assert Counts(b', i, mask + 1) by { assert (mask + 1) / 2 == mask / 2; }
    CountsDown(b', i, mask + 1);
    assert All(b', i) == All(b, i) + c;
  }

  lemma StartCarry(bit: seq<Chain>, last: Chain, b: seq<seq<ListNode>>, node: ListNode, count: nat, all: set<ListNode>,
                   content: seq<ListNode>)
    requires Buckets(bit, b, 0, all) && Counts(b, 0, count) && SameByKey(All(b, 0), content) && last == Chain(node, node)
    requires node in all && forall k :: 0 <= k < |b| ==> node !in b[k]
    ensures Propagating(bit, last, b, [node], 0, count, all, count, content + [node])
  {
    hide Counts, Linked, OfKey;
    assert Nodes([node]) == {node};
    forall k: nat ensures OfKey(All(b, 0) + [node], k) == OfKey(content + [node], k) {
      OfKeyConcat(All(b, 0), [node], k);
      OfKeyConcat(content, [node], k);
      assert OfKey(All(b, 0), k) == OfKey(content, k);
    }
    NothingToLink(node);
  }

  lemma NothingToLink(node: ListNode)
    ensures Linked([node])
  {
  }

  /** The inner loop of the sort: one more node. */
  method AddNode(bit: seq<Chain>, node: ListNode, count: nat, ghost b: seq<seq<ListNode>>, ghost all: set<ListNode>,
                 ghost content: seq<ListNode>) returns (bit': seq<Chain>, ghost b': seq<seq<ListNode>>)
    requires Buckets(bit, b, 0, all) && Counts(b, 0, count) && SameByKey(All(b, 0), content) && count + 1 < MAX_NODES
    requires node in all && forall k :: 0 <= k < |b| ==> node !in b[k]
    modifies all
    ensures Buckets(bit', b', 0, all) && Counts(b', 0, count + 1) && SameByKey(All(b', 0), content + [node])
  {
    var last := Chain(node, node);
    ghost var c := [node];
    b' := b;
    var i: nat, mask := 0, count;
    StartCarry(bit, last, b, node, count, all, content);
    hide Carries, Counts, SameByKey, ShiftLeft, Pow2;
    while mask % 2 == 1
      invariant Propagating(bit, last, b', c, i, mask, all, count, content + [node])
      decreases mask
    {
      last, b', c := CarryStep(bit, last, b', c, i, mask, all, count, content + [node]);
      mask := mask / 2;
      i := i + 1;
    }
    StoreCarry(bit, last, b', c, i, mask, all, count, content + [node]);
    bit' := bit[i := last];
    b' := b'[i := c];
  }

  // ----- The outer loops -----

  /** `n` nodes of the chain are in the buckets. */
  ghost predicate Sorting(bit: seq<Chain>, b: seq<seq<ListNode>>, s: seq<ListNode>, n: nat)
    reads s
  {
    && n <= |s| && Buckets(bit, b, 0, Nodes(s[..n])) && Counts(b, 0, n) && SameByKey(All(b, 0), s[..n])
  }

  lemma PrefixNodes(s: seq<ListNode>, n: nat)
    requires n < |s| && NoRepeats(s)
    ensures Nodes(s[..n + 1]) == Nodes(s[..n]) + {s[n]} && s[n] !in Nodes(s[..n]) && Nodes(s[..n + 1]) <= Nodes(s)
  {
    assert s[..n + 1] == s[..n] + [s[n]];
  }

  /** The first loop of tommy_chain_mergesort for one node. */
  method SortNode(bit: seq<Chain>, node: ListNode, ghost b: seq<seq<ListNode>>, ghost s: seq<ListNode>, n: nat)
    returns (bit': seq<Chain>, ghost b': seq<seq<ListNode>>)
    requires Sorting(bit, b, s, n) && NoRepeats(s) && n < |s| < MAX_NODES && node == s[n]
    modifies Nodes(s[..n + 1])
    ensures Sorting(bit', b', s, n + 1)
  {
    hide Counts, SameByKey;
    PrefixNodes(s, n);
    BucketsWiden(bit, b, Nodes(s[..n]), Nodes(s[..n + 1]));
    assert forall k :: 0 <= k < |b| && b[k] != [] ==> Nodes(b[k]) <= Nodes(s[..n]);
    assert forall k :: 0 <= k < |b| ==> node !in Nodes(b[k]);
    assert s[..n + 1] == s[..n] + [node];
    bit', b' := AddNode(bit, node, n, b, Nodes(s[..n + 1]), s[..n]);
  }

  lemma BucketsWiden(bit: seq<Chain>, b: seq<seq<ListNode>>, all: set<ListNode>, all': set<ListNode>)
    requires Buckets(bit, b, 0, all) && all <= all'
    ensures Buckets(bit, b, 0, all')
  {
  }

  /** The merging of the buckets at the end: `c` holds what is below bucket `i + 1`. */
  ghost predicate Collecting(bit: seq<Chain>, last: Chain, b: seq<seq<ListNode>>, c: seq<ListNode>, i: nat, mask: nat,
                             s: seq<ListNode>)
    reads s
  {
    && i < |b| && 1 <= mask && Buckets(bit, b, i + 1, Nodes(s)) && Carries(last, c, b, i + 1, Nodes(s))
    && Counts(b, i + 1, mask / 2) && SameByKey(All(b, i + 1) + c, s)
  }

  method CollectStep(bit: seq<Chain>, last: Chain, ghost b: seq<seq<ListNode>>, ghost c: seq<ListNode>, i: nat, mask: nat,
                     ghost s: seq<ListNode>) returns (last': Chain, ghost c': seq<ListNode>)
    requires Collecting(bit, last, b, c, i, mask, s) && mask != 1
    modifies Nodes(s)
    ensures i + 1 < |b| && Collecting(bit, last', b, c', i + 1, mask / 2, s)
  {
    hide MergeOf, OfKey, Sorted, Linked, NoRepeats;
    assert i + 1 < |b|;
    last', c' := last, c;
    if (mask / 2) % 2 == 1 {
      last' := MergeCarry(bit, last, b, c, i + 1, Nodes(s));
      c' := MergeOf(b[i + 1], c);
      forall k: nat ensures OfKey(All(b, i + 2) + c', k) == OfKey(s, k) {
        CarriedSame(b, i + 1, c, k);
        assert OfKey(All(b, i + 1) + c, k) == OfKey(s, k);
      }
    } else {
      assert b[i + 1] == [] && All(b, i + 1) + c == All(b, i + 2) + c;
    }
  }

  lemma StartCollecting(bit: seq<Chain>, b: seq<seq<ListNode>>, s: seq<ListNode>, i: nat, mask: nat)
    requires Sorting(bit, b, s, |s|) && i < |b| && Counts(b, i, mask) && mask % 2 == 1 && All(b, 0) == All(b, i)
    ensures Collecting(bit, bit[i], b, b[i], i, mask, s)
  {
    assert s[..|s|] == s;
    assert All(b, i) == All(b, i + 1) + b[i];
    Pow2Positive(i);
    hide OfKey, Linked, NoRepeats, Sorted;
  }

  lemma Pow2Positive(i: nat)
    ensures Pow2(i) >= 1
  {
  }

  /** tommy_ctz_u32: the lowest bucket in use. */
  method LowestBit(count: nat, ghost b: seq<seq<ListNode>>) returns (i: nat, mask: nat)
    requires 0 < count && Counts(b, 0, count)
    ensures i < |b| && Counts(b, i, mask) && mask % 2 == 1 && All(b, 0) == All(b, i)
  {
    i, mask := 0, count;
    while mask % 2 == 0
      invariant i <= |b| && 0 < mask && Counts(b, i, mask) && All(b, 0) == All(b, i)
      decreases mask
    {
      assert All(b, i) == All(b, i + 1) + [];
      i, mask := i + 1, mask / 2;
    }
  }

  /** tommy_chain_mergesort. */
  method MergeSort(chain: Chain, ghost s: seq<ListNode>) returns (r: Chain, ghost s': seq<ListNode>)
    requires IsChain(chain, s) && |s| < MAX_NODES
    modifies Nodes(s)
    ensures IsChain(r, s') && Sorted(s') && SameByKey(s', s) && Nodes(s') <= Nodes(s)
  {
    var bit := seq(BITS, _ => chain);
    ghost var b: seq<seq<ListNode>> := seq(BITS, _ => []);
    var node, count: nat := chain.head, 0;
    EmptyBuckets(bit, b, s);
    var finished := false;
    while !finished
      invariant count <= |s| && NoRepeats(s) && Sorting(bit, b, s, count) && Linked(s[count..])
      invariant finished <==> count == |s|
      invariant !finished ==> node == s[count]
      decreases |s| - count
    {
      hide Sorting, Linked, NoRepeats;
      var last := node == chain.tail;
      NodeIsLast(s, count);
      var next := node.next;
      label before: bit, b := SortNode(bit, node, b, s, count);
      RestKept@before(s, count);
      count := count + 1;
      if last { finished := true; } else { node := next; }
    }
    r, s' := CollectAll(bit, count, b, s);
  }

  lemma EmptyBuckets(bit: seq<Chain>, b: seq<seq<ListNode>>, s: seq<ListNode>)
    requires |bit| == BITS && b == seq(BITS, _ => [])
    ensures Sorting(bit, b, s, 0) && (Linked(s) ==> Linked(s[0..]))
  {
    NoDigits(b, 0);
    assert s[0..] == s;
  }

  lemma {:induction false} NoDigits(b: seq<seq<ListNode>>, i: nat)
    requires i <= |b| && forall k :: 0 <= k < |b| ==> b[k] == []
    ensures Counts(b, i, 0) && All(b, i) == []
    decreases |b| - i
  {
    if i < |b| { NoDigits(b, i + 1); }
  }

  lemma NodeIsLast(s: seq<ListNode>, n: nat)
    requires n < |s| && NoRepeats(s) && Linked(s[n..])
    ensures s[n] == s[|s| - 1] <==> n + 1 == |s|
    ensures n + 1 < |s| ==> s[n].next == s[n + 1]
  {
    if n + 1 < |s| { assert s[n..][0].next == s[n..][1]; }
  }

  /** The nodes not yet sorted keep their links. */
  twostate lemma RestKept(s: seq<ListNode>, new n: nat)
    requires n < |s| && NoRepeats(s) && old(Linked(s[n..]))
    requires forall x :: x in Nodes(s) && x !in Nodes(s[..n + 1]) ==> unchanged(x)
    ensures Linked(s[n + 1..])
  {
    forall k | n + 1 <= k < |s| ensures unchanged(s[k]) {
      assert s[k] in Nodes(s);
      assert s[k] !in s[..n + 1];
    }
    assert s[n + 1..] == s[n..][1..];
  }

  /** The second loop of tommy_chain_mergesort. */
  method CollectAll(bit: seq<Chain>, count: nat, ghost b: seq<seq<ListNode>>, ghost s: seq<ListNode>)
    returns (r: Chain, ghost s': seq<ListNode>)
    requires Sorting(bit, b, s, count) && count == |s| > 0
    modifies Nodes(s)
    ensures IsChain(r, s') && Sorted(s') && SameByKey(s', s) && Nodes(s') <= Nodes(s)
  {
    var i, mask := LowestBit(count, b);
    StartCollecting(bit, b, s, i, mask);
    r, s' := bit[i], b[i];
    while mask != 1
      invariant Collecting(bit, r, b, s', i, mask, s)
      decreases mask
    {
      hide Collecting;
      r, s' := CollectStep(bit, r, b, s', i, mask, s);
      i, mask := i + 1, mask / 2;
    }
    NothingAbove(b, i + 1);
    assert [] + s' == s';
  }

  // ----- tommy_list_sort -----

  /** A list: the head's prev is the tail and the tail's next is null. */
  ghost predicate IsList(head: ListNode?, s: seq<ListNode>)
    reads s
  {
    if head == null then s == []
    else s != [] && IsChain(Chain(head, s[|s| - 1]), s) && s[0].prev == s[|s| - 1] && s[|s| - 1].next == null
  }

  /** The list ends up sorted by key, its nodes of equal key in their old order, with all
      links correct. */
  method Sort(head: ListNode?, ghost s: seq<ListNode>) returns (head': ListNode?, ghost s': seq<ListNode>)
    requires IsList(head, s) && |s| < MAX_NODES
    modifies Nodes(s)
    ensures IsList(head', s') && Sorted(s') && SameByKey(s', s)
  {
    if head == null { return null, []; }
    InNodes(s, 0);
    var chain;
    chain, s' := MergeSort(Chain(head, head.prev), s);
    InNodes(s', 0);
    InNodes(s', |s'| - 1);
    chain.head.prev := chain.tail;
    chain.tail.next := null;
    head' := chain.head;
  }
}
