/** The record operations of rtrlib/pfx/trie/trie-pfx.c on one tree, as functions
    of the tree, and what they do to its set of records. */
module PfxTree {
  import opened Trie

  datatype Status = Success | DuplicateRecord | RecordNotFound

  /** The record's address has the width of the trie. Its length and the bits beyond
      it are not checked when it is added. */
  ghost predicate WellFormed(r: Record, w: nat) {
    |r.prefix| == w
  }

  // ----- Changing the data of one node -----

  /** Replacing a subtree keeps the invariant when the new one keeps it, brings no
      new key and starts no higher in the heap. */
  lemma {:induction false} ReplaceKeepsInv(t: Tree, p: seq<bool>, s: Tree, path: seq<bool>, w: nat)
    requires Inv(t, path, w) && ValidPath(t, p) && At(t, p).Node?
    requires Inv(s, path + p, w) && Keys(s) <= Keys(At(t, p))
    requires s.Node? ==> At(t, p).len <= s.len
    ensures Inv(ReplaceAt(t, p, s), path, w)
    ensures Keys(ReplaceAt(t, p, s)) <= Keys(t)
    ensures ReplaceAt(t, p, s).Node? ==> t.Node? && t.len <= ReplaceAt(t, p, s).len
  {
    if p == [] {
      assert path + p == path;
    } else {
      assert path + [p[0]] + p[1..] == path + p;
      ReplaceKeepsInv(Child(t, p[0]), p[1..], s, path + [p[0]], w);
      assert NodeInv(ReplaceAt(t, p, s), path, w);
    }
  }

  lemma {:induction false} SubtreeInv(t: Tree, p: seq<bool>, path: seq<bool>, w: nat)
    requires Inv(t, path, w) && ValidPath(t, p)
    ensures Inv(At(t, p), path + p, w)
    ensures Keys(At(t, p)) <= Keys(t) && Records(At(t, p)) <= Records(t)
  {
    if p == [] {
      assert path + p == path;
    } else {
      assert path + [p[0]] + p[1..] == path + p;
      SubtreeInv(Child(t, p[0]), p[1..], path + [p[0]], w);
    }
  }

  /** The key of every stored record is a key of the tree. */
  lemma {:induction false} RecordsHaveKeys(t: Tree)
    ensures forall r :: r in Records(t) ==> (r.prefix, r.minLen) in Keys(t)
  {
    if t.Node? {
      RecordsHaveKeys(t.left);
      RecordsHaveKeys(t.right);
    }
  }

  /** A stored record is stored in the node with its key, and nowhere else. */
  lemma {:induction false} RecordAt(t: Tree, p: seq<bool>, path: seq<bool>, w: nat)
    requires Inv(t, path, w) && ValidPath(t, p) && At(t, p).Node?
    ensures forall r: Record :: r in Records(t) && r.prefix == At(t, p).prefix && r.minLen == At(t, p).len
                    <==> r.prefix == At(t, p).prefix && r.minLen == At(t, p).len && ToElem(r) in At(t, p).data
  {
    var n := At(t, p);
    RecordsHaveKeys(t.left);
    RecordsHaveKeys(t.right);
    if p != [] {
      var c := Child(t, p[0]);
      RecordAt(c, p[1..], path + [p[0]], w);
      SubtreeInv(c, p[1..], path + [p[0]], w);
      SidesDisjoint(t, path, w);
      assert (n.prefix, n.len) in Keys(n);
    } else {
      forall r: Record | r.prefix == t.prefix && r.minLen == t.len && ToElem(r) in t.data ensures r in Records(t) {
        assert r == ToRecord(t.prefix, t.len, ToElem(r));
      }
    }
  }

  /** Records outside the replaced subtree stay. */
  lemma {:induction false} ReplaceRecords(t: Tree, p: seq<bool>, s: Tree, path: seq<bool>, w: nat)
    requires Inv(t, path, w) && ValidPath(t, p)
    requires Keys(s) <= Keys(At(t, p))
    ensures Records(ReplaceAt(t, p, s)) == Records(t) - Records(At(t, p)) + Records(s)
  {
    if p != [] {
      var c, d := Child(t, p[0]), Child(t, !p[0]);
      ReplaceRecords(c, p[1..], s, path + [p[0]], w);
      BelowIsApart(t, p, path, w);
      hide Own, Keys, Inv;
      ReplaceBelow(Own(t.prefix, t.len, t.data), Records(c), Records(d), Records(At(t, p)), Records(s));
      ChildRecords(t, p[0]);
      ChildRecords(ReplaceAt(t, p, s), p[0]);
    }
  }

  lemma ChildRecords(t: Tree, b: bool)
    requires t.Node?
    ensures Records(t) == Own(t.prefix, t.len, t.data) + Records(Child(t, b)) + Records(Child(t, !b))
  {
  }

  lemma ReplaceBelow(own: set<Record>, c: set<Record>, d: set<Record>, gone: set<Record>, put: set<Record>)
    requires gone !! own && gone !! d
    ensures own + (c - gone + put) + d == own + c + d - gone + put
  {
  }

  /** What is below one child has no record in common with the node and the other child. */
  lemma BelowIsApart(t: Tree, p: seq<bool>, path: seq<bool>, w: nat)
    requires Inv(t, path, w) && ValidPath(t, p) && p != []
    ensures Records(At(t, p)) !! Own(t.prefix, t.len, t.data) && Records(At(t, p)) !! Records(Child(t, !p[0]))
  {
    var c := Child(t, p[0]);
    SubtreeInv(c, p[1..], path + [p[0]], w);
    SidesDisjoint(t, path, w);
    RecordsHaveKeys(Child(t, !p[0]));
    RecordsHaveKeys(At(t, p));
    OwnRecords(t);
  }

  lemma OwnRecords(t: Tree)
    requires t.Node? && (t.prefix, t.len) !in Keys(t.left) + Keys(t.right)
    ensures Own(t.prefix, t.len, t.data) !! Records(t.left) + Records(t.right)
  {
    RecordsHaveKeys(t.left);
    RecordsHaveKeys(t.right);
  }

  // ----- rtr_pfx_table_add -----

  function Add(t: Tree, r: Record): (Status, Tree) {
    if t.Nil? then (Success, Node(r.prefix, r.minLen, [ToElem(r)], Nil, Nil))
    else
      var (found, p) := LookupExact(t, r.prefix, r.minLen, 0);
      var n := At(t, p);
      if found then
        if ToElem(r) in n.data then (DuplicateRecord, t)
        else (Success, ReplaceAt(t, p, n.(data := n.data + [ToElem(r)])))
      else (Success, ReplaceAt(t, p, Insert(n, r.prefix, r.minLen, [ToElem(r)], |p|)))
  }

  /** Adding a record keeps the invariant, inserts exactly that record, and reports
      a duplicate if and only if the record was there. */
  lemma AddInserts(t: Tree, r: Record, w: nat)
    requires Inv(t, [], w) && WellFormed(r, w)
    ensures Inv(Add(t, r).1, [], w)
    ensures Records(Add(t, r).1) == Records(t) + {r}
    ensures Add(t, r).0 == if r in Records(t) then DuplicateRecord else Success
    ensures r in Records(t) ==> Add(t, r).1 == t
  {
    if t.Nil? {
      AddToEmpty(r, w);
    } else if LookupExact(t, r.prefix, r.minLen, 0).0 {
      AddToNode(t, r, w);
    } else {
      AddNode(t, r, w);
    }
  }

  /** The key is there: its node gets one more element, or had it. */
  lemma AddToNode(t: Tree, r: Record, w: nat)
    requires t.Node? && Inv(t, [], w) && LookupExact(t, r.prefix, r.minLen, 0).0
    ensures Inv(Add(t, r).1, [], w) && Records(Add(t, r).1) == Records(t) + {r}
    ensures Add(t, r) == if r in Records(t) then (DuplicateRecord, t) else (Success, Add(t, r).1)
  {
    hide Keys, LookupExact, ReplaceAt, Own, Inv, Records;
    var p := LookupExact(t, r.prefix, r.minLen, 0).1;
    RecordAt(t, p, [], w);
    if r !in Records(t) { AppendElem(t, p, ToElem(r), w); }
  }

  /** The key is new. */
  lemma AddNode(t: Tree, r: Record, w: nat)
    requires t.Node? && Inv(t, [], w) && WellFormed(r, w) && !LookupExact(t, r.prefix, r.minLen, 0).0
    ensures Inv(Add(t, r).1, [], w) && Records(Add(t, r).1) == Records(t) + {r}
    ensures r !in Records(t) && Add(t, r).0 == Success
  {
    hide Keys, Insert, LookupExact, ReplaceAt, Own, Inv, Records;
    LookupExactFinds(t, r.prefix, r.minLen, [], w);
    RecordsHaveKeys(t);
    InsertWhereStopped(t, r.prefix, r.minLen, [ToElem(r)], [], w);
    InsertKeepsInv(t, r.prefix, r.minLen, [ToElem(r)], [], w);
    InsertContents(t, r.prefix, r.minLen, [ToElem(r)], 0);
    OneRecord(r);
  }

  lemma AddToEmpty(r: Record, w: nat)
    requires WellFormed(r, w)
    ensures Inv(Add(Nil, r).1, [], w) && Records(Add(Nil, r).1) == {r} && Add(Nil, r).0 == Success
  {
    InsertKeepsInv(Nil, r.prefix, r.minLen, [ToElem(r)], [], w);
    InsertContents(Nil, r.prefix, r.minLen, [ToElem(r)], 0);
    OneRecord(r);
  }

  lemma OneRecord(r: Record)
    ensures Own(r.prefix, r.minLen, [ToElem(r)]) == {r}
  {
    assert ToElem(r) in [ToElem(r)];
    assert ToRecord(r.prefix, r.minLen, ToElem(r)) == r;
  }

  /** Rewriting the element array of one node. */
  lemma SetData(t: Tree, p: seq<bool>, data: seq<Elem>, w: nat)
    requires Inv(t, [], w) && ValidPath(t, p) && At(t, p).Node?
    requires data != [] && Distinct(data)
    ensures var n := At(t, p); var t' := ReplaceAt(t, p, n.(data := data));
            && Inv(t', [], w)
            && Records(t') == Records(t) - Own(n.prefix, n.len, n.data)
                                         + Own(n.prefix, n.len, data)
  {
    var n := At(t, p);
    var s := n.(data := data);
    SubtreeInv(t, p, [], w);
    assert [] + p == p;
    assert Inv(s, p, w) by { assert NodeInv(s, p, w); }
    ReplaceKeepsInv(t, p, s, [], w);
    ReplaceRecords(t, p, s, [], w);
    OwnRecords(n);
    OwnRecords(s);
  }

  lemma AppendElem(t: Tree, p: seq<bool>, e: Elem, w: nat)
    requires Inv(t, [], w) && ValidPath(t, p) && At(t, p).Node? && e !in At(t, p).data
    ensures var n := At(t, p); var t' := ReplaceAt(t, p, n.(data := n.data + [e]));
            Inv(t', [], w) && Records(t') == Records(t) + {ToRecord(n.prefix, n.len, e)}
  {
    var n := At(t, p);
    SubtreeInv(t, p, [], w);
    assert [] + p == p;
    SetData(t, p, n.data + [e], w);
    assert Own(n.prefix, n.len, n.data + [e])
        == Own(n.prefix, n.len, n.data) + {ToRecord(n.prefix, n.len, e)} by {
      assert (n.data + [e])[|n.data|] == e;
    }
  }

  // ----- rtr_pfx_table_remove -----

  /** pfx_table_find_elem. */
  function IndexOf(data: seq<Elem>, e: Elem): (i: nat)
    requires e in data
    ensures i < |data| && data[i] == e && e !in data[..i]
  {
    if data[0] == e then 0 else
      var i := IndexOf(data[1..], e);
      assert data[..i + 1] == [data[0]] + data[1..][..i];
      1 + i
  }

  /** pfx_table_del_elem. */
  function Without<T>(data: seq<T>, i: nat): (r: seq<T>)
    requires i < |data|
    ensures |r| == |data| - 1
  {
    data[..i] + data[i + 1..]
  }

  lemma WithoutElems<T>(data: seq<T>, i: nat)
    requires i < |data| && Distinct(data)
    ensures Distinct(Without(data, i))
    ensures forall e :: e in Without(data, i) <==> e in data && e != data[i]
  {
    forall e | e in data && e != data[i] ensures e in Without(data, i) {
      var k :| 0 <= k < |data| && data[k] == e;
      assert Without(data, i)[if k < i then k else k - 1] == e;
    }
  }

  function Remove(t: Tree, r: Record): (Status, Tree) {
    if t.Nil? then (RecordNotFound, t)
    else
      var (found, p) := LookupExact(t, r.prefix, r.minLen, 0);
      var n := At(t, p);
      if !found || ToElem(r) !in n.data then (RecordNotFound, t)
      else
        var data := Without(n.data, IndexOf(n.data, ToElem(r)));
        (Success, ReplaceAt(t, p, if data == [] then RemoveRoot(n) else n.(data := data)))
  }

  /** Removing a record keeps the invariant, deletes exactly that record, and
      reports "not found" if and only if it was not there. */
  lemma RemoveDeletes(t: Tree, r: Record, w: nat)
    requires Inv(t, [], w)
    ensures Inv(Remove(t, r).1, [], w)
    ensures Records(Remove(t, r).1) == Records(t) - {r}
    ensures Remove(t, r).0 == if r in Records(t) then Success else RecordNotFound
    ensures r !in Records(t) ==> Remove(t, r).1 == t
  {
    if t.Node? {
      var (found, p) := LookupExact(t, r.prefix, r.minLen, 0);
      LookupExactFinds(t, r.prefix, r.minLen, [], w);
      RecordsHaveKeys(t);
      if found {
        RecordAt(t, p, [], w);
        if r in Records(t) { DropElem(t, p, IndexOf(At(t, p).data, ToElem(r)), w); }
      }
    }
  }

  /** Deleting one element; an emptied node is removed from the tree. */
  lemma DropElem(t: Tree, p: seq<bool>, i: nat, w: nat)
    requires Inv(t, [], w) && ValidPath(t, p) && At(t, p).Node? && i < |At(t, p).data|
    ensures var n := At(t, p); var data := Without(n.data, i);
            var t' := ReplaceAt(t, p, if data == [] then RemoveRoot(n) else n.(data := data));
            Inv(t', [], w) && Records(t') == Records(t) - {ToRecord(n.prefix, n.len, n.data[i])}
  {
    hide Keys, RemoveRoot, ReplaceAt;
    var n := At(t, p);
    var data := Without(n.data, i);
    SubtreeInv(t, p, [], w);
    assert [] + p == p;
    OwnWithout(n, i);
    if data == [] {
      DropNode(t, p, w);
    } else {
      WithoutElems(n.data, i);
      SetData(t, p, data, w);
    }
  }

  lemma OwnWithout(n: Tree, i: nat)
    requires n.Node? && i < |n.data| && Distinct(n.data)
    ensures Own(n.prefix, n.len, Without(n.data, i)) == Own(n.prefix, n.len, n.data) - {ToRecord(n.prefix, n.len, n.data[i])}
  {
    WithoutElems(n.data, i);
  }

  lemma DropNode(t: Tree, p: seq<bool>, w: nat)
    requires Inv(t, [], w) && ValidPath(t, p) && At(t, p).Node?
    ensures var n := At(t, p); var t' := ReplaceAt(t, p, RemoveRoot(n));
            Inv(t', [], w) && Records(t') == Records(t) - Own(n.prefix, n.len, n.data)
  {
    var n := At(t, p);
    SubtreeInv(t, p, [], w);
    assert [] + p == p;
    RemoveRootKeepsInv(n, p, w);
    RemoveRootContents(n, p, w);
    ReplaceKeepsInv(t, p, RemoveRoot(n), [], w);
    ReplaceRecords(t, p, RemoveRoot(n), [], w);
    OwnRecords(n);
  }

  // ----- pfx_table_remove_id -----

  /** The elements of other sockets, or of this one, in array order. */
  function FromSocket(data: seq<Elem>, socket: nat, own: bool): (r: seq<Elem>)
    ensures forall e :: e in r <==> e in data && (e.socket == socket) == own
    ensures |r| <= |data|
  {
    if data == [] then []
    else
      var rest := FromSocket(data[1..], socket, own);
      assert data == [data[0]] + data[1..];
      if (data[0].socket == socket) == own then [data[0]] + rest else rest
  }

  lemma {:induction false} FromSocketDistinct(data: seq<Elem>, socket: nat, own: bool)
    requires Distinct(data)
    ensures Distinct(FromSocket(data, socket, own))
  {
    if data != [] {
      FromSocketDistinct(data[1..], socket, own);
      assert data[0] !in data[1..];
    }
  }

  /** pfx_table_remove_id: the remaining tree and the removals notified, in order.
      A node left without elements is removed, and the node that moved up into its
      place is visited again. */
  function SrcRemove(t: Tree, socket: nat): (Tree, seq<Record>)
    decreases Size(t)
  {
    if t.Nil? then (Nil, [])
    else
      var keep := FromSocket(t.data, socket, false);
      var log := NodeRecords(t.prefix, t.len, FromSocket(t.data, socket, true));
      if keep == [] then
        RemoveRootSize(t);
        var (rest, more) := SrcRemove(RemoveRoot(t), socket);
        (rest, log + more)
      else
        var (l, lefts) := SrcRemove(t.left, socket);
        var (r, rights) := SrcRemove(t.right, socket);
        (Node(t.prefix, t.len, keep, l, r), log + lefts + rights)
  }

  ghost function OfSocket(rs: set<Record>, socket: nat): set<Record> {
    set r | r in rs && r.socket == socket
  }

  ghost function Elements<T>(s: seq<T>): set<T> {
    set x | x in s
  }

  lemma NodeRecordsElements(prefix: Addr, len: nat, data: seq<Elem>)
    requires Distinct(data)
    ensures Elements(NodeRecords(prefix, len, data)) == Own(prefix, len, data)
    ensures Distinct(NodeRecords(prefix, len, data))
  {
    var rs := NodeRecords(prefix, len, data);
    forall r | r in Own(prefix, len, data) ensures r in rs {
      var i :| 0 <= i < |data| && ToRecord(prefix, len, data[i]) == r;
      assert rs[i] == r;
    }
    forall i, j | 0 <= i < j < |data| ensures rs[i] != rs[j] {
      assert data[i] != data[j] && ToElem(rs[i]) == data[i] && ToElem(rs[j]) == data[j];
    }
  }

  lemma DistinctConcat<T>(a: seq<T>, b: seq<T>)
    requires Distinct(a) && Distinct(b) && Elements(a) !! Elements(b)
    ensures Distinct(a + b) && Elements(a + b) == Elements(a) + Elements(b)
  {
    forall i, j | 0 <= i < j < |a + b| ensures (a + b)[i] != (a + b)[j] {
      if i < |a| <= j { assert a[i] in Elements(a) && b[j - |a|] in Elements(b); }
    }
  }

  /** What one node contributes: its elements split between the tree and the log. */
  lemma NodeSplit(t: Tree, socket: nat)
    requires t.Node? && Distinct(t.data)
    ensures var own := Own(t.prefix, t.len, t.data);
            var log := NodeRecords(t.prefix, t.len, FromSocket(t.data, socket, true));
            && Distinct(log) && Elements(log) == OfSocket(own, socket)
            && Own(t.prefix, t.len, FromSocket(t.data, socket, false)) == own - OfSocket(own, socket)
  {
    FromSocketDistinct(t.data, socket, true);
    NodeRecordsElements(t.prefix, t.len, FromSocket(t.data, socket, true));
  }

  /** Removing a socket keeps the invariant, although removals pull child data up
      into the node being visited. */
  lemma {:induction false} SrcRemoveKeepsInv(t: Tree, socket: nat, path: seq<bool>, w: nat)
    requires Inv(t, path, w)
    ensures var t' := SrcRemove(t, socket).0;
            Inv(t', path, w) && Keys(t') <= Keys(t) && (t'.Node? ==> t.Node? && t.len <= t'.len)
    decreases Size(t)
  {
    if t.Node? {
      var keep := FromSocket(t.data, socket, false);
      if keep == [] {
        RemoveRootSize(t);
        RemoveRootKeepsInv(t, path, w);
        RemoveRootContents(t, path, w);
        SrcRemoveKeepsInv(RemoveRoot(t), socket, path, w);
      } else {
        SrcRemoveKeepsInv(t.left, socket, path + [false], w);
        SrcRemoveKeepsInv(t.right, socket, path + [true], w);
        FromSocketDistinct(t.data, socket, false);
        assert NodeInv(SrcRemove(t, socket).0, path, w);
      }
    }
  }

  /** Removing a socket loses exactly that socket's records. */
  lemma {:induction false} SrcRemoveRecords(t: Tree, socket: nat, path: seq<bool>, w: nat)
    requires Inv(t, path, w)
    ensures Records(SrcRemove(t, socket).0) == Records(t) - OfSocket(Records(t), socket)
    decreases Size(t)
  {
    hide Keys, RemoveRoot;
    if t.Node? {
      NodeSplit(t, socket);
      if FromSocket(t.data, socket, false) == [] {
        RemoveRootSize(t);
        RemoveRootKeepsInv(t, path, w);
        RemoveRootContents(t, path, w);
        SrcRemoveRecords(RemoveRoot(t), socket, path, w);
      } else {
        SrcRemoveRecords(t.left, socket, path + [false], w);
        SrcRemoveRecords(t.right, socket, path + [true], w);
      }
    }
  }

  /** Every record of the socket is notified as removed exactly once, and no other. */
  lemma {:induction false} SrcRemoveLog(t: Tree, socket: nat, path: seq<bool>, w: nat)
    requires Inv(t, path, w)
    ensures var log := SrcRemove(t, socket).1;
            Distinct(log) && Elements(log) == OfSocket(Records(t), socket)
    decreases Size(t)
  {
    hide Keys, RemoveRoot, Own;
    if t.Node? {
      NodeSplit(t, socket);
      OwnRecords(t);
      var log := NodeRecords(t.prefix, t.len, FromSocket(t.data, socket, true));
      if FromSocket(t.data, socket, false) == [] {
        RemoveRootSize(t);
        RemoveRootKeepsInv(t, path, w);
        RemoveRootContents(t, path, w);
        SrcRemoveLog(RemoveRoot(t), socket, path, w);
        DistinctConcat(log, SrcRemove(RemoveRoot(t), socket).1);
      } else {
        SrcRemoveLog(t.left, socket, path + [false], w);
        SrcRemoveLog(t.right, socket, path + [true], w);
        SideRecordsDisjoint(t, path, w);
        DistinctConcat(log, SrcRemove(t.left, socket).1);
        DistinctConcat(log + SrcRemove(t.left, socket).1, SrcRemove(t.right, socket).1);
      }
    }
  }

  lemma SideRecordsDisjoint(t: Tree, path: seq<bool>, w: nat)
    requires t.Node? && Inv(t, path, w)
    ensures Records(t.left) !! Records(t.right)
  {
    SidesDisjoint(t, path, w);
    RecordsHaveKeys(t.left);
    RecordsHaveKeys(t.right);
  }

  // ----- pfx_table_for_each_rec -----

  /** The order in which records are handed to a callback. */
  function InOrder(t: Tree): seq<Record> {
    if t.Nil? then [] else InOrder(t.left) + NodeRecords(t.prefix, t.len, t.data) + InOrder(t.right)
  }

  /** The traversal hands over every record exactly once. */
  lemma {:induction false} InOrderOnce(t: Tree, path: seq<bool>, w: nat)
    requires Inv(t, path, w)
    ensures Distinct(InOrder(t)) && Elements(InOrder(t)) == Records(t)
  {
    if t.Node? {
      var own := NodeRecords(t.prefix, t.len, t.data);
      InOrderOnce(t.left, path + [false], w);
      InOrderOnce(t.right, path + [true], w);
      NodeRecordsElements(t.prefix, t.len, t.data);
      OwnRecords(t);
      SideRecordsDisjoint(t, path, w);
      DistinctConcat(InOrder(t.left), own);
      DistinctConcat(InOrder(t.left) + own, InOrder(t.right));
    }
  }

  /** Every record of a tree is well formed for its address width. */
  lemma {:induction false} RecordsWellFormed(t: Tree, path: seq<bool>, w: nat)
    requires Inv(t, path, w)
    ensures forall r :: r in Records(t) ==> WellFormed(r, w)
  {
    if t.Node? {
      RecordsWellFormed(t.left, path + [false], w);
      RecordsWellFormed(t.right, path + [true], w);
    }
  }
}
