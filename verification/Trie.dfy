/** The prefix trie of rtrlib/pfx/trie/trie.c as a value: its invariant, its
    operations, and the theorems about them. `TrieNodes.dfy` shows that the
    pointer code computes exactly these functions.

    An address is a sequence of `w` bits, most significant first (`w` is 32 for
    IPv4 and 128 for IPv6). */
module Trie {

  type Addr = seq<bool>

  /** struct data_elem: one record stored under a (prefix, length) node. */
  datatype Elem = Elem(asn: nat, maxLen: nat, socket: nat)

  /** struct rtr_pfx_record. */
  datatype Record = Record(prefix: Addr, minLen: nat, maxLen: nat, asn: nat, socket: nat)

  /** struct trie_node, without the parent link. */
  datatype Tree =
    | Nil
    | Node(prefix: Addr, len: nat, data: seq<Elem>, left: Tree, right: Tree)

  /** Bit `i`, counted from the most significant one. Reads past the width
      answer false; by `PastWidthIsChain` there is nothing to choose at those levels,
      and `NoChildPastWidth` says when there is not even a node below. */
  predicate Bit(a: Addr, i: nat) {
    i < |a| && a[i]
  }

  function Child(t: Tree, right: bool): Tree
    requires t.Node?
  {
    if right then t.right else t.left
  }

  function WithChild(t: Tree, right: bool, c: Tree): Tree
    requires t.Node?
  {
    if right then t.(right := c) else t.(left := c)
  }

  function ToRecord(prefix: Addr, len: nat, e: Elem): Record {
    Record(prefix, len, e.maxLen, e.asn, e.socket)
  }

  function ToElem(r: Record): Elem {
    Elem(r.asn, r.maxLen, r.socket)
  }

  /** pfx_table_node2pfx_record: the records of one node, in array order. */
  function NodeRecords(prefix: Addr, len: nat, data: seq<Elem>): (rs: seq<Record>)
    ensures |rs| == |data|
  {
    seq(|data|, i requires 0 <= i < |data| => ToRecord(prefix, len, data[i]))
  }

  ghost function Keys(t: Tree): set<(Addr, nat)> {
    if t.Nil? then {} else {(t.prefix, t.len)} + Keys(t.left) + Keys(t.right)
  }

  ghost function Own(prefix: Addr, len: nat, data: seq<Elem>): set<Record> {
    set e | e in data :: ToRecord(prefix, len, e)
  }

  ghost function Records(t: Tree): set<Record> {
    if t.Nil? then {} else Own(t.prefix, t.len, t.data) + Records(t.left) + Records(t.right)
  }

  function Size(t: Tree): nat {
    if t.Nil? then 0 else 1 + Size(t.left) + Size(t.right)
  }

  ghost predicate Distinct<T>(s: seq<T>) {
    forall i, j :: 0 <= i < j < |s| ==> s[i] != s[j]
  }

  // ----- The invariant -----

  /** The address has the bits of the path; past its width it has zeros. */
  ghost predicate Routed(prefix: Addr, path: seq<bool>) {
    forall i :: 0 <= i < |path| ==> path[i] == Bit(prefix, i)
  }

  /** What holds of one node reached by following the bits of `path`. Bits beyond the
      length of a prefix may be set, and nothing bounds the level. */
  ghost predicate NodeInv(t: Tree, path: seq<bool>, w: nat)
    requires t.Node?
  {
    && |t.prefix| == w && Routed(t.prefix, path)                        // bit routing
    && t.data != [] && Distinct(t.data)
    && (t.left.Node? ==> t.len <= t.left.len)                           // heap order
    && (t.right.Node? ==> t.len <= t.right.len)
    && (t.prefix, t.len) !in Keys(t.left) + Keys(t.right)               // unique keys
  }

  ghost predicate Inv(t: Tree, path: seq<bool>, w: nat) {
    t.Nil? || (
      && NodeInv(t, path, w)
      && Inv(t.left, path + [false], w)
      && Inv(t.right, path + [true], w))
  }

  lemma RoutedOn(prefix: Addr, path: seq<bool>, b: bool)
    ensures Routed(prefix, path + [b]) <==> Routed(prefix, path) && Bit(prefix, |path|) == b
  {
    assert forall i :: 0 <= i < |path| ==> (path + [b])[i] == path[i];
    assert (path + [b])[|path|] == b;
  }

  lemma SameBits(a: Addr, b: Addr)
    requires |a| == |b| && forall i :: 0 <= i < |a| ==> Bit(a, i) == Bit(b, i)
    ensures a == b
  {
    assert forall i :: 0 <= i < |a| ==> a[i] == Bit(a, i) && b[i] == Bit(b, i);
  }

  // ----- Levels -----

  /** Every node sits at a level no deeper than its prefix length. */
  ghost predicate LevelsFit(t: Tree, lvl: nat) {
    t.Nil? || (lvl <= t.len && LevelsFit(t.left, lvl + 1) && LevelsFit(t.right, lvl + 1))
  }

  /** Two keys of one IP version that stand for the same prefix: equal up to their
      common length. */
  ghost predicate SamePrefix(k: (Addr, nat), m: (Addr, nat)) {
    |k.0| == |m.0| && k.1 == m.1 && forall i :: 0 <= i < k.1 ==> Bit(k.0, i) == Bit(m.0, i)
  }

  ghost predicate Unambiguous(keys: set<(Addr, nat)>) {
    forall k, m :: k in keys && m in keys && SamePrefix(k, m) ==> k == m
  }

  /** A prefix with no bit set beyond its length. */
  ghost predicate Canonical(prefix: Addr, len: nat, w: nat) {
    |prefix| == w && len <= w && forall i :: len <= i < w ==> !prefix[i]
  }

  lemma CanonicalUnambiguous(keys: set<(Addr, nat)>, w: nat)
    requires forall k :: k in keys ==> Canonical(k.0, k.1, w)
    ensures Unambiguous(keys)
  {
    forall k, m | k in keys && m in keys && SamePrefix(k, m) ensures k == m {
      forall i | 0 <= i < w ensures k.0[i] == m.0[i] {
        if i < k.1 { assert Bit(k.0, i) == Bit(m.0, i); }
      }
      assert k.0 == m.0;
    }
  }

  /** A child whose length does not exceed its parent's level stands for the same
      prefix as the parent, and has a bit set beyond its length. */
  lemma ChildDeeper(t: Tree, right: bool, path: seq<bool>, w: nat)
    requires t.Node? && Inv(t, path, w) && |path| <= t.len && Child(t, right).Node?
    ensures var c := Child(t, right);
            || |path| < c.len
            || (c.len == t.len == |path| < w && SamePrefix((t.prefix, t.len), (c.prefix, c.len))
                && (t.prefix, t.len) != (c.prefix, c.len))
  {
    var c := Child(t, right);
    RoutedOn(c.prefix, path, right);
    assert (c.prefix, c.len) in Keys(c);
    forall i | 0 <= i < |path| ensures Bit(c.prefix, i) == Bit(t.prefix, i) { assert path[i] == Bit(t.prefix, i); }
    if w <= |path| { SameBits(c.prefix, t.prefix); }
  }

  /** The key lemma: when no two keys stand for the same prefix, the heap order and
      the bit routing together bound every node's level by its length. */
  lemma {:induction false} LevelAtMostLength(t: Tree, path: seq<bool>, w: nat)
    requires Inv(t, path, w) && Unambiguous(Keys(t))
    requires t.Node? ==> |path| <= t.len
    ensures LevelsFit(t, |path|)
  {
    if t.Node? {
      ChildFits(t, false, path, w);
      LevelAtMostLength(t.left, path + [false], w);
      ChildFits(t, true, path, w);
      LevelAtMostLength(t.right, path + [true], w);
    }
  }

  lemma ChildFits(t: Tree, right: bool, path: seq<bool>, w: nat)
    requires t.Node? && Inv(t, path, w) && |path| <= t.len && Unambiguous(Keys(t))
    ensures var c := Child(t, right); Unambiguous(Keys(c)) && (c.Node? ==> |path| < c.len)
  {
    var c := Child(t, right);
    if c.Node? {
      ChildDeeper(t, right, path, w);
      assert (c.prefix, c.len) in Keys(t) && (t.prefix, t.len) in Keys(t);
    }
  }

  /** From the level of the address width on, a path holds one prefix with growing
      lengths: there is nothing to choose. */
  lemma PastWidthIsChain(t: Tree, path: seq<bool>, w: nat)
    requires t.Node? && Inv(t, path, w) && w <= |path|
    ensures t.right.Nil?
    ensures t.left.Node? ==> t.left.prefix == t.prefix && t.len < t.left.len
  {
    if t.right.Node? { RoutedOn(t.right.prefix, path, true); }
    if t.left.Node? {
      RoutedOn(t.left.prefix, path, false);
      forall i | 0 <= i < w ensures Bit(t.left.prefix, i) == Bit(t.prefix, i) { assert path[i] == Bit(t.prefix, i); }
      SameBits(t.left.prefix, t.prefix);
      assert (t.left.prefix, t.left.len) in Keys(t.left);
    }
  }

  /** Where levels fit and no length exceeds the width, a node at that level has no
      children. */
  lemma NoChildPastWidth(t: Tree, path: seq<bool>, w: nat)
    requires t.Node? && Inv(t, path, w) && LevelsFit(t, |path|) && w <= |path|
    requires forall k :: k in Keys(t) ==> k.1 <= w
    ensures |path| == w && t.len == w && t.left.Nil? && t.right.Nil?
  {
    PastWidthIsChain(t, path, w);
    assert (t.prefix, t.len) in Keys(t);
  }

  // ----- trie_insert -----

  /** trie_insert: the shorter of the two prefixes stays, the longer one moves
      down along its own bits until it finds an empty child. */
  function Insert(t: Tree, prefix: Addr, len: nat, data: seq<Elem>, lvl: nat): Tree {
    if t.Nil? then Node(prefix, len, data, Nil, Nil)
    else if len < t.len then
      var b := Bit(t.prefix, lvl);
      WithChild(Node(prefix, len, data, t.left, t.right), b,
                Insert(Child(t, b), t.prefix, t.len, t.data, lvl + 1))
    else
      var b := Bit(prefix, lvl);
      WithChild(t, b, Insert(Child(t, b), prefix, len, data, lvl + 1))
  }

  lemma {:induction false} InsertContents(t: Tree, prefix: Addr, len: nat, data: seq<Elem>, lvl: nat)
    ensures Keys(Insert(t, prefix, len, data, lvl)) == Keys(t) + {(prefix, len)}
    ensures Records(Insert(t, prefix, len, data, lvl))
         == Records(t) + Own(prefix, len, data)
    ensures Insert(t, prefix, len, data, lvl).len == if t.Nil? || len < t.len then len else t.len
  {
    if t.Node? {
      if len < t.len {
        InsertContents(Child(t, Bit(t.prefix, lvl)), t.prefix, t.len, t.data, lvl + 1);
      } else {
        InsertContents(Child(t, Bit(prefix, lvl)), prefix, len, data, lvl + 1);
      }
    }
  }

  /** A node may be added below `path` at this key. */
  ghost predicate Insertable(t: Tree, prefix: Addr, len: nat, data: seq<Elem>, path: seq<bool>, w: nat) {
    && |prefix| == w && Routed(prefix, path)
    && data != [] && Distinct(data)
    && (prefix, len) !in Keys(t)
  }

  /** What a node has of its own. */
  ghost predicate NodeFits(prefix: Addr, data: seq<Elem>, path: seq<bool>, w: nat) {
    |prefix| == w && Routed(prefix, path) && data != [] && Distinct(data)
  }

  /** A child and its sibling below a node, taken apart and put together. */
  lemma Parts(t: Tree, b: bool, path: seq<bool>, w: nat)
    requires t.Node? && Inv(t, path, w)
    ensures NodeFits(t.prefix, t.data, path, w)
    ensures Inv(Child(t, b), path + [b], w) && Inv(Child(t, !b), path + [!b], w)
    ensures (Child(t, b).Node? ==> t.len <= Child(t, b).len) && (Child(t, !b).Node? ==> t.len <= Child(t, !b).len)
    ensures (t.prefix, t.len) !in Keys(Child(t, b)) + Keys(Child(t, !b))
    ensures Keys(t) == {(t.prefix, t.len)} + Keys(Child(t, b)) + Keys(Child(t, !b))
  {
  }

  lemma Together(t: Tree, b: bool, c: Tree, path: seq<bool>, w: nat)
    requires t.Node? && NodeFits(t.prefix, t.data, path, w)
    requires Inv(c, path + [b], w) && Inv(Child(t, !b), path + [!b], w)
    requires (c.Node? ==> t.len <= c.len) && (Child(t, !b).Node? ==> t.len <= Child(t, !b).len)
    requires (t.prefix, t.len) !in Keys(c) + Keys(Child(t, !b))
    ensures Inv(WithChild(t, b, c), path, w)
    ensures Keys(WithChild(t, b, c)) == {(t.prefix, t.len)} + Keys(c) + Keys(Child(t, !b))
  {
  }

  lemma OneNode(prefix: Addr, len: nat, data: seq<Elem>, path: seq<bool>, w: nat)
    requires NodeFits(prefix, data, path, w)
    ensures Inv(Node(prefix, len, data, Nil, Nil), path, w)
  {
    var n := Node(prefix, len, data, Nil, Nil);
    assert NodeInv(n, path, w);
    assert Inv(n.left, path + [false], w) && Inv(n.right, path + [true], w);
  }

  lemma {:induction false} InsertKeepsInv(t: Tree, prefix: Addr, len: nat, data: seq<Elem>, path: seq<bool>, w: nat)
    requires Inv(t, path, w) && Insertable(t, prefix, len, data, path, w)
    ensures Inv(Insert(t, prefix, len, data, |path|), path, w)
  {
    hide Inv, Keys, Distinct, Routed, Bit;
    if t.Nil? {
      OneNode(prefix, len, data, path, w);
    } else if len < t.len {
      var b := Bit(t.prefix, |path|);
      RoutedOn(t.prefix, path, b);
      Parts(t, b, path, w);
      InsertKeepsInv(Child(t, b), t.prefix, t.len, t.data, path + [b], w);
      InsertContents(Child(t, b), t.prefix, t.len, t.data, |path| + 1);
      Together(Node(prefix, len, data, t.left, t.right), b, Insert(Child(t, b), t.prefix, t.len, t.data, |path| + 1), path, w);
    } else {
      var b := Bit(prefix, |path|);
      RoutedOn(prefix, path, b);
      Parts(t, b, path, w);
      InsertKeepsInv(Child(t, b), prefix, len, data, path + [b], w);
      InsertContents(Child(t, b), prefix, len, data, |path| + 1);
      Together(t, b, Insert(Child(t, b), prefix, len, data, |path| + 1), path, w);
    }
  }

  // ----- Positions in the tree -----

  predicate ValidPath(t: Tree, p: seq<bool>) {
    p == [] || (t.Node? && ValidPath(Child(t, p[0]), p[1..]))
  }

  function At(t: Tree, p: seq<bool>): Tree
    requires ValidPath(t, p)
  {
    if p == [] then t else At(Child(t, p[0]), p[1..])
  }

  function ReplaceAt(t: Tree, p: seq<bool>, s: Tree): Tree
    requires ValidPath(t, p)
  {
    if p == [] then s else WithChild(t, p[0], ReplaceAt(Child(t, p[0]), p[1..], s))
  }

  // ----- trie_lookup_exact -----

  /** trie_lookup_exact from a node: whether the key was found, and the position
      of the node returned. It stops above a missing child and above a child whose
      prefix is already longer than the one sought. */
  function LookupExact(t: Tree, prefix: Addr, len: nat, lvl: nat): (r: (bool, seq<bool>))
    requires t.Node?
    ensures ValidPath(t, r.1) && At(t, r.1).Node?
    ensures r.0 ==> At(t, r.1).prefix == prefix && At(t, r.1).len == len
  {
    var b := Bit(prefix, lvl);
    var c := Child(t, b);
    if t.len == len && t.prefix == prefix then (true, [])
    else if c.Nil? || len < c.len then (false, [])
    else
      var r := LookupExact(c, prefix, len, lvl + 1);
      assert ([b] + r.1)[1..] == r.1;
      (r.0, [b] + r.1)
  }

  /** All keys below `path` carry its bits, and none is shorter than the root. */
  lemma {:induction false} KeysRouted(t: Tree, path: seq<bool>, w: nat)
    requires Inv(t, path, w)
    ensures forall k :: k in Keys(t) ==> |k.0| == w && Routed(k.0, path) && t.Node? && t.len <= k.1
  {
    if t.Node? {
      KeysRouted(t.left, path + [false], w);
      KeysRouted(t.right, path + [true], w);
      forall k | k in Keys(t) ensures |k.0| == w && Routed(k.0, path) && t.len <= k.1 {
        RoutedOn(k.0, path, false);
        RoutedOn(k.0, path, true);
      }
    }
  }

  /** The exact lookup finds a key if and only if the tree holds it. */
  lemma {:induction false} LookupExactFinds(t: Tree, prefix: Addr, len: nat, path: seq<bool>, w: nat)
    requires t.Node? && Inv(t, path, w) && Routed(prefix, path)
    ensures LookupExact(t, prefix, len, |path|).0 <==> (prefix, len) in Keys(t)
  {
    var b := Bit(prefix, |path|);
    var c := Child(t, b);
    if !(t.len == len && t.prefix == prefix) {
      KeysRouted(c, path + [b], w);
      OtherSideDiffers(t, prefix, path, w);
      if c.Node? && c.len <= len {
        RoutedOn(prefix, path, b);
        LookupExactFinds(c, prefix, len, path + [b], w);
      }
    }
  }

  lemma OtherSideDiffers(t: Tree, prefix: Addr, path: seq<bool>, w: nat)
    requires t.Node? && Inv(t, path, w)
    ensures forall k :: k in Keys(Child(t, !Bit(prefix, |path|))) ==> k.0 != prefix
  {
    var b := Bit(prefix, |path|);
    KeysRouted(Child(t, !b), path + [!b], w);
    RoutedOn(prefix, path, !b);
  }

  /** Inserting at the node where a failed exact lookup stopped is inserting from
      the root: nothing above it would have been displaced. */
  lemma {:induction false} InsertWhereStopped(t: Tree, prefix: Addr, len: nat, data: seq<Elem>, path: seq<bool>, w: nat)
    requires t.Node? && Inv(t, path, w)
    requires !LookupExact(t, prefix, len, |path|).0
    ensures var p := LookupExact(t, prefix, len, |path|).1;
            ReplaceAt(t, p, Insert(At(t, p), prefix, len, data, |path| + |p|)) == Insert(t, prefix, len, data, |path|)
  {
    var b := Bit(prefix, |path|);
    var c := Child(t, b);
    if c.Node? && c.len <= len {
      InsertWhereStopped(c, prefix, len, data, path + [b], w);
      var p := LookupExact(t, prefix, len, |path|).1;
      assert p == [b] + LookupExact(c, prefix, len, |path| + 1).1;
      assert p[1..] == LookupExact(c, prefix, len, |path| + 1).1;
    }
  }

  // ----- trie_remove -----

  /** Removing the root: the child with the shorter prefix moves up (the right one
      on a tie) and is removed from its own subtree in turn. */
  function RemoveRoot(t: Tree): Tree
    requires t.Node?
  {
    if t.left.Nil? && t.right.Nil? then Nil
    else if t.left.Node? && (t.right.Nil? || t.left.len < t.right.len) then
      Node(t.left.prefix, t.left.len, t.left.data, RemoveRoot(t.left), t.right)
    else
      Node(t.right.prefix, t.right.len, t.right.data, t.left, RemoveRoot(t.right))
  }

  lemma {:induction false} RemoveRootSize(t: Tree)
    requires t.Node?
    ensures Size(RemoveRoot(t)) == Size(t) - 1
  {
    if t.left.Node? && (t.right.Nil? || t.left.len < t.right.len) {
      RemoveRootSize(t.left);
    } else if t.right.Node? {
      RemoveRootSize(t.right);
    }
  }

  /** trie_remove: search along the bits of the prefix and remove that node. */
  function Remove(t: Tree, prefix: Addr, len: nat, lvl: nat): Tree {
    if t.Nil? then Nil
    else if t.len == len && t.prefix == prefix then RemoveRoot(t)
    else
      var b := Bit(prefix, lvl);
      WithChild(t, b, Remove(Child(t, b), prefix, len, lvl + 1))
  }

  lemma SidesDisjoint(t: Tree, path: seq<bool>, w: nat)
    requires t.Node? && Inv(t, path, w)
    ensures Keys(t.left) !! Keys(t.right)
  {
    KeysRouted(t.left, path + [false], w);
    KeysRouted(t.right, path + [true], w);
    forall k | k in Keys(t.left) ensures k !in Keys(t.right) {
      RoutedOn(k.0, path, false);
      RoutedOn(k.0, path, true);
    }
  }

  lemma {:induction false} RemoveRootContents(t: Tree, path: seq<bool>, w: nat)
    requires t.Node? && Inv(t, path, w)
    ensures Keys(RemoveRoot(t)) == Keys(t) - {(t.prefix, t.len)}
    ensures Records(RemoveRoot(t)) == Records(t.left) + Records(t.right)
    ensures RemoveRoot(t).Node? ==> t.len <= RemoveRoot(t).len
  {
    SidesDisjoint(t, path, w);
    if t.left.Node? && (t.right.Nil? || t.left.len < t.right.len) {
      RemoveRootContents(t.left, path + [false], w);
    } else if t.right.Node? {
      RemoveRootContents(t.right, path + [true], w);
    }
  }

  lemma {:induction false} RemoveRootKeepsInv(t: Tree, path: seq<bool>, w: nat)
    requires t.Node? && Inv(t, path, w)
    ensures Inv(RemoveRoot(t), path, w)
  {
    SidesDisjoint(t, path, w);
    if t.left.Node? && (t.right.Nil? || t.left.len < t.right.len) {
      RemoveRootKeepsInv(t.left, path + [false], w);
      RemoveRootContents(t.left, path + [false], w);
      RoutedOn(t.left.prefix, path, false);
      assert (t.left.prefix, t.left.len) in Keys(t.left);
      assert NodeInv(RemoveRoot(t), path, w);
    } else if t.right.Node? {
      RemoveRootKeepsInv(t.right, path + [true], w);
      RemoveRootContents(t.right, path + [true], w);
      RoutedOn(t.right.prefix, path, true);
      assert (t.right.prefix, t.right.len) in Keys(t.right);
      assert NodeInv(RemoveRoot(t), path, w);
    }
  }

  lemma NoKeys()
    ensures Keys(Nil) == {}
  {
  }

  lemma {:induction false} RemoveKeepsInv(t: Tree, prefix: Addr, len: nat, path: seq<bool>, w: nat)
    requires Inv(t, path, w) && Routed(prefix, path)
    ensures Inv(Remove(t, prefix, len, |path|), path, w)
    ensures Keys(Remove(t, prefix, len, |path|)) == Keys(t) - {(prefix, len)}
    ensures var r := Remove(t, prefix, len, |path|); r.Node? ==> t.Node? && t.len <= r.len
  {
    NoKeys();
    hide Inv, Keys, Distinct, RemoveRoot, Routed, Bit;
    if t.Node? {
      if t.len == len && t.prefix == prefix {
        RemoveRootKeepsInv(t, path, w);
        RemoveRootContents(t, path, w);
      } else {
        var b := Bit(prefix, |path|);
        RoutedOn(prefix, path, b);
        Parts(t, b, path, w);
        RemoveKeepsInv(Child(t, b), prefix, len, path + [b], w);
        OtherSideDiffers(t, prefix, path, w);
        Together(t, b, Remove(Child(t, b), prefix, len, |path| + 1), path, w);
      }
    }
  }
}
