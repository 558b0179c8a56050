/** The pointer code of rtrlib/pfx/trie/trie.c: nodes that are linked both ways and
    updated in place. Each method is proved to compute the function of the same name
    in `Trie`. The shape of the linked structure is a ghost value passed along with
    the node it starts from. */
module TrieNodes {
  import opened Trie
  import OriginValidation

  /** struct trie_node. */
  class TrieNode {
    var prefix: Addr
    var len: nat
    var data: seq<Elem>
    var lchild: TrieNode?
    var rchild: TrieNode?
    var parent: TrieNode?

    constructor (prefix: Addr, len: nat, data: seq<Elem>)
      ensures this.prefix == prefix && this.len == len && this.data == data
      ensures lchild == null && rchild == null && parent == null
    {
      this.prefix, this.len, this.data := prefix, len, data;
      lchild, rchild, parent := null, null, null;
    }
  }

  // ----- Shapes -----

  datatype Shape = Empty | Fork(node: TrieNode, left: Shape, right: Shape)

  ghost function Top(s: Shape): TrieNode? {
    if s.Empty? then null else s.node
  }

  ghost function Nodes(s: Shape): set<TrieNode> {
    if s.Empty? then {} else {s.node} + Nodes(s.left) + Nodes(s.right)
  }

  ghost function Count(s: Shape): nat {
    if s.Empty? then 0 else 1 + Count(s.left) + Count(s.right)
  }

  /** The nodes are linked as the shape says, in both directions, without sharing. */
  ghost predicate Linked(s: Shape)
    reads Nodes(s)
  {
    s.Empty? || (
      && s.node.lchild == Top(s.left) && s.node.rchild == Top(s.right)
      && (s.left.Fork? ==> assert s.left.node in Nodes(s.left); s.left.node.parent == s.node)
      && (s.right.Fork? ==> assert s.right.node in Nodes(s.right); s.right.node.parent == s.node)
      && s.node !in Nodes(s.left) + Nodes(s.right)
      && Nodes(s.left) !! Nodes(s.right)
      && Linked(s.left) && Linked(s.right))
  }

  /** A whole tree: its root has no parent. */
  ghost predicate Rooted(s: Shape, root: TrieNode?)
    reads Nodes(s)
  {
    Linked(s) && Top(s) == root && (s.Fork? ==> s.node.parent == null)
  }

  ghost function Value(s: Shape): (t: Tree)
    reads Nodes(s)
    ensures t.Node? <==> s.Fork?
  {
    if s.Empty? then Nil
    else Node(s.node.prefix, s.node.len, s.node.data, Value(s.left), Value(s.right))
  }

  /** A structure none of whose nodes changed is still linked and has the same value. */
  twostate lemma {:induction false} Frame(s: Shape)
    requires forall n :: n in Nodes(s) && old(allocated(n)) ==> unchanged(n)
    ensures Linked(s) == old(Linked(s)) && Value(s) == old(Value(s))
    ensures s.Fork? ==> s.node.parent == old(s.node.parent)
  {
    if s.Fork? {
      assert s.node in Nodes(s) && unchanged(s.node);
      if s.left.Fork? { assert s.left.node in Nodes(s); }
      if s.right.Fork? { assert s.right.node in Nodes(s); }
      Frame(s.left);
      Frame(s.right);
    }
  }

  lemma {:induction false} NodesAllocated(s: Shape)
    ensures forall n :: n in Nodes(s) ==> allocated(n)
  {
    if s.Fork? {
      NodesAllocated(s.left);
      NodesAllocated(s.right);
    }
  }

  // ----- trie_insert -----

  method SwapNodes(a: TrieNode, b: TrieNode)
    requires a != b
    modifies a`prefix, a`len, a`data, b`prefix, b`len, b`data
    ensures a.prefix == old(b.prefix) && a.len == old(b.len) && a.data == old(b.data)
    ensures b.prefix == old(a.prefix) && b.len == old(a.len) && b.data == old(a.data)
  {
    a.prefix, b.prefix := b.prefix, a.prefix;
    a.len, b.len := b.len, a.len;
    a.data, b.data := b.data, a.data;
  }

  ghost function Side(s: Shape, right: bool): Shape
    requires s.Fork?
  {
    if right then s.right else s.left
  }

  ghost function WithSide(s: Shape, right: bool, c: Shape): Shape
    requires s.Fork?
  {
    if right then s.(right := c) else s.(left := c)
  }

  /** One level of a linked structure, put together again after one side changed. */
  lemma Join(s: Shape, b: bool, c: Shape)
    requires s.Fork? && Linked(Side(s, !b)) && Linked(c)
    requires s.node.lchild == Top(if b then s.left else c) && s.node.rchild == Top(if b then c else s.right)
    requires Side(s, !b).Fork? ==> Side(s, !b).node.parent == s.node
    requires c.Fork? ==> c.node.parent == s.node
    requires s.node !in Nodes(c) + Nodes(Side(s, !b)) && Nodes(c) !! Nodes(Side(s, !b))
    ensures Linked(WithSide(s, b, c))
    ensures Value(WithSide(s, b, c))
         == WithChild(Node(s.node.prefix, s.node.len, s.node.data, Value(s.left), Value(s.right)), b, Value(c))
  {
  }

  /** add_child_node. */
  method AddChildNode(parent: TrieNode, child: TrieNode, right: bool)
    modifies parent, child
    requires parent != child
    ensures child.parent == parent
    ensures parent.lchild == (if right then old(parent.lchild) else child)
    ensures parent.rchild == (if right then child else old(parent.rchild))
    ensures unchanged(parent`prefix) && unchanged(parent`len) && unchanged(parent`data) && unchanged(parent`parent)
    ensures unchanged(child`prefix) && unchanged(child`len) && unchanged(child`data)
    ensures unchanged(child`lchild) && unchanged(child`rchild)
  {
    if right { parent.rchild := child; } else { parent.lchild := child; }
    child.parent := parent;
  }

  lemma SideNodesAdd(s: Shape, b: bool, c: Shape, n: TrieNode)
    requires s.Fork? && Nodes(c) == Nodes(Side(s, b)) + {n}
    ensures Nodes(WithSide(s, b, c)) == Nodes(s) + {n}
  {
  }

  lemma InsertStep(t: Tree, prefix: Addr, len: nat, data: seq<Elem>, lvl: nat)
    requires t.Node?
    ensures var up := if len < t.len then Node(prefix, len, data, t.left, t.right) else t;
            var down := if len < t.len then t else Node(prefix, len, data, Nil, Nil);
            var b := Bit(down.prefix, lvl);
            Trie.Insert(t, prefix, len, data, lvl)
              == WithChild(up, b, Trie.Insert(Child(up, b), down.prefix, down.len, down.data, lvl + 1))
  {
  }

  method Insert(root: TrieNode, n: TrieNode, lvl: nat, ghost s: Shape) returns (ghost s': Shape)
    requires s.Fork? && s.node == root && Linked(s)
    requires n !in Nodes(s) && n.lchild == null && n.rchild == null
    modifies Nodes(s), n
    ensures s'.Fork? && s'.node == root && Linked(s') && root.parent == old(root.parent)
    ensures Nodes(s') == Nodes(s) + {n}
    ensures Value(s') == Trie.Insert(old(Value(s)), old(n.prefix), old(n.len), old(n.data), lvl)
    decreases s, 1
  {
    InsertStep(Value(s), n.prefix, n.len, n.data, lvl);
    if n.len < root.len {
      SwapNodes(root, n);
    }
    Frame(s.left);
    Frame(s.right);
    s' := InsertBelow(root, n, lvl, s);
  }

  /** The second half of trie_insert: attach the node, or go on in its child. */
  method InsertBelow(root: TrieNode, n: TrieNode, lvl: nat, ghost s: Shape) returns (ghost s': Shape)
    requires s.Fork? && s.node == root && Linked(s)
    requires n !in Nodes(s) && n.lchild == null && n.rchild == null
    modifies Nodes(s), n
    ensures s'.Fork? && s'.node == root && Linked(s') && root.parent == old(root.parent)
    ensures Nodes(s') == Nodes(s) + {n}
    ensures var b := Bit(old(n.prefix), lvl);
            Value(s') == WithChild(old(Value(s)), b,
                                   Trie.Insert(Child(old(Value(s)), b), old(n.prefix), old(n.len), old(n.data), lvl + 1))
    decreases s, 0
  {
    var right := Bit(n.prefix, lvl);
    var child := if right then root.rchild else root.lchild;
    ghost var c := Side(s, right);
    ghost var other := Side(s, !right);
    assert Nodes(s) == {root} + Nodes(c) + Nodes(other);
    assert root !in Nodes(c) && root !in Nodes(other) && Nodes(c) !! Nodes(other);
    ghost var c';
    if child == null {
      AddChildNode(root, n, right);
      c' := Fork(n, Empty, Empty);
    } else {
      c' := Insert(child, n, lvl + 1, c);
    }
    Frame(other);
    assert Nodes(c') == Nodes(c) + {n};
    Join(s, right, c');
    SideNodesAdd(s, right, c', n);
    s' := WithSide(s, right, c');
  }

  // ----- trie_remove -----

  ghost function Above(n: TrieNode): set<TrieNode>
    reads n
  {
    if n.parent == null then {} else {n.parent}
  }

  /** The parent lost its link to `child` when the subtree is gone, and nothing else. */
  twostate predicate Unlinked(p: TrieNode?, child: TrieNode, gone: bool)
    reads p
  {
    p != null ==>
      && p.prefix == old(p.prefix) && p.len == old(p.len) && p.data == old(p.data) && p.parent == old(p.parent)
      && p.lchild == (if gone && old(p.lchild) == child then null else old(p.lchild))
      && p.rchild == (if gone && old(p.lchild) != child then null else old(p.rchild))
  }

  /** deref_node. */
  method DerefNode(n: TrieNode)
    requires n.parent != n
    modifies Above(n)
    ensures Unlinked(old(n.parent), n, true)
    ensures n.parent == old(n.parent)
  {
    if n.parent == null { return; }
    if n.parent.lchild == n {
      n.parent.lchild := null;
      return;
    }
    n.parent.rchild := null;
  }

  /** One level put together again after a removal inside one side. */
  twostate lemma Rejoin(s: Shape, new b: bool, new c: Shape)
    requires s.Fork? && old(Linked(s)) && Side(s, b).Fork?
    requires Unlinked(s.node, Side(s, b).node, c.Empty?)
    requires Linked(c) && Nodes(c) <= Nodes(Side(s, b))
    requires c.Fork? ==> c.node == Side(s, b).node && c.node.parent == s.node
    requires var other := Side(s, !b); forall n :: n in Nodes(other) && old(allocated(n)) ==> unchanged(n)
    ensures Linked(WithSide(s, b, c))
    ensures Value(WithSide(s, b, c)) == WithChild(old(Value(s)), b, Value(c))
  {
    Frame(Side(s, !b));
    Join(s, b, c);
  }

  /** Taking a node out of one side takes it out of the whole. */
  lemma SideNodes(s: Shape, b: bool, c: Shape, rm: TrieNode)
    requires s.Fork? && s.node !in Nodes(s.left) + Nodes(s.right) && Nodes(s.left) !! Nodes(s.right)
    requires rm in Nodes(Side(s, b)) && Nodes(c) == Nodes(Side(s, b)) - {rm} && Count(c) == Count(Side(s, b)) - 1
    ensures rm in Nodes(s) && Nodes(WithSide(s, b, c)) == Nodes(s) - {rm} && Count(WithSide(s, b, c)) == Count(s) - 1
  {
  }

  /** trie_remove: the node to free, or null if the key is not on its own path. */
  method Remove(root: TrieNode, prefix: Addr, len: nat, lvl: nat, ghost s: Shape)
    returns (rm: TrieNode?, ghost s': Shape)
    requires s.Fork? && s.node == root && Linked(s) && root.parent !in Nodes(s)
    modifies Nodes(s), Above(root)
    ensures Linked(s') && (s'.Fork? ==> s'.node == root && root.parent == old(root.parent))
    ensures rm == null ==> s' == s
    ensures rm != null ==> rm in Nodes(s) && Nodes(s') == Nodes(s) - {rm} && Count(s') == Count(s) - 1
    ensures Unlinked(old(root.parent), root, s'.Empty?)
    ensures Value(s') == Trie.Remove(old(Value(s)), prefix, len, lvl)
    ensures old(root.len == len && root.prefix == prefix) ==> rm != null && rm.data == old(root.data)
    ensures s'.Empty? <==> rm == root
    decreases s, 2
  {
    if root.len == len && root.prefix == prefix {
      rm, s' := RemoveHere(root, lvl, s);
      return;
    }
    var right := Bit(prefix, lvl);
    var child := if right then root.rchild else root.lchild;
    if child == null {
      rm, s' := null, s;
      return;
    }
    rm, s' := RemoveBelow(root, prefix, len, lvl, right, s);
  }

  /** The recursive step of trie_remove into one child. */
  method RemoveBelow(root: TrieNode, prefix: Addr, len: nat, lvl: nat, right: bool, ghost s: Shape)
    returns (rm: TrieNode?, ghost s': Shape)
    requires s.Fork? && s.node == root && Linked(s) && Side(s, right).Fork?
    modifies Nodes(s)
    ensures s'.Fork? && s'.node == root && Linked(s') && root.parent == old(root.parent)
    ensures rm == null ==> s' == s
    ensures rm != null ==> rm in Nodes(s) && rm != root && Nodes(s') == Nodes(s) - {rm} && Count(s') == Count(s) - 1
    ensures Value(s') == WithChild(old(Value(s)), right, Trie.Remove(Child(old(Value(s)), right), prefix, len, lvl + 1))
    ensures root.prefix == old(root.prefix) && root.len == old(root.len) && root.data == old(root.data)
    ensures var c := Side(s, right).node;
            old(c.len == len && c.prefix == prefix) ==> rm != null && rm.data == old(c.data)
    decreases s, 0
  {
    var child := if right then root.rchild else root.lchild;
    ghost var c := Side(s, right);
    ghost var c';
    rm, c' := Remove(child, prefix, len, lvl + 1, c);
    Rejoin(s, right, c');
    s' := WithSide(s, right, c');
    if rm != null { SideNodes(s, right, c', rm); }
  }

  /** replace_node_data: the child's content moves up, and the child takes the data
      that is to be freed with it. */
  method MoveUp(root: TrieNode, right: bool, ghost s: Shape)
    requires s.Fork? && s.node == root && Linked(s) && Side(s, right).Fork?
    modifies root`prefix, root`len, root`data, Side(s, right).node`data
    ensures Linked(s)
    ensures var t := old(Value(s)); var c := Child(t, right);
            Value(s) == WithChild(Node(c.prefix, c.len, c.data, t.left, t.right), right, c.(data := t.data))
    ensures Side(s, right).node.data == old(root.data)
  {
    var child := if right then root.rchild else root.lchild;
    var tmp := root.data;
    root.prefix, root.len, root.data := child.prefix, child.len, child.data;
    child.data := tmp;
    ghost var c := Side(s, right);
    Frame(c.left);
    Frame(c.right);
    Frame(Side(s, !right));
  }

  lemma RemoveRootStep(t: Tree, lvl: nat)
    requires t.Node? && (t.left.Node? || t.right.Node?)
    ensures var b := !(t.left.Node? && (t.right.Nil? || t.left.len < t.right.len));
            var c := Child(t, b);
            && c.Node?
            && RemoveRoot(t) == WithChild(Node(c.prefix, c.len, c.data, t.left, t.right), b,
                                          Trie.Remove(c.(data := t.data), c.prefix, c.len, lvl + 1))
  {
  }

  /** The node matches: a leaf is unlinked; otherwise the content of the child with the
      shorter prefix moves up, and that child is removed. */
  method RemoveHere(root: TrieNode, lvl: nat, ghost s: Shape)
    returns (rm: TrieNode, ghost s': Shape)
    requires s.Fork? && s.node == root && Linked(s) && root.parent !in Nodes(s)
    modifies Nodes(s), Above(root)
    ensures Linked(s') && (s'.Fork? ==> s'.node == root && root.parent == old(root.parent))
    ensures rm in Nodes(s) && Nodes(s') == Nodes(s) - {rm} && Count(s') == Count(s) - 1
    ensures Unlinked(old(root.parent), root, s'.Empty?)
    ensures Value(s') == RemoveRoot(old(Value(s)))
    ensures rm.data == old(root.data)
    ensures s'.Empty? <==> rm == root
    decreases s, 1
  {
    if root.lchild == null && root.rchild == null {
      DerefNode(root);
      rm, s' := root, Empty;
      return;
    }
    RemoveRootStep(Value(s), lvl);
    var right := !(root.lchild != null && (root.rchild == null || root.lchild.len < root.rchild.len));
    MoveUp(root, right, s);
    var child := if right then root.rchild else root.lchild;
    rm, s' := RemoveBelow(root, child.prefix, child.len, lvl, right, s);
  }

  // ----- trie_lookup and trie_lookup_exact -----

  /** trie_lookup: the next node of the walk through `t`, and its level. */
  method Lookup(root: TrieNode?, q: Addr, qlen: nat, lvl0: nat, ghost s: Shape, ghost t: Tree)
    returns (n: TrieNode?, lvl: nat, ghost sub: Shape, ghost found: Tree)
    requires Linked(s) && Top(s) == root && Value(s) == t
    ensures Linked(sub) && Top(sub) == n && Count(sub) <= Count(s) && Value(sub) == found
    ensures n == null ==> OriginValidation.Walk(t, q, qlen, lvl0) == []
    ensures n != null ==>
              && OriginValidation.Covers(n.prefix, n.len, q, qlen)
              && var walk := OriginValidation.Walk(t, q, qlen, lvl0);
                 walk != [] && walk[0] == found && walk[1..] == OriginValidation.Walk(Child(found, Bit(q, lvl)), q, qlen, lvl + 1)
  {
    n, lvl, sub, found := root, lvl0, s, t;
    while n != null
      invariant Linked(sub) && Top(sub) == n && Count(sub) <= Count(s) && Value(sub) == found
      invariant OriginValidation.Walk(t, q, qlen, lvl0) == OriginValidation.Walk(found, q, qlen, lvl)
      decreases sub
    {
      if OriginValidation.Covers(n.prefix, n.len, q, qlen) {
        return;
      }
      if !Bit(q, lvl) {
        n, sub, found := n.lchild, sub.left, found.left;
      } else {
        n, sub, found := n.rchild, sub.right, found.right;
      }
      lvl := lvl + 1;
    }
  }

  ghost predicate OnPath(s: Shape, p: seq<bool>) {
    s.Fork? && (p == [] || OnPath(Side(s, p[0]), p[1..]))
  }

  ghost function SubAt(s: Shape, p: seq<bool>): (r: Shape)
    requires OnPath(s, p)
    ensures r.Fork?
  {
    if p == [] then s else SubAt(Side(s, p[0]), p[1..])
  }

  lemma {:induction false} PathStep(s: Shape, p: seq<bool>, b: bool)
    requires OnPath(s, p) && Side(SubAt(s, p), b).Fork?
    ensures OnPath(s, p + [b]) && SubAt(s, p + [b]) == Side(SubAt(s, p), b)
  {
    if p == [] {
    } else {
      PathStep(Side(s, p[0]), p[1..], b);
      assert (p + [b])[1..] == p[1..] + [b];
    }
  }

  lemma {:induction false} LinkedAt(s: Shape, p: seq<bool>)
    requires OnPath(s, p) && Linked(s)
    ensures Linked(SubAt(s, p)) && Nodes(SubAt(s, p)) <= Nodes(s)
    ensures ValidPath(Value(s), p) && Value(SubAt(s, p)) == At(Value(s), p)
  {
    if p != [] { LinkedAt(Side(s, p[0]), p[1..]); }
  }

  /** What the search still has to return when it stands at `t`, having gone along `p`. */
  ghost predicate Pending(whole: (bool, seq<bool>), t: Tree, prefix: Addr, len: nat, p: seq<bool>) {
    t.Node? &&
    if p != [] && len < t.len then whole == (false, p[..|p| - 1])
    else var r := Trie.LookupExact(t, prefix, len, |p|); whole == (r.0, p + r.1)
  }

  lemma PendingStep(whole: (bool, seq<bool>), t: Tree, prefix: Addr, len: nat, p: seq<bool>)
    requires Pending(whole, t, prefix, len, p) && (p == [] || t.len <= len)
    ensures var b := Bit(prefix, |p|);
            if t.len == len && t.prefix == prefix then whole == (true, p)
            else if Child(t, b).Nil? then whole == (false, p)
            else Pending(whole, Child(t, b), prefix, len, p + [b])
  {
    var b := Bit(prefix, |p|);
    var c := Child(t, b);
    var here := Trie.LookupExact(t, prefix, len, |p|);
    assert p + [] == p;
    if !(t.len == len && t.prefix == prefix) && c.Node? {
      var q := p + [b];
      assert q != [] && q[..|q| - 1] == p;
      if len < c.len {
        assert here == (false, []);
      } else {
        var r := Trie.LookupExact(c, prefix, len, |q|);
        assert here == (r.0, [b] + r.1);
        assert p + ([b] + r.1) == q + r.1;
      }
    }
  }

  /** trie_lookup_exact: where the search from the root stops. */
  method LookupExact(root: TrieNode, prefix: Addr, len: nat, ghost s: Shape)
    returns (n: TrieNode, lvl: nat, found: bool, ghost p: seq<bool>)
    requires s.Fork? && s.node == root && Linked(s)
    ensures (found, p) == Trie.LookupExact(Value(s), prefix, len, 0) && lvl == |p|
    ensures found == Trie.LookupExact(Value(s), prefix, len, 0).0
    ensures OnPath(s, p) && n == SubAt(s, p).node
  {
    n, lvl, found, p := root, 0, false, [];
    ghost var c := s;
    ghost var whole := Trie.LookupExact(Value(s), prefix, len, 0);
    assert p + whole.1 == whole.1;
    while true
      invariant OnPath(s, p) && c == SubAt(s, p) && Linked(c) && n == c.node && |p| == lvl
      invariant p != [] ==> OnPath(s, p[..lvl - 1]) && n.parent == SubAt(s, p[..lvl - 1]).node
      invariant whole == Trie.LookupExact(Value(s), prefix, len, 0)
      invariant Pending(whole, Value(c), prefix, len, p)
      invariant !found
      decreases c
    {
      if lvl > 0 && n.len > len {
        n, lvl, p := n.parent, lvl - 1, p[..lvl - 1];
        return;
      }
      PendingStep(whole, Value(c), prefix, len, p);
      if n.len == len && n.prefix == prefix {
        found := true;
        return;
      }
      var b := Bit(prefix, lvl);
      var child := if b then n.rchild else n.lchild;
      if child == null {
        return;
      }
      PathStep(s, p, b);
      assert (p + [b])[..lvl] == p;
      n, lvl, p, c := child, lvl + 1, p + [b], Side(c, b);
    }
  }

  // ----- Changing a subtree in place -----

  ghost function SubReplace(s: Shape, p: seq<bool>, sub: Shape): Shape
    requires OnPath(s, p)
  {
    if p == [] then sub else WithSide(s, p[0], SubReplace(Side(s, p[0]), p[1..], sub))
  }

  lemma {:induction false} SubNodes(s: Shape, p: seq<bool>)
    requires OnPath(s, p)
    ensures Nodes(SubAt(s, p)) <= Nodes(s)
  {
    if p != [] { SubNodes(Side(s, p[0]), p[1..]); }
  }

  /** No node occurs twice. */
  ghost predicate Apart(s: Shape) {
    s.Empty? || (
      && s.node !in Nodes(s.left) + Nodes(s.right) && Nodes(s.left) !! Nodes(s.right)
      && Apart(s.left) && Apart(s.right))
  }

  lemma {:induction false} LinkedApart(s: Shape)
    requires Linked(s)
    ensures Apart(s)
  {
    if s.Fork? {
      LinkedApart(s.left);
      LinkedApart(s.right);
    }
  }

  lemma {:induction false} SubReplaceNodes(s: Shape, p: seq<bool>, sub: Shape)
    requires Apart(s) && OnPath(s, p)
    ensures Nodes(SubReplace(s, p, sub)) == Nodes(s) - Nodes(SubAt(s, p)) + Nodes(sub)
  {
    if p != [] {
      SubNodes(Side(s, p[0]), p[1..]);
      SubReplaceNodes(Side(s, p[0]), p[1..], sub);
    }
  }

  /** When only the nodes of one subtree changed, and it is linked again under the same
      top node, the whole is linked and its value changed at that position only. */
  twostate lemma {:induction false} Replaced(s: Shape, new p: seq<bool>, new sub: Shape)
    requires old(Linked(s)) && Apart(s) && OnPath(s, p)
    requires Linked(sub) && sub.Fork? && sub.node == SubAt(s, p).node
    requires sub.node.parent == old(SubAt(s, p).node.parent)
    requires Nodes(sub) !! Nodes(s) - Nodes(SubAt(s, p))
    requires var inner := SubAt(s, p);
             forall n :: n in Nodes(s) && n !in Nodes(inner) && old(allocated(n)) ==> unchanged(n)
    ensures var s' := SubReplace(s, p, sub);
            s'.Fork? && s'.node == s.node && s'.node.parent == old(s.node.parent) && Linked(s')
    ensures old(ValidPath(Value(s), p)) && Value(SubReplace(s, p, sub)) == ReplaceAt(old(Value(s)), p, Value(sub))
    decreases p
  {
    if p != [] {
      var b := p[0];
      var c := Side(s, b);
      SubNodes(c, p[1..]);
      assert s.node in Nodes(s) && s.node !in Nodes(SubAt(s, p));
      assert Nodes(Side(s, !b)) <= Nodes(s) - Nodes(SubAt(s, p));
      Replaced(c, p[1..], sub);
      SubReplaceNodes(c, p[1..], sub);
      Frame(Side(s, !b));
      Join(s, b, SubReplace(c, p[1..], sub));
    }
  }
}
