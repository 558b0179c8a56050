/** struct rtr_pfx_table and its operations in rtrlib/pfx/trie/trie-pfx.c: one trie for
    IPv4 and one for IPv6, changed in place, with a log of the update callbacks. */
module PfxTables {
  import opened Trie
  import opened TrieNodes
  import PfxTree
  import OriginValidation

  // ----- Operations on one trie -----

  /** pfx_table_find_elem. */
  method FindElem(data: seq<Elem>, e: Elem) returns (found: bool, index: nat)
    ensures found <==> e in data
    ensures found ==> index == PfxTree.IndexOf(data, e)
  {
    index := 0;
    while index < |data|
      invariant index <= |data|
      invariant e !in data[..index]
      invariant e in data ==> PfxTree.IndexOf(data, e) >= index
    {
      if data[index] == e {
        found := true;
        return;
      }
      index := index + 1;
    }
    found := false;
  }

  /** rtr_pfx_table_add on one trie. */
  method AddRecord(root: TrieNode?, r: Record, ghost s: Shape)
    returns (st: PfxTree.Status, root': TrieNode, ghost s': Shape)
    requires Rooted(s, root)
    modifies Nodes(s)
    ensures Rooted(s', root') && fresh(Nodes(s') - Nodes(s))
    ensures (st, Value(s')) == PfxTree.Add(old(Value(s)), r)
  {
    if root == null {
      root' := new TrieNode(r.prefix, r.minLen, [ToElem(r)]);
      st, s' := PfxTree.Success, Fork(root', Empty, Empty);
      return;
    }
    root' := root;
    LinkedApart(s);
    NodesAllocated(s);
    var n, lvl, found, p := TrieNodes.LookupExact(root, r.prefix, r.minLen, s);
    Frame(s);
    LinkedAt(s, p);
    if found {
      var dup, _ := FindElem(n.data, ToElem(r));
      if dup {
        st, s' := PfxTree.DuplicateRecord, s;
        return;
      }
      SetNodeData(n, n.data + [ToElem(r)], s, p);
      st, s' := PfxTree.Success, s;
    } else {
      var fresh_node := new TrieNode(r.prefix, r.minLen, [ToElem(r)]);
      Frame(s);
      s' := InsertAt(n, fresh_node, lvl, s, p);
      st := PfxTree.Success;
    }
  }

  /** Replacing the element array of the node at a position. */
  method SetNodeData(n: TrieNode, data: seq<Elem>, ghost s: Shape, ghost p: seq<bool>)
    requires Linked(s) && Apart(s) && OnPath(s, p) && n == SubAt(s, p).node
    modifies n`data
    ensures Linked(s) && n.data == data && s.node.parent == old(s.node.parent)
    ensures old(ValidPath(Value(s), p)) && old(At(Value(s), p)).Node?
    ensures Value(s) == ReplaceAt(old(Value(s)), p, old(At(Value(s), p)).(data := data))
  {
    LinkedAt(s, p);
    ghost var sub := SubAt(s, p);
    n.data := data;
    Frame(sub.left);
    Frame(sub.right);
    Replaced(s, p, sub);
    SameShape(s, p);
  }

  lemma {:induction false} SameShape(s: Shape, p: seq<bool>)
    requires OnPath(s, p)
    ensures SubReplace(s, p, SubAt(s, p)) == s
  {
    if p != [] { SameShape(Side(s, p[0]), p[1..]); }
  }

  /** trie_insert started at an inner node. */
  method InsertAt(n: TrieNode, added: TrieNode, lvl: nat, ghost s: Shape, ghost p: seq<bool>) returns (ghost s': Shape)
    requires Linked(s) && Apart(s) && OnPath(s, p) && n == SubAt(s, p).node
    requires added !in Nodes(s) && added.lchild == null && added.rchild == null
    modifies Nodes(s), added
    ensures s'.Fork? && s'.node == s.node && Linked(s') && s.node.parent == old(s.node.parent)
    ensures Nodes(s') == Nodes(s) + {added}
    ensures old(ValidPath(Value(s), p))
    ensures Value(s') == ReplaceAt(old(Value(s)), p,
              Trie.Insert(old(At(Value(s), p)), old(added.prefix), old(added.len), old(added.data), lvl))
  {
    LinkedAt(s, p);
    ghost var sub := SubAt(s, p);
    ghost var sub' := TrieNodes.Insert(n, added, lvl, sub);
    Replaced(s, p, sub');
    SubReplaceNodes(s, p, sub');
    s' := SubReplace(s, p, sub');
  }

  lemma {:induction false} PathInit(s: Shape, p: seq<bool>)
    requires OnPath(s, p) && p != []
    ensures OnPath(s, p[..|p| - 1]) && SubAt(s, p) == Side(SubAt(s, p[..|p| - 1]), p[|p| - 1])
  {
    if |p| > 1 {
      PathInit(Side(s, p[0]), p[1..]);
      assert p[1..][..|p| - 2] == p[..|p| - 1][1..];
    }
  }

  lemma {:induction false} ReplaceAtInit(t: Tree, p: seq<bool>, x: Tree)
    requires p != [] && ValidPath(t, p)
    ensures var q := p[..|p| - 1]; var b := p[|p| - 1];
            && ValidPath(t, q) && At(t, q).Node? && At(t, p) == Child(At(t, q), b)
            && ReplaceAt(t, q, WithChild(At(t, q), b, x)) == ReplaceAt(t, p, x)
  {
    if |p| > 1 {
      ReplaceAtInit(Child(t, p[0]), p[1..], x);
      assert p[1..][..|p| - 2] == p[..|p| - 1][1..];
    }
  }

  /** trie_remove of the node at a position: its content is replaced from below, and the
      node that is freed is the last one of that chain. */
  method RemoveAt(n: TrieNode, lvl: nat, ghost s: Shape, ghost p: seq<bool>) returns (rm: TrieNode, ghost s': Shape)
    requires Linked(s) && Apart(s) && OnPath(s, p) && n == SubAt(s, p).node && s.node.parent == null
    modifies Nodes(s)
    ensures Linked(s') && (s'.Fork? ==> s'.node == s.node && s.node.parent == null)
    ensures rm in Nodes(s) && Nodes(s') <= Nodes(s)
    ensures old(ValidPath(Value(s), p)) && old(At(Value(s), p)).Node?
    ensures Value(s') == ReplaceAt(old(Value(s)), p, RemoveRoot(old(At(Value(s), p))))
    ensures rm == s.node <==> s'.Empty?
    ensures rm.data == old(n.data)
  {
    LinkedAt(s, p);
    if p != [] {
      PathInit(s, p);
      LinkedAt(s, p[..|p| - 1]);
    }
    if n.parent == null {
      rm, s' := TrieNodes.Remove(n, n.prefix, n.len, lvl, s);
      return;
    }
    rm, s' := RemoveInner(n, lvl, s, p);
  }

  method RemoveInner(n: TrieNode, lvl: nat, ghost s: Shape, ghost p: seq<bool>) returns (rm: TrieNode, ghost s': Shape)
    requires Linked(s) && Apart(s) && OnPath(s, p) && n == SubAt(s, p).node && p != []
    modifies Nodes(s)
    ensures s'.Fork? && s'.node == s.node && Linked(s') && s.node.parent == old(s.node.parent)
    ensures rm in Nodes(s) && rm != s.node && Nodes(s') <= Nodes(s)
    ensures old(ValidPath(Value(s), p)) && old(At(Value(s), p)).Node?
    ensures Value(s') == ReplaceAt(old(Value(s)), p, RemoveRoot(old(At(Value(s), p))))
    ensures rm.data == old(n.data)
  {
    ghost var q, b := p[..|p| - 1], p[|p| - 1];
    LinkedAt(s, p);
    PathInit(s, p);
    LinkedAt(s, q);
    SubNodes(Side(s, p[0]), p[1..]);
    ReplaceAtInit(Value(s), p, RemoveRoot(At(Value(s), p)));
    ghost var outer := SubAt(s, q);
    ghost var inner;
    rm, inner := RemoveSide(n, lvl, outer, b);
    Replaced(s, q, inner);
    SubReplaceNodes(s, q, inner);
    s' := SubReplace(s, q, inner);
  }

  /** trie_remove of a node that has a parent, seen from that parent. */
  method RemoveSide(n: TrieNode, lvl: nat, ghost s: Shape, ghost b: bool) returns (rm: TrieNode, ghost s': Shape)
    requires s.Fork? && Linked(s) && Side(s, b).Fork? && Side(s, b).node == n
    modifies Nodes(s)
    ensures s'.Fork? && s'.node == s.node && Linked(s') && s.node.parent == old(s.node.parent)
    ensures rm in Nodes(Side(s, b)) && Nodes(s') <= Nodes(s)
    ensures Value(s') == WithChild(old(Value(s)), b, RemoveRoot(Child(old(Value(s)), b)))
    ensures rm.data == old(n.data)
  {
    ghost var c;
    rm, c := TrieNodes.Remove(n, n.prefix, n.len, lvl, Side(s, b));
    Rejoin(s, b, c);
    s' := WithSide(s, b, c);
  }

  /** pfx_table_del_elem: later elements move one place to the front. */
  method DelElem(data: seq<Elem>, index: nat) returns (r: seq<Elem>)
    requires index < |data|
    ensures r == PfxTree.Without(data, index)
  {
    r := data;
    for i := index to |data| - 1
      invariant |r| == |data|
      invariant r[..i] == data[..index] + data[index + 1..i + 1] && r[i..] == data[i..]
    {
      r := r[i := r[i + 1]];
    }
    r := r[..|data| - 1];
  }

  /** rtr_pfx_table_remove on one trie. */
  method RemoveRecord(root: TrieNode?, r: Record, ghost s: Shape)
    returns (st: PfxTree.Status, root': TrieNode?, ghost s': Shape)
    requires Rooted(s, root)
    modifies Nodes(s)
    ensures Rooted(s', root') && Nodes(s') <= Nodes(s)
    ensures (st, Value(s')) == PfxTree.Remove(old(Value(s)), r)
  {
    st, root', s' := PfxTree.RecordNotFound, root, s;
    if root == null { return; }
    LinkedApart(s);
    var n, lvl, found, p := TrieNodes.LookupExact(root, r.prefix, r.minLen, s);
    Frame(s);
    if !found { return; }
    LinkedAt(s, p);
    var present, index := FindElem(n.data, ToElem(r));
    Frame(s);
    if !present { return; }
    var data := DelElem(n.data, index);
    Frame(s);
    st := PfxTree.Success;
    root', s' := StoreOrDrop(root, n, lvl, data, s, p);
  }

  /** Store the shortened element array; a node left without elements is removed. */
  method StoreOrDrop(root: TrieNode, n: TrieNode, lvl: nat, data: seq<Elem>, ghost s: Shape, ghost p: seq<bool>)
    returns (root': TrieNode?, ghost s': Shape)
    requires Rooted(s, root) && Apart(s) && OnPath(s, p) && n == SubAt(s, p).node
    modifies Nodes(s)
    ensures Rooted(s', root') && Nodes(s') <= Nodes(s)
    ensures old(ValidPath(Value(s), p)) && old(At(Value(s), p)).Node?
    ensures var t := old(Value(s)); var node := At(t, p);
            Value(s') == ReplaceAt(t, p, if data == [] then RemoveRoot(node) else node.(data := data))
  {
    ghost var t := Value(s);
    LinkedAt(s, p);
    SetNodeData(n, data, s, p);
    root', s' := root, s;
    if data == [] {
      ReplaceTwice(t, p, At(t, p).(data := data), RemoveRoot(At(t, p)));
      LinkedAt(s, p);
      var rm;
      rm, s' := RemoveAt(n, lvl, s, p);
      root' := if rm == root then null else root;
    }
  }

  lemma {:induction false} ReplaceTwice(t: Tree, p: seq<bool>, x: Tree, y: Tree)
    requires ValidPath(t, p)
    ensures ValidPath(ReplaceAt(t, p, x), p) && At(ReplaceAt(t, p, x), p) == x
    ensures ReplaceAt(ReplaceAt(t, p, x), p, y) == ReplaceAt(t, p, y)
  {
    if p != [] { ReplaceTwice(Child(t, p[0]), p[1..], x, y); }
  }

  // ----- pfx_table_remove_id -----

  /** Elements before `i` are done: those kept are in place, those dropped are in `gone`. */
  ghost predicate Dropping(was: seq<Elem>, data: seq<Elem>, i: nat, socket: nat, gone: seq<Elem>) {
    && i <= |data|
    && PfxTree.FromSocket(was, socket, false) == data[..i] + PfxTree.FromSocket(data[i..], socket, false)
    && PfxTree.FromSocket(was, socket, true) == gone + PfxTree.FromSocket(data[i..], socket, true)
  }

  lemma DropStep(was: seq<Elem>, data: seq<Elem>, i: nat, socket: nat, gone: seq<Elem>)
    requires Dropping(was, data, i, socket, gone) && i < |data| && data[i].socket == socket
    ensures Dropping(was, PfxTree.Without(data, i), i, socket, gone + [data[i]])
  {
    var less := PfxTree.Without(data, i);
    assert less[..i] == data[..i] && less[i..] == data[i..][1..];
    var rest := PfxTree.FromSocket(less[i..], socket, true);
    assert gone + ([data[i]] + rest) == (gone + [data[i]]) + rest;
  }

  lemma KeepStep(was: seq<Elem>, data: seq<Elem>, i: nat, socket: nat, gone: seq<Elem>)
    requires Dropping(was, data, i, socket, gone) && i < |data| && data[i].socket != socket
    ensures Dropping(was, data, i + 1, socket, gone)
  {
    assert data[..i + 1] == data[..i] + [data[i]] && data[i..][1..] == data[i + 1..];
    var rest := PfxTree.FromSocket(data[i + 1..], socket, false);
    assert data[..i] + ([data[i]] + rest) == data[..i + 1] + rest;
  }

  /** The inner loop: delete the elements of one socket, logging each. */
  method DropSocket(node: TrieNode, socket: nat) returns (log: seq<Record>)
    modifies node`data
    ensures node.data == PfxTree.FromSocket(old(node.data), socket, false)
    ensures log == NodeRecords(node.prefix, node.len, PfxTree.FromSocket(old(node.data), socket, true))
  {
    log := [];
    ghost var gone: seq<Elem> := [];
    var i := 0;
    hide PfxTree.FromSocket;
    while i < |node.data|
      invariant Dropping(old(node.data), node.data, i, socket, gone)
      invariant log == NodeRecords(node.prefix, node.len, gone)
    {
      while |node.data| > i && node.data[i].socket == socket
        invariant Dropping(old(node.data), node.data, i, socket, gone)
        invariant log == NodeRecords(node.prefix, node.len, gone)
        decreases |node.data|
      {
        DropStep(old(node.data), node.data, i, socket, gone);
        gone := gone + [node.data[i]];
        log := log + [ToRecord(node.prefix, node.len, node.data[i])];
        var data := DelElem(node.data, i);
        node.data := data;
      }
      if i < |node.data| {
        KeepStep(old(node.data), node.data, i, socket, gone);
        i := i + 1;
      }
    }
  }

  /** What is still to be done when `t` is left and `log` has been reported. */
  ghost predicate Owed(whole: (Tree, seq<Record>), t: Tree, log: seq<Record>, socket: nat) {
    var r := PfxTree.SrcRemove(t, socket);
    whole == (r.0, log + r.1)
  }

  ghost predicate Settled(whole: (Tree, seq<Record>), t: Tree, log: seq<Record>, socket: nat) {
    t.Node? &&
    var l := PfxTree.SrcRemove(t.left, socket); var r := PfxTree.SrcRemove(t.right, socket);
    whole == (Node(t.prefix, t.len, t.data, l.0, r.0), log + l.1 + r.1)
  }

  lemma OwedStep(whole: (Tree, seq<Record>), t: Tree, log: seq<Record>, socket: nat)
    requires t.Node? && Owed(whole, t, log, socket)
    ensures var keep := PfxTree.FromSocket(t.data, socket, false);
            var log' := log + NodeRecords(t.prefix, t.len, PfxTree.FromSocket(t.data, socket, true));
            if keep != [] then Settled(whole, t.(data := keep), log', socket)
            else
              && RemoveRoot(t.(data := keep)) == RemoveRoot(t)
              && Owed(whole, RemoveRoot(t), log', socket)
              && (RemoveRoot(t).Nil? ==> whole == (Nil, log'))
  {
    hide NodeRecords, PfxTree.FromSocket, Own;
    var more := NodeRecords(t.prefix, t.len, PfxTree.FromSocket(t.data, socket, true));
    if PfxTree.FromSocket(t.data, socket, false) == [] {
      var rest := PfxTree.SrcRemove(RemoveRoot(t), socket);
      assert log + (more + rest.1) == (log + more) + rest.1;
      assert log + more + [] == log + more;
    } else {
      var l, r := PfxTree.SrcRemove(t.left, socket), PfxTree.SrcRemove(t.right, socket);
      assert log + (more + l.1 + r.1) == log + more + l.1 + r.1;
    }
  }

  /** The loop of pfx_table_remove_id: clean the node until elements of other sockets
      remain in it or nothing is left to move up. */
  method SettleNode(node: TrieNode, socket: nat, level: nat, ghost s: Shape)
    returns (removed: bool, log: seq<Record>, ghost s': Shape)
    requires s.Fork? && s.node == node && Linked(s) && node.parent !in Nodes(s)
    modifies Nodes(s), Above(node)
    ensures Linked(s') && Nodes(s') <= Nodes(s) && Count(s') <= Count(s)
    ensures s'.Fork? ==> s'.node == node && node.parent == old(node.parent)
    ensures removed <==> s'.Empty?
    ensures Unlinked(old(node.parent), node, removed)
    ensures removed ==> (Nil, log) == PfxTree.SrcRemove(old(Value(s)), socket)
    ensures !removed ==> Settled(PfxTree.SrcRemove(old(Value(s)), socket), Value(s'), log, socket)
  {
    removed, log, s' := false, [], s;
    ghost var whole := PfxTree.SrcRemove(Value(s), socket);
    assert [] + whole.1 == whole.1;
    while true
      invariant s'.Fork? && s'.node == node && Linked(s') && Nodes(s') <= Nodes(s) && Count(s') <= Count(s)
      invariant node.parent == old(node.parent) && Unlinked(old(node.parent), node, false)
      invariant Owed(whole, Value(s'), log, socket)
      invariant !removed
      decreases Count(s')
    {
      OwedStep(whole, Value(s'), log, socket);
      log := CleanNode(node, socket, log, s');
      if node.data != [] {
        return;
      }
      var rm;
      rm, s' := TrieNodes.Remove(node, node.prefix, node.len, level, s');
      if rm == node {
        removed := true;
        return;
      }
    }
  }

  /** One pass over the node's elements; the structure around it stays as it is. */
  method CleanNode(node: TrieNode, socket: nat, log0: seq<Record>, ghost s: Shape)
    returns (log: seq<Record>)
    requires s.Fork? && s.node == node && Linked(s)
    modifies node`data
    ensures Linked(s)
    ensures var t := old(Value(s));
            && Value(s) == t.(data := PfxTree.FromSocket(t.data, socket, false))
            && log == log0 + NodeRecords(t.prefix, t.len, PfxTree.FromSocket(t.data, socket, true))
  {
    var more := DropSocket(node, socket);
    log := log0 + more;
    Frame(s.left);
    Frame(s.right);
  }

  /** pfx_table_remove_id: remove the records of one socket from the subtree at `node`.
      `emptied` says that the root itself was removed. */
  method RemoveId(root: TrieNode, node: TrieNode, socket: nat, level: nat, ghost s: Shape)
    returns (emptied: bool, log: seq<Record>, ghost s': Shape)
    requires s.Fork? && s.node == node && Linked(s) && node.parent !in Nodes(s)
    modifies Nodes(s), Above(node)
    ensures Linked(s') && Nodes(s') <= Nodes(s) && Count(s') <= Count(s)
    ensures s'.Fork? ==> s'.node == node && node.parent == old(node.parent)
    ensures Unlinked(old(node.parent), node, s'.Empty?)
    ensures (Value(s'), log) == PfxTree.SrcRemove(old(Value(s)), socket)
    ensures emptied <==> root == node && s'.Empty?
    decreases Count(s), 1
  {
    ghost var whole := PfxTree.SrcRemove(Value(s), socket);
    var removed;
    removed, log, s' := SettleNode(node, socket, level, s);
    emptied := removed && node == root;
    if removed { return; }
    var lefts, rights;
    lefts, s' := RemoveIdSide(root, node, socket, level, false, s');
    rights, s' := RemoveIdSide(root, node, socket, level, true, s');
    log := log + lefts + rights;
  }

  /** The recursive call of pfx_table_remove_id on one child, if there is one. */
  method RemoveIdSide(root: TrieNode, node: TrieNode, socket: nat, level: nat, right: bool, ghost s: Shape)
    returns (log: seq<Record>, ghost s': Shape)
    requires s.Fork? && s.node == node && Linked(s)
    modifies Nodes(s)
    ensures s'.Fork? && s'.node == node && Linked(s') && Nodes(s') <= Nodes(s) && node.parent == old(node.parent)
    ensures Count(s') <= Count(s)
    ensures Side(s', !right) == Side(s, !right)
    ensures var c := PfxTree.SrcRemove(Child(old(Value(s)), right), socket);
            Value(s') == WithChild(old(Value(s)), right, c.0) && log == c.1
    decreases Count(s), 0
  {
    var child := if right then node.rchild else node.lchild;
    if child == null {
      log, s' := [], s;
      return;
    }
    var _, more, c' := RemoveId(root, child, socket, level + 1, Side(s, right));
    log := more;
    Rejoin(s, right, c');
    s' := WithSide(s, right, c');
  }

  // ----- rtr_pfx_table_validate_r -----

  /** The visit still to come when `n` was just added to the reasons. */
  ghost predicate Visiting(all: seq<Tree>, n: Tree, rest: seq<Tree>, asn: nat, qlen: nat, reason: seq<Record>) {
    && n.Node? && (forall x :: x in all || x in rest ==> x.Node?)
    && OriginValidation.Visit(all, asn, qlen)
       == if OriginValidation.ElemMatches(n.data, asn, qlen) then (true, reason)
          else var r := OriginValidation.Visit(rest, asn, qlen); (r.0, reason + r.1)
  }

  lemma VisitStart(all: seq<Tree>, asn: nat, qlen: nat)
    requires all != [] && forall x :: x in all ==> x.Node?
    ensures Visiting(all, all[0], all[1..], asn, qlen, NodeRecords(all[0].prefix, all[0].len, all[0].data))
  {
  }

  lemma VisitStep(all: seq<Tree>, n: Tree, rest: seq<Tree>, asn: nat, qlen: nat, reason: seq<Record>)
    requires Visiting(all, n, rest, asn, qlen, reason) && !OriginValidation.ElemMatches(n.data, asn, qlen)
    ensures rest == [] ==> OriginValidation.Visit(all, asn, qlen) == (false, reason)
    ensures rest != [] ==> Visiting(all, rest[0], rest[1..], asn, qlen,
                                    reason + NodeRecords(rest[0].prefix, rest[0].len, rest[0].data))
  {
    if rest == [] {
      assert reason + [] == reason;
    } else {
      var own := NodeRecords(rest[0].prefix, rest[0].len, rest[0].data);
      var r := OriginValidation.Visit(rest[1..], asn, qlen);
      assert reason + (own + r.1) == reason + own + r.1;
    }
  }

  /** rtr_pfx_table_validate_r on one trie. */
  method ValidateRoute(root: TrieNode?, asn: nat, q: Addr, qlen: nat, ghost s: Shape)
    returns (state: OriginValidation.State, reason: seq<Record>)
    requires Rooted(s, root)
    ensures (state, reason) == OriginValidation.Validate(Value(s), asn, q, qlen)
  {
    ghost var t := Value(s);
    ghost var all := OriginValidation.Walk(t, q, qlen, 0);
    OriginValidation.WalkNodes(t, q, qlen, 0);
    var n, lvl, sub, found := TrieNodes.Lookup(root, q, qlen, 0, s, t);
    Frame(s);
    if n == null {
      return OriginValidation.NotFound, [];
    }
    VisitStart(all, asn, qlen);
    reason := NodeRecords(n.prefix, n.len, n.data);
    var matched;
    matched, reason := VisitDown(n, lvl, asn, q, qlen, reason, sub, found, all);
    Frame(s);
    state := if matched then OriginValidation.Valid else OriginValidation.Invalid;
  }

  /** The loop: as long as no element matches, look for the next covering node below. */
  method VisitDown(start: TrieNode, lvl0: nat, asn: nat, q: Addr, qlen: nat, reason0: seq<Record>,
                   ghost s: Shape, ghost t: Tree, ghost all: seq<Tree>)
    returns (matched: bool, reason: seq<Record>)
    requires Linked(s) && Top(s) == start && Value(s) == t
    requires Visiting(all, t, OriginValidation.Walk(Child(t, Bit(q, lvl0)), q, qlen, lvl0 + 1), asn, qlen, reason0)
    ensures (matched, reason) == OriginValidation.Visit(all, asn, qlen)
  {
    var n: TrieNode, lvl := start, lvl0;
    ghost var sub, found := s, t;
    ghost var rest := OriginValidation.Walk(Child(t, Bit(q, lvl)), q, qlen, lvl + 1);
    reason := reason0;
    while !OriginValidation.ElemMatches(n.data, asn, qlen)
      invariant Linked(sub) && Top(sub) == n && Value(sub) == found
      invariant rest == OriginValidation.Walk(Child(found, Bit(q, lvl)), q, qlen, lvl + 1)
      invariant Visiting(all, found, rest, asn, qlen, reason)
      decreases Count(sub)
    {
      VisitStep(all, found, rest, asn, qlen, reason);
      var b := Bit(q, lvl);
      var next;
      next, lvl, sub, found :=
        TrieNodes.Lookup(if b then n.rchild else n.lchild, q, qlen, lvl + 1, Side(sub, b), Child(found, b));
      if next == null {
        return false, reason;
      }
      n, rest := next, rest[1..];
      reason := reason + NodeRecords(n.prefix, n.len, n.data);
    }
    matched := true;
  }

  // ----- The same operations in terms of records -----

  /** A linked trie that keeps the invariant for addresses of width `w`. */
  ghost predicate GoodTrie(s: Shape, root: TrieNode?, w: nat)
    reads Nodes(s)
  {
    Rooted(s, root) && Inv(Value(s), [], w)
  }

  ghost function Held(s: Shape): set<Record>
    reads Nodes(s)
  {
    Records(Value(s))
  }

  twostate lemma FrameTrie(s: Shape, new w: nat)
    requires forall n :: n in Nodes(s) && old(allocated(n)) ==> unchanged(n)
    requires old(GoodTrie(s, Top(s), w))
    ensures GoodTrie(s, Top(s), w) && Held(s) == old(Held(s))
  {
    Frame(s);
  }

  method InsertRecord(root: TrieNode?, r: Record, w: nat, ghost s: Shape)
    returns (st: PfxTree.Status, root': TrieNode, ghost s': Shape)
    requires GoodTrie(s, root, w) && PfxTree.WellFormed(r, w)
    modifies Nodes(s)
    ensures GoodTrie(s', root', w) && fresh(Nodes(s') - Nodes(s))
    ensures Held(s') == old(Held(s)) + {r}
    ensures st == if r in old(Held(s)) then PfxTree.DuplicateRecord else PfxTree.Success
  {
    PfxTree.AddInserts(Value(s), r, w);
    st, root', s' := AddRecord(root, r, s);
  }

  method DeleteRecord(root: TrieNode?, r: Record, w: nat, ghost s: Shape)
    returns (st: PfxTree.Status, root': TrieNode?, ghost s': Shape)
    requires GoodTrie(s, root, w)
    modifies Nodes(s)
    ensures GoodTrie(s', root', w) && Nodes(s') <= Nodes(s)
    ensures Held(s') == old(Held(s)) - {r}
    ensures st == if r in old(Held(s)) then PfxTree.Success else PfxTree.RecordNotFound
  {
    PfxTree.RemoveDeletes(Value(s), r, w);
    st, root', s' := RemoveRecord(root, r, s);
  }

  method PurgeSocket(root: TrieNode?, socket: nat, w: nat, ghost s: Shape)
    returns (log: seq<Record>, root': TrieNode?, ghost s': Shape)
    requires GoodTrie(s, root, w)
    modifies Nodes(s)
    ensures GoodTrie(s', root', w) && Nodes(s') <= Nodes(s)
    ensures Held(s') == old(Held(s)) - PfxTree.OfSocket(old(Held(s)), socket)
    ensures Distinct(log) && PfxTree.Elements(log) == PfxTree.OfSocket(old(Held(s)), socket)
  {
    log, root', s' := [], root, s;
    if root != null {
      PfxTree.SrcRemoveKeepsInv(Value(s), socket, [], w);
      PfxTree.SrcRemoveRecords(Value(s), socket, [], w);
      PfxTree.SrcRemoveLog(Value(s), socket, [], w);
      var emptied;
      emptied, log, s' := RemoveId(root, root, socket, 0, s);
      root' := if emptied then null else root;
    }
  }

  method DecideRoute(root: TrieNode?, asn: nat, q: Addr, qlen: nat, ghost s: Shape)
    returns (state: OriginValidation.State, reason: seq<Record>)
    requires GoodTrie(s, root, |q|)
    ensures OriginValidation.Sound(Held(s), asn, q, qlen, state, reason)
    ensures OriginValidation.OnePrefixOneKey(Held(s)) ==> OriginValidation.Decided(Held(s), asn, q, qlen, state, reason)
  {
    state, reason := ValidateRoute(root, asn, q, qlen, s);
    FrameTrie(s, |q|);
    OriginValidation.WalkIsSound(Value(s), asn, q, qlen, |q|);
    if OriginValidation.OnePrefixOneKey(Held(s)) { OriginValidation.WalkAgreesWithScan(Value(s), asn, q, qlen, |q|); }
  }

  // ----- struct rtr_pfx_table -----

  /** One call of the table's update callback. */
  datatype Notification = Notification(record: Record, added: bool)

  function NotifyAll(rs: seq<Record>, added: bool): (ns: seq<Notification>)
    ensures |ns| == |rs|
  {
    seq(|rs|, i requires 0 <= i < |rs| => Notification(rs[i], added))
  }

  class PfxTable {
    var ipv4: TrieNode?
    var ipv6: TrieNode?
    var hasCallback: bool               // update_fp is set
    ghost var shape4: Shape
    ghost var shape6: Shape
    ghost var Repr: set<TrieNode>       // the nodes of both tries
    ghost var Contents: set<Record>     // the records the table holds
    ghost var log: seq<Notification>    // the calls of update_fp

    ghost predicate Valid()
      reads this, Repr
    {
      && Repr == Nodes(shape4) + Nodes(shape6) && Nodes(shape4) !! Nodes(shape6)
      && GoodTrie(shape4, ipv4, 32) && GoodTrie(shape6, ipv6, 128)
      && Contents == Held(shape4) + Held(shape6)
    }

    /** rtr_pfx_table_init. */
    constructor (hasCallback: bool)
      ensures Valid() && Contents == {} && Repr == {} && log == [] && this.hasCallback == hasCallback
    {
      ipv4, ipv6, this.hasCallback := null, null, hasCallback;
      shape4, shape6, Repr, Contents, log := Empty, Empty, {}, {}, [];
    }

    /** A table whose tries are as before is still valid. */
    twostate lemma Same()
      requires old(Valid())
      requires ipv4 == old(ipv4) && ipv6 == old(ipv6) && shape4 == old(shape4) && shape6 == old(shape6)
      requires Repr == old(Repr) && Contents == old(Contents)
      requires forall n :: n in Repr && old(allocated(n)) ==> unchanged(n)
      ensures Valid()
    {
      FrameTrie(shape4, 32);
      FrameTrie(shape6, 128);
    }

    /** pfx_table_notify_clients. */
    method Notify(r: Record, added: bool)
      modifies this`log
      ensures log == old(log) + if hasCallback then [Notification(r, added)] else []
    {
      if hasCallback { log := log + [Notification(r, added)]; }
    }

    /** The two tries hold records of their own version only. */
    lemma Versions()
      requires Valid()
      ensures forall r :: r in Held(shape4) ==> PfxTree.WellFormed(r, 32)
      ensures forall r :: r in Held(shape6) ==> PfxTree.WellFormed(r, 128)
    {
      PfxTree.RecordsWellFormed(Value(shape4), [], 32);
      PfxTree.RecordsWellFormed(Value(shape6), [], 128);
    }

    /** rtr_pfx_table_add. */
    method Add(r: Record) returns (st: PfxTree.Status)
      requires Valid() && (PfxTree.WellFormed(r, 32) || PfxTree.WellFormed(r, 128))
      modifies this, Repr
      ensures Valid() && fresh(Repr - old(Repr)) && hasCallback == old(hasCallback)
      ensures Contents == old(Contents) + {r}
      ensures st == if r in old(Contents) then PfxTree.DuplicateRecord else PfxTree.Success
      ensures log == old(log) + if st.Success? && hasCallback then [Notification(r, true)] else []
    {
      if |r.prefix| == 32 {
        st := AddV4(r);
      } else {
        st := AddV6(r);
      }
      label changed: if st.Success? { Notify(r, true); }
      Same@changed();
    }

    method AddV4(r: Record) returns (st: PfxTree.Status)
      requires Valid() && PfxTree.WellFormed(r, 32)
      modifies this`ipv4, this`shape4, this`Repr, this`Contents, Repr
      ensures Valid() && fresh(Repr - old(Repr)) && Contents == old(Contents) + {r}
      ensures st == if r in old(Contents) then PfxTree.DuplicateRecord else PfxTree.Success
    {
      Versions();
      NodesAllocated(shape6);
      var result, root, shape := InsertRecord(ipv4, r, 32, shape4);
      label done: st := result;
      ipv4, shape4, Repr, Contents := root, shape, Nodes(shape) + Nodes(shape6), Contents + {r};
      FrameTrie@done(shape4, 32);
      FrameTrie(shape6, 128);
    }

    method AddV6(r: Record) returns (st: PfxTree.Status)
      requires Valid() && PfxTree.WellFormed(r, 128)
      modifies this`ipv6, this`shape6, this`Repr, this`Contents, Repr
      ensures Valid() && fresh(Repr - old(Repr)) && Contents == old(Contents) + {r}
      ensures st == if r in old(Contents) then PfxTree.DuplicateRecord else PfxTree.Success
    {
      Versions();
      NodesAllocated(shape4);
      var result, root, shape := InsertRecord(ipv6, r, 128, shape6);
      label done: st := result;
      ipv6, shape6, Repr, Contents := root, shape, Nodes(shape4) + Nodes(shape), Contents + {r};
      FrameTrie@done(shape6, 128);
      FrameTrie(shape4, 32);
    }

    /** rtr_pfx_table_remove. */
    method Remove(r: Record) returns (st: PfxTree.Status)
      requires Valid() && (|r.prefix| == 32 || |r.prefix| == 128)
      modifies this, Repr
      ensures Valid() && Repr <= old(Repr) && hasCallback == old(hasCallback)
      ensures Contents == old(Contents) - {r}
      ensures st == if r in old(Contents) then PfxTree.Success else PfxTree.RecordNotFound
      ensures log == old(log) + if st.Success? && hasCallback then [Notification(r, false)] else []
    {
      if |r.prefix| == 32 {
        st := RemoveV4(r);
      } else {
        st := RemoveV6(r);
      }
      label changed: if st.Success? { Notify(r, false); }
      Same@changed();
    }

    method RemoveV4(r: Record) returns (st: PfxTree.Status)
      requires Valid() && |r.prefix| == 32
      modifies this`ipv4, this`shape4, this`Repr, this`Contents, Repr
      ensures Valid() && Repr <= old(Repr) && Contents == old(Contents) - {r}
      ensures st == if r in old(Contents) then PfxTree.Success else PfxTree.RecordNotFound
    {
      Versions();
      var result, root, shape := DeleteRecord(ipv4, r, 32, shape4);
      label done: st := result;
      ipv4, shape4, Repr, Contents := root, shape, Nodes(shape) + Nodes(shape6), Contents - {r};
      FrameTrie@done(shape4, 32);
      FrameTrie(shape6, 128);
    }

    method RemoveV6(r: Record) returns (st: PfxTree.Status)
      requires Valid() && |r.prefix| == 128
      modifies this`ipv6, this`shape6, this`Repr, this`Contents, Repr
      ensures Valid() && Repr <= old(Repr) && Contents == old(Contents) - {r}
      ensures st == if r in old(Contents) then PfxTree.Success else PfxTree.RecordNotFound
    {
      Versions();
      var result, root, shape := DeleteRecord(ipv6, r, 128, shape6);
      label done: st := result;
      ipv6, shape6, Repr, Contents := root, shape, Nodes(shape4) + Nodes(shape), Contents - {r};
      FrameTrie@done(shape6, 128);
      FrameTrie(shape4, 32);
    }

    /** rtr_pfx_table_src_remove: every record of the socket goes, each is notified once. */
    method SrcRemove(socket: nat) returns (ghost gone: seq<Record>)
      requires Valid()
      modifies this, Repr
      ensures Valid() && Repr <= old(Repr) && hasCallback == old(hasCallback)
      ensures Contents == old(Contents) - PfxTree.OfSocket(old(Contents), socket)
      ensures Distinct(gone) && PfxTree.Elements(gone) == PfxTree.OfSocket(old(Contents), socket)
      ensures log == old(log) + if hasCallback then NotifyAll(gone, false) else []
    {
      Versions();
      ghost var was4, was6 := Held(shape4), Held(shape6);
      var gone4 := PurgeV4(socket);
      var gone6 := PurgeV6(socket);
      gone := gone4 + gone6;
      PfxTree.DistinctConcat(gone4, gone6);
      assert PfxTree.OfSocket(was4 + was6, socket) == PfxTree.OfSocket(was4, socket) + PfxTree.OfSocket(was6, socket);
      label before: log := log + if hasCallback then NotifyAll(gone, false) else [];
      Same@before();
    }

    method PurgeV4(socket: nat) returns (gone: seq<Record>)
      requires Valid()
      modifies this`ipv4, this`shape4, this`Repr, this`Contents, Repr
      ensures Valid() && Repr <= old(Repr) && Held(shape6) == old(Held(shape6))
      ensures Held(shape4) == old(Held(shape4)) - PfxTree.OfSocket(old(Held(shape4)), socket)
      ensures Distinct(gone) && PfxTree.Elements(gone) == PfxTree.OfSocket(old(Held(shape4)), socket)
    {
      var log, root, shape := PurgeSocket(ipv4, socket, 32, shape4);
      label done: gone := log;
      ipv4, shape4, Repr, Contents := root, shape, Nodes(shape) + Nodes(shape6), Held(shape) + Held(shape6);
      FrameTrie@done(shape4, 32);
      FrameTrie(shape6, 128);
    }

    method PurgeV6(socket: nat) returns (gone: seq<Record>)
      requires Valid()
      modifies this`ipv6, this`shape6, this`Repr, this`Contents, Repr
      ensures Valid() && Repr <= old(Repr) && Held(shape4) == old(Held(shape4))
      ensures Held(shape6) == old(Held(shape6)) - PfxTree.OfSocket(old(Held(shape6)), socket)
      ensures Distinct(gone) && PfxTree.Elements(gone) == PfxTree.OfSocket(old(Held(shape6)), socket)
    {
      var log, root, shape := PurgeSocket(ipv6, socket, 128, shape6);
      label done: gone := log;
      ipv6, shape6, Repr, Contents := root, shape, Nodes(shape4) + Nodes(shape), Held(shape4) + Held(shape);
      FrameTrie@done(shape6, 128);
      FrameTrie(shape4, 32);
    }

    /** rtr_pfx_table_validate_r. */
    method Validate(asn: nat, q: Addr, qlen: nat) returns (state: OriginValidation.State, reason: seq<Record>)
      requires Valid() && (|q| == 32 || |q| == 128)
      ensures OriginValidation.Sound(Contents, asn, q, qlen, state, reason)
      ensures OriginValidation.OnePrefixOneKey(Contents) ==> OriginValidation.Decided(Contents, asn, q, qlen, state, reason)
    {
      if |q| == 32 {
        state, reason := DecideRoute(ipv4, asn, q, qlen, shape4);
      } else {
        state, reason := DecideRoute(ipv6, asn, q, qlen, shape6);
      }
      Same();
      OtherVersion(asn, q, qlen);
    }

    /** Only records of the route's own version count. */
    lemma OtherVersion(asn: nat, q: Addr, qlen: nat)
      requires Valid() && (|q| == 32 || |q| == 128)
      ensures var own := if |q| == 32 then Held(shape4) else Held(shape6);
              && OriginValidation.CoveringSet(Contents, q, qlen) == OriginValidation.CoveringSet(own, q, qlen)
              && OriginValidation.Scan(Contents, asn, q, qlen) == OriginValidation.Scan(own, asn, q, qlen)
              && (OriginValidation.OnePrefixOneKey(Contents) ==> OriginValidation.OnePrefixOneKey(own))
    {
      Versions();
    }
  }
}
