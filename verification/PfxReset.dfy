/** What an atomic reset does with prefix tables (rtrlib/pfx/trie/trie-pfx.c): fill a
    shadow table with the other sockets' records, swap it in, and notify the difference. */
module PfxReset {
  import opened Trie
  import opened TrieNodes
  import opened PfxTables
  import PfxTree

  // ----- pfx_table_for_each_rec -----

  /** pfx_table_for_each_rec: the records in the order the callback receives them. */
  method Traverse(n: TrieNode?, ghost s: Shape, ghost t: Tree) returns (rs: seq<Record>)
    requires Linked(s) && Top(s) == n && Value(s) == t
    ensures rs == PfxTree.InOrder(t)
    decreases s
  {
    if n == null { return []; }
    var prefix, len, data, right := n.prefix, n.len, n.data, n.rchild;
    var lefts := Traverse(n.lchild, s.left, t.left);
    Frame(s.right);
    var rights := Traverse(right, s.right, t.right);
    rs := lefts + NodeRecords(prefix, len, data) + rights;
  }

  ghost function OfWidth(rs: set<Record>, w: nat): set<Record> {
    set r | r in rs && |r.prefix| == w
  }

  /** rtr_pfx_table_for_each_ipv4_record and rtr_pfx_table_for_each_ipv6_record: every
      record of that version, once. */
  method ForEachOf(table: PfxTable, w: nat) returns (rs: seq<Record>)
    requires table.Valid() && (w == 32 || w == 128)
    ensures table.Valid() && Distinct(rs) && PfxTree.Elements(rs) == OfWidth(table.Contents, w)
    ensures forall r :: r in rs ==> PfxTree.WellFormed(r, w)
  {
    ghost var s := if w == 32 then table.shape4 else table.shape6;
    ghost var t := Value(s);
    table.Versions();
    PfxTree.InOrderOnce(t, [], w);
    rs := Traverse(if w == 32 then table.ipv4 else table.ipv6, s, t);
    table.Same();
    assert Records(t) == OfWidth(table.Contents, w);
    assert forall r :: r in rs ==> r in PfxTree.Elements(rs);
  }

  /** Both in turn: every record of the table, once. */
  method ForEach(table: PfxTable) returns (rs: seq<Record>)
    requires table.Valid()
    ensures table.Valid() && Distinct(rs) && PfxTree.Elements(rs) == table.Contents
    ensures forall r :: r in rs ==> PfxTree.WellFormed(r, 32) || PfxTree.WellFormed(r, 128)
  {
    ghost var all := table.Contents;
    AllWidths(table);
    hide PfxTable.Valid;
    var r4 := ForEachOf(table, 32);
    table.Same();
    var r6 := ForEachOf(table, 128);
    table.Same();
    rs := r4 + r6;
    PfxTree.DistinctConcat(r4, r6);
  }

  lemma AllWidths(table: PfxTable)
    requires table.Valid()
    ensures table.Contents == OfWidth(table.Contents, 32) + OfWidth(table.Contents, 128)
  {
    table.Versions();
  }

  // ----- pfx_table_copy_except_socket -----

  ghost function Others(rs: set<Record>, socket: nat): set<Record> {
    set r | r in rs && r.socket != socket
  }

  /** pfx_table_copy_except_socket: the other sockets' records are added, and there is an
      error exactly when one of them was there already. After an error with the IPv4
      records the IPv6 records are not copied. */
  method CopyExceptSocket(src: PfxTable, dst: PfxTable, socket: nat) returns (error: bool)
    requires src.Valid() && dst.Valid() && src != dst && src.Repr !! dst.Repr
    modifies dst, dst.Repr
    ensures dst.Valid() && fresh(dst.Repr - old(dst.Repr)) && dst.hasCallback == old(dst.hasCallback)
    ensures error <==> !(Others(old(src.Contents), socket) !! old(dst.Contents))
    ensures var others := Others(old(src.Contents), socket);
            dst.Contents == old(dst.Contents) +
              if OfWidth(others, 32) !! old(dst.Contents) then others else OfWidth(others, 32)
  {
    AllWidths(src);
    hide PfxTable.Valid, Others, OfWidth;
    OthersByWidth(src.Contents, dst.Contents, socket);
    error := CopyVersion(src, dst, 32, socket);
    if !error { error := CopyVersion(src, dst, 128, socket); }
  }

  /** The records of one version. */
  method CopyVersion(src: PfxTable, dst: PfxTable, w: nat, socket: nat) returns (error: bool)
    requires src.Valid() && dst.Valid() && src != dst && src.Repr !! dst.Repr && (w == 32 || w == 128)
    modifies dst, dst.Repr
    ensures dst.Valid() && fresh(dst.Repr - old(dst.Repr)) && dst.hasCallback == old(dst.hasCallback)
    ensures src.Valid() && src.Repr !! dst.Repr
    ensures dst.Contents == old(dst.Contents) + Others(OfWidth(old(src.Contents), w), socket)
    ensures error <==> !(Others(OfWidth(old(src.Contents), w), socket) !! old(dst.Contents))
  {
    hide PfxTable.Valid;
    var rs := ForEachOf(src, w);
    src.Same();
    dst.Same();
    error := CopyRecords(rs, dst, socket);
    src.Same();
  }

  lemma OthersByWidth(rs: set<Record>, had: set<Record>, socket: nat)
    requires rs == OfWidth(rs, 32) + OfWidth(rs, 128)
    ensures Others(rs, socket) == OfWidth(Others(rs, socket), 32) + OfWidth(Others(rs, socket), 128)
    ensures OfWidth(Others(rs, socket), 32) == Others(OfWidth(rs, 32), socket)
    ensures OfWidth(Others(rs, socket), 128) == Others(OfWidth(rs, 128), socket)
    ensures Others(OfWidth(rs, 128), socket) !! had + Others(OfWidth(rs, 32), socket)
       <==> Others(OfWidth(rs, 128), socket) !! had
  {
  }

  /** pfx_table_copy_cb. */
  method CopyRecord(r: Record, dst: PfxTable, socket: nat) returns (error: bool)
    requires dst.Valid() && (PfxTree.WellFormed(r, 32) || PfxTree.WellFormed(r, 128))
    modifies dst, dst.Repr
    ensures dst.Valid() && fresh(dst.Repr - old(dst.Repr)) && dst.hasCallback == old(dst.hasCallback)
    ensures dst.Contents == old(dst.Contents) + if r.socket != socket then {r} else {}
    ensures error <==> r.socket != socket && r in old(dst.Contents)
  {
    hide PfxTable.Valid;
    error := false;
    if r.socket != socket {
      var st := dst.Add(r);
      error := !st.Success?;
    }
  }

  /** pfx_table_copy_cb for each record handed over. */
  method CopyRecords(rs: seq<Record>, dst: PfxTable, socket: nat) returns (error: bool)
    requires dst.Valid() && Distinct(rs)
    requires forall r :: r in rs ==> PfxTree.WellFormed(r, 32) || PfxTree.WellFormed(r, 128)
    modifies dst, dst.Repr
    ensures dst.Valid() && fresh(dst.Repr - old(dst.Repr)) && dst.hasCallback == old(dst.hasCallback)
    ensures dst.Contents == old(dst.Contents) + Others(PfxTree.Elements(rs), socket)
    ensures error <==> !(Others(PfxTree.Elements(rs), socket) !! old(dst.Contents))
  {
    hide PfxTable.Valid;
    if rs == [] { return false; }
    Uncons(rs);
    ghost var start := dst.Contents;
    var failed := CopyRecord(rs[0], dst, socket);
    ghost var now := dst.Contents;
    error := CopyRecords(rs[1..], dst, socket);
    CopiedSets(rs[0], PfxTree.Elements(rs[1..]), start, socket);
    assert dst.Contents == now + Others(PfxTree.Elements(rs[1..]), socket);
    error := failed || error;
  }

  lemma CopiedSets(r: Record, rest: set<Record>, start: set<Record>, socket: nat)
    requires r !in rest
    ensures var more := if r.socket != socket then {r} else {};
            && Others({r} + rest, socket) == more + Others(rest, socket)
            && (Others({r} + rest, socket) !! start <==> more !! start && Others(rest, socket) !! start + more)
  {
  }

  lemma Uncons(rs: seq<Record>)
    requires rs != [] && Distinct(rs)
    ensures Distinct(rs[1..]) && rs[0] !in rs[1..]
    ensures PfxTree.Elements(rs) == {rs[0]} + PfxTree.Elements(rs[1..])
  {
    assert rs == [rs[0]] + rs[1..];
  }

  // ----- pfx_table_swap -----

  /** A table that took over another's tries is valid as the other was. */
  twostate lemma Taken(a: PfxTable, new b: PfxTable)
    requires old(allocated(b)) && old(b.Valid())
    requires a.ipv4 == old(b.ipv4) && a.ipv6 == old(b.ipv6) && a.shape4 == old(b.shape4) && a.shape6 == old(b.shape6)
    requires a.Repr == old(b.Repr) && a.Contents == old(b.Contents)
    requires forall n :: n in a.Repr && old(allocated(n)) ==> unchanged(n)
    ensures a.Valid()
  {
    FrameTrie(a.shape4, 32);
    FrameTrie(a.shape6, 128);
  }

  /** pfx_table_swap: the tries change places; the callbacks stay. */
  method Swap(a: PfxTable, b: PfxTable)
    requires a.Valid() && b.Valid() && a != b
    modifies a`ipv4, a`ipv6, a`shape4, a`shape6, a`Repr, a`Contents, b`ipv4, b`ipv6, b`shape4, b`shape6, b`Repr, b`Contents
    ensures a.Valid() && b.Valid()
    ensures a.Contents == old(b.Contents) && b.Contents == old(a.Contents)
    ensures a.Repr == old(b.Repr) && b.Repr == old(a.Repr)
  {
    hide PfxTable.Valid;
    a.ipv4, b.ipv4, a.ipv6, b.ipv6 := b.ipv4, a.ipv4, b.ipv6, a.ipv6;
    a.shape4, b.shape4, a.shape6, b.shape6 := b.shape4, a.shape4, b.shape6, a.shape6;
    a.Repr, b.Repr, a.Contents, b.Contents := b.Repr, a.Repr, b.Contents, a.Contents;
    Taken(a, b);
    Taken(b, a);
  }

  // ----- pfx_table_notify_diff -----

  lemma Prepend(r: Record, rs: seq<Record>, added: bool)
    requires Distinct(rs) && r !in PfxTree.Elements(rs)
    ensures Distinct([r] + rs) && PfxTree.Elements([r] + rs) == {r} + PfxTree.Elements(rs)
    ensures NotifyAll([r] + rs, added) == [Notification(r, added)] + NotifyAll(rs, added)
  {
    assert ([r] + rs)[0] == r;
    assert forall i :: 0 <= i < |rs| ==> ([r] + rs)[i + 1] == rs[i];
  }

  /** pfx_table_notify_diff_cb, adding pass: a record of the socket that the old table
      does not have is new; one that it has is taken out of it. */
  method NotifyAddedOne(r: Record, newTable: PfxTable, oldTable: PfxTable, socket: nat) returns (ghost isNew: bool)
    requires oldTable.Valid() && newTable != oldTable && !oldTable.hasCallback
    requires |r.prefix| == 32 || |r.prefix| == 128
    modifies newTable`log, oldTable, oldTable.Repr
    ensures oldTable.Valid() && oldTable.Repr <= old(oldTable.Repr) && !oldTable.hasCallback
    ensures isNew <==> r.socket == socket && r !in old(oldTable.Contents)
    ensures oldTable.Contents == old(oldTable.Contents) - if r.socket == socket then {r} else {}
    ensures newTable.log == old(newTable.log) + if isNew && newTable.hasCallback then [Notification(r, true)] else []
  {
    hide PfxTable.Valid;
    isNew := false;
    if r.socket == socket {
      var st := oldTable.Remove(r);
      if !st.Success? {
        label taken: newTable.Notify(r, true);
        oldTable.Same@taken();
        isNew := true;
      }
    }
  }

  lemma AddedSets(r: Record, rest: set<Record>, start: set<Record>, socket: nat)
    requires r !in rest
    ensures var own := PfxTree.OfSocket(rest, socket);
            var all := PfxTree.OfSocket({r} + rest, socket);
            var now := start - if r.socket == socket then {r} else {};
            && now - own == start - all
            && all - start == own - now + (if r.socket == socket && r !in start then {r} else {})
            && r !in own - now
  {
  }

  method NotifyAdded(rs: seq<Record>, newTable: PfxTable, oldTable: PfxTable, socket: nat) returns (ghost added: seq<Record>)
    requires oldTable.Valid() && newTable != oldTable && Distinct(rs) && !oldTable.hasCallback
    requires forall r :: r in rs ==> |r.prefix| == 32 || |r.prefix| == 128
    modifies newTable`log, oldTable, oldTable.Repr
    ensures oldTable.Valid() && oldTable.Repr <= old(oldTable.Repr) && !oldTable.hasCallback
    ensures var own := PfxTree.OfSocket(PfxTree.Elements(rs), socket);
            && oldTable.Contents == old(oldTable.Contents) - own
            && Distinct(added) && PfxTree.Elements(added) == own - old(oldTable.Contents)
    ensures newTable.log == old(newTable.log) + if newTable.hasCallback then NotifyAll(added, true) else []
  {
    hide PfxTable.Valid;
    added := [];
    if rs == [] { return; }
    Uncons(rs);
    ghost var start := oldTable.Contents;
    ghost var isNew := NotifyAddedOne(rs[0], newTable, oldTable, socket);
    ghost var more := NotifyAdded(rs[1..], newTable, oldTable, socket);
    AddedSets(rs[0], PfxTree.Elements(rs[1..]), start, socket);
    Prepend(rs[0], more, true);
    added := if isNew then [rs[0]] + more else more;
    assert PfxTree.Elements(added) == PfxTree.Elements(more) + (if isNew then {rs[0]} else {});
  }

  /** pfx_table_notify_diff_cb, removing pass: what the old table still has of the socket. */
  method NotifyRemoved(rs: seq<Record>, newTable: PfxTable, socket: nat) returns (ghost removed: seq<Record>)
    requires Distinct(rs)
    modifies newTable`log
    ensures Distinct(removed) && PfxTree.Elements(removed) == PfxTree.OfSocket(PfxTree.Elements(rs), socket)
    ensures newTable.log == old(newTable.log) + if newTable.hasCallback then NotifyAll(removed, false) else []
  {
    removed := [];
    if rs == [] { return; }
    Uncons(rs);
    if rs[0].socket == socket { newTable.Notify(rs[0], false); }
    ghost var more := NotifyRemoved(rs[1..], newTable, socket);
    Prepend(rs[0], more, false);
    removed := if rs[0].socket == socket then [rs[0]] + more else more;
  }

  /** pfx_table_notify_diff: the notifications are the records of the socket that only the
      new table has, as additions, then those only the old one had, as removals, each once. */
  method NotifyDiff(newTable: PfxTable, oldTable: PfxTable, socket: nat)
    returns (ghost added: seq<Record>, ghost removed: seq<Record>)
    requires newTable.Valid() && oldTable.Valid() && newTable != oldTable && newTable.Repr !! oldTable.Repr
    modifies newTable`log, oldTable, oldTable.Repr
    ensures newTable.Valid() && newTable.Contents == old(newTable.Contents)
    ensures oldTable.Valid() && oldTable.hasCallback == old(oldTable.hasCallback)
    ensures var now := PfxTree.OfSocket(old(newTable.Contents), socket);
            var was := PfxTree.OfSocket(old(oldTable.Contents), socket);
            && Distinct(added) && PfxTree.Elements(added) == now - was
            && Distinct(removed) && PfxTree.Elements(removed) == was - now
    ensures newTable.log == old(newTable.log) + if newTable.hasCallback
                                                then NotifyAll(added, true) + NotifyAll(removed, false) else []
  {
    hide PfxTable.Valid;
    var callback := oldTable.hasCallback;
    oldTable.hasCallback := false;
    oldTable.Same();
    newTable.Same();
    added, removed := Diff(newTable, oldTable, socket);
    label last: oldTable.hasCallback := callback;
    oldTable.Same@last();
    newTable.Same();
  }

  method Diff(newTable: PfxTable, oldTable: PfxTable, socket: nat)
    returns (ghost added: seq<Record>, ghost removed: seq<Record>)
    requires newTable.Valid() && oldTable.Valid() && newTable != oldTable && newTable.Repr !! oldTable.Repr
    requires !oldTable.hasCallback
    modifies newTable`log, oldTable, oldTable.Repr
    ensures oldTable.Valid()
    ensures var now := PfxTree.OfSocket(old(newTable.Contents), socket);
            var was := PfxTree.OfSocket(old(oldTable.Contents), socket);
            && Distinct(added) && PfxTree.Elements(added) == now - was
            && Distinct(removed) && PfxTree.Elements(removed) == was - now
    ensures newTable.log == old(newTable.log) + if newTable.hasCallback
                                                then NotifyAll(added, true) + NotifyAll(removed, false) else []
  {
    hide PfxTable.Valid;
    var current := ForEach(newTable);
    newTable.Same();
    oldTable.Same();
    added := NotifyAdded(current, newTable, oldTable, socket);
    label between: var left := ForEach(oldTable);
    oldTable.Same@between();
    removed := NotifyRemoved(left, newTable, socket);
    oldTable.Same@between();
  }
}
