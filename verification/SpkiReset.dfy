/** What an atomic reset does with router key tables (rtrlib/spki/hashtable/ht-spkitable.c):
    copy the other sockets' entries, notify the difference, swap. */
module SpkiReset {
  import opened LinearHashing
  import opened HashLinTable
  import opened SpkiTables

  // ----- Filters of filters -----

  lemma {:induction false} FilterFilter(s: seq<KeyEntry>, p: KeyEntry -> bool, q: KeyEntry -> bool, r: KeyEntry -> bool)
    requires forall e :: e in s ==> (r(e) <==> p(e) && q(e))
    ensures Filter(Filter(s, p), q) == Filter(s, r)
  {
    if s != [] {
      hide Filter;
      var head, rest := s[0], s[1..];
      assert s == [head] + rest;
      FilterFilter(rest, p, q, r);
      FilterCons(head, rest, p);
      FilterCons(head, rest, r);
      FilterCons(head, Filter(rest, p), q);
    }
  }

  lemma {:induction false} FilterAll(s: seq<KeyEntry>, p: KeyEntry -> bool)
    requires forall e :: e in s ==> p(e)
    ensures Filter(s, p) == s
  {
    if s != [] { FilterAll(s[1..], p); }
  }

  function Except(entry: KeyEntry): KeyEntry -> bool {
    (e: KeyEntry) => e != entry
  }

  function From(socket: nat): KeyEntry -> bool {
    (e: KeyEntry) => e.socket == socket
  }

  /** Not an entry of the socket in the list. */
  function Unseen(socket: nat, s: seq<KeyEntry>): KeyEntry -> bool {
    (e: KeyEntry) => !(e.socket == socket && e in s)
  }

  lemma CutIsFilter(s: seq<KeyEntry>, i: nat)
    requires Distinct(s) && i < |s|
    ensures Cut(s, i) == Filter(s, Except(s[i]))
  {
    var p, a, b := Except(s[i]), s[..i], s[i + 1..];
    assert forall k :: 0 <= k < |a| ==> p(a[k]);
    assert forall k :: 0 <= k < |b| ==> p(b[k]) by { forall k | 0 <= k < |b| ensures p(b[k]) { assert b[k] == s[i + 1 + k]; } }
    AllOf(a, p);
    AllOf(b, p);
    Around(s, i);
    hide Filter, Distinct;
    FilterConcat(a, [s[i]] + b, p);
    FilterCons(s[i], b, p);
  }

  lemma AllOf(s: seq<KeyEntry>, p: KeyEntry -> bool)
    requires forall k :: 0 <= k < |s| ==> p(s[k])
    ensures Filter(s, p) == s
  {
    FilterAll(s, p);
  }

  lemma Around(s: seq<KeyEntry>, i: nat)
    requires i < |s|
    ensures s == s[..i] + ([s[i]] + s[i + 1..]) && Cut(s, i) == s[..i] + s[i + 1..]
  {
  }

  // ----- spki_table_copy_except_socket -----

  /** All other sockets' entries are copied in order, unless one of them is in the target. */
  method CopyExceptSocket(src: SpkiTable, dst: SpkiTable, socket: nat) returns (status: Status)
    requires src.Valid() && dst.Valid() && src != dst && src.hashtable != dst.hashtable
    requires |src.list| + |dst.list| + 1 < COUNT_LIMIT
    modifies dst, dst.hashtable
    ensures dst.Valid() && dst.hashtable == old(dst.hashtable) && dst.hasCallback == old(dst.hasCallback)
    ensures var copied := Filter(src.list, NotFrom(socket));
            && (status == Success <==> forall e :: e in copied ==> e !in old(dst.list))
            && (status == Success ==>
                && dst.list == old(dst.list) + copied
                && dst.log == old(dst.log) + if dst.hasCallback then Notes(copied, true) else [])
    ensures status == Success || status == Error
  {
    src.ListDistinct();
    hide Filter, SpkiTable.Valid, Distinct;
    status := CopyEntries(src.list, dst, socket);
  }

  /** The loop over the list. */
  method CopyEntries(entries: seq<KeyEntry>, dst: SpkiTable, socket: nat) returns (status: Status)
    requires dst.Valid() && Distinct(entries) && |entries| + |dst.list| + 1 < COUNT_LIMIT
    modifies dst, dst.hashtable
    ensures dst.Valid() && dst.hashtable == old(dst.hashtable) && dst.hasCallback == old(dst.hasCallback)
    ensures var copied := Filter(entries, NotFrom(socket));
            && (status == Success <==> forall e :: e in copied ==> e !in old(dst.list))
            && (status == Success ==>
                && dst.list == old(dst.list) + copied
                && dst.log == old(dst.log) + if dst.hasCallback then Notes(copied, true) else [])
    ensures status == Success || status == Error
  {
    hide SpkiTable.Valid;
    ghost var was, log, copied := dst.list, dst.log, [];
    ghost var p := NotFrom(socket);
    for i := 0 to |entries|
      invariant dst.Valid() && dst.hashtable == old(dst.hashtable) && dst.hasCallback == old(dst.hasCallback)
      invariant copied == Filter(entries[..i], p) && |copied| <= i
      invariant dst.list == was + copied && forall e :: e in copied ==> e !in was
      invariant dst.log == log + if dst.hasCallback then Notes(copied, true) else []
    {
      hide Filter, Distinct;
      var entry := entries[i];
      CopyStep(entries, i, p);
      if entry.socket != socket {
        FreshCopy(entries, i, copied, p);
        var r := dst.Add(entry);
        if r != Success {
          assert entry in Filter(entries, p);
          return Error;
        }
        NotesSnoc(copied, entry);
        copied := copied + [entry];
      }
    }
    assert entries[..|entries|] == entries;
    return Success;
  }

  lemma CopyStep(s: seq<KeyEntry>, i: nat, p: KeyEntry -> bool)
    requires i < |s|
    ensures Filter(s[..i + 1], p) == if p(s[i]) then Filter(s[..i], p) + [s[i]] else Filter(s[..i], p)
    ensures p(s[i]) ==> s[i] in Filter(s, p)
  {
    assert s[..i + 1] == s[..i] + [s[i]];
    FilterSnoc(s[..i], s[i], p);
    FilterMembers(s, p);
  }

  lemma FreshCopy(s: seq<KeyEntry>, i: nat, copied: seq<KeyEntry>, p: KeyEntry -> bool)
    requires Distinct(s) && i < |s| && copied == Filter(s[..i], p)
    ensures s[i] !in copied
  {
    FilterMembers(s[..i], p);
    assert s[i] !in s[..i];
  }

  // ----- spki_table_notify_diff -----

  /** One entry of the new table: removed from the old one, or notified. */
  method NotifyAddedOne(entry: KeyEntry, newTable: SpkiTable, oldTable: SpkiTable, socket: nat)
    requires oldTable.Valid() && newTable != oldTable && newTable.hashtable != oldTable.hashtable
    requires !oldTable.hasCallback
    modifies newTable`log, oldTable, oldTable.hashtable
    ensures oldTable.Valid() && oldTable.hashtable == old(oldTable.hashtable) && !oldTable.hasCallback
    ensures if entry.socket == socket && entry in old(oldTable.list)
            then exists k: nat :: k < |old(oldTable.list)| && old(oldTable.list)[k] == entry && oldTable.list == Cut(old(oldTable.list), k)
            else oldTable.list == old(oldTable.list)
    ensures newTable.log == old(newTable.log) +
              if newTable.hasCallback && entry.socket == socket && entry !in old(oldTable.list)
              then [Notification(true, entry)] else []
  {
    hide SpkiTable.Valid;
    if entry.socket == socket {
      var r := oldTable.Remove(entry);
      if r == RecordNotFound {
        label removed: newTable.Notify(entry, true);
        oldTable.Same@removed();
      }
    }
  }

  /** First loop: the socket's entries of the new table are removed from the old one, and
      those it did not have are notified. */
  method NotifyAdded(newTable: SpkiTable, oldTable: SpkiTable, socket: nat)
    requires newTable.Valid() && oldTable.Valid() && newTable != oldTable && newTable.hashtable != oldTable.hashtable
    requires !oldTable.hasCallback
    modifies newTable`log, oldTable, oldTable.hashtable
    ensures oldTable.Valid() && oldTable.hashtable == old(oldTable.hashtable) && !oldTable.hasCallback
    ensures oldTable.list == Filter(old(oldTable.list), Unseen(socket, newTable.list))
    ensures newTable.log == old(newTable.log) +
              if newTable.hasCallback then Notes(Filter(newTable.list, NewFrom(socket, old(oldTable.list))), true) else []
  {
    var current := newTable.list;
    ghost var was, log := oldTable.list, newTable.log;
    FilterAll(was, Unseen(socket, current[..0]));
    assert Distinct(current);
    hide SpkiTable.Valid, Distinct;
    for i := 0 to |current|
      invariant oldTable.Valid()
      invariant oldTable.hashtable == old(oldTable.hashtable) && !oldTable.hasCallback
      invariant oldTable.list == Filter(was, Unseen(socket, current[..i]))
      invariant newTable.log == log +
                  if newTable.hasCallback then Notes(Filter(current[..i], NewFrom(socket, was)), true) else []
    {
      hide Filter;
      oldTable.ListDistinct();
      CopyStep(current, i, NewFrom(socket, was));
      SeenStep(was, socket, current, i, oldTable.list);
      NotesSnoc(Filter(current[..i], NewFrom(socket, was)), current[i]);
      NotifyAddedOne(current[i], newTable, oldTable, socket);
    }
    assert current[..|current|] == current;
  }

  lemma NotesSnoc(s: seq<KeyEntry>, e: KeyEntry)
    ensures Notes(s + [e], true) == Notes(s, true) + [Notification(true, e)]
  {
  }

  /** Removing the next entry of the new table from what is left of the old one. */
  lemma SeenStep(was: seq<KeyEntry>, socket: nat, current: seq<KeyEntry>, i: nat, left: seq<KeyEntry>)
    requires Distinct(current) && Distinct(left) && i < |current| && left == Filter(was, Unseen(socket, current[..i]))
    ensures var e := current[i]; var next := Filter(was, Unseen(socket, current[..i + 1]));
            && (e.socket == socket ==> (e in left <==> e in was))
            && (e.socket != socket || e !in left ==> next == left)
            && (e.socket == socket ==> forall k: nat :: k < |left| && left[k] == e ==> Cut(left, k) == next)
  {
    var e := current[i];
    var p, q := Unseen(socket, current[..i]), Unseen(socket, current[..i + 1]);
    assert forall x :: x in current[..i + 1] <==> x in current[..i] || x == e;
    assert e !in current[..i];
    FilterMembers(was, p);
    if e.socket != socket {
      FilterAll(left, q);
      FilterFilter(was, p, q, q);
    } else {
      FilterFilter(was, p, Except(e), q);
      if e !in left { FilterAll(left, Except(e)); }
      forall k: nat | k < |left| && left[k] == e ensures Cut(left, k) == Filter(was, q) {
        CutIsFilter(left, k);
      }
    }
  }

  /** Second loop: what is left of the socket in the old table was withdrawn. */
  method NotifyRemoved(newTable: SpkiTable, left: seq<KeyEntry>, socket: nat)
    modifies newTable`log
    ensures newTable.log == old(newTable.log) +
              if newTable.hasCallback then Notes(Filter(left, From(socket)), false) else []
  {
    for i := 0 to |left|
      invariant newTable.log == old(newTable.log) +
                  if newTable.hasCallback then Notes(Filter(left[..i], From(socket)), false) else []
    {
      hide Filter;
      CopyStep(left, i, From(socket));
      var rs := Filter(left[..i], From(socket));
      assert Notes(rs + [left[i]], false) == Notes(rs, false) + [Notification(false, left[i])];
      if left[i].socket == socket {
        newTable.Notify(left[i], false);
      }
    }
    assert left[..|left|] == left;
  }

  /** spki_table_notify_diff: exactly the difference between the socket's entries of the two
      tables, the added ones first, each once and in the order of its table. */
  method NotifyDiff(newTable: SpkiTable, oldTable: SpkiTable, socket: nat)
    requires newTable.Valid() && oldTable.Valid() && newTable != oldTable && newTable.hashtable != oldTable.hashtable
    modifies newTable`log, oldTable, oldTable.hashtable
    ensures newTable.Valid() && oldTable.Valid() && oldTable.hasCallback == old(oldTable.hasCallback)
    ensures newTable.log == old(newTable.log) +
              if newTable.hasCallback
              then Notes(Filter(newTable.list, NewFrom(socket, old(oldTable.list))), true)
                 + Notes(Filter(old(oldTable.list), NewFrom(socket, newTable.list)), false)
              else []
  {
    hide Filter, SpkiTable.Valid;
    ghost var was := oldTable.list;
    var callback := oldTable.hasCallback;
    oldTable.hasCallback := false;
    oldTable.Same();
    newTable.Same();
    NotifyAdded(newTable, oldTable, socket);
    label between:
    NotifyRemoved(newTable, oldTable.list, socket);
    FilterFilter(was, Unseen(socket, newTable.list), From(socket), NewFrom(socket, newTable.list));
    oldTable.hasCallback := callback;
    oldTable.Same@between();
    newTable.Same();
  }

  // ----- spki_table_swap -----

  /** The contents change places; the callbacks stay. */
  method Swap(a: SpkiTable, b: SpkiTable)
    requires a.Valid() && b.Valid() && a != b && a.hashtable != b.hashtable && a.hashOf == b.hashOf
    modifies a`hashtable, a`list, b`hashtable, b`list
    ensures a.Valid() && b.Valid()
    ensures a.list == old(b.list) && a.hashtable == old(b.hashtable)
    ensures b.list == old(a.list) && b.hashtable == old(a.hashtable)
  {
    a.hashtable, b.hashtable, a.list, b.list := b.hashtable, a.hashtable, b.list, a.list;
  }
}
