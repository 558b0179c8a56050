/** The router key table of rtrlib/spki/hashtable/ht-spkitable.c: a hash table over the ASN
    and a list, which always hold the same entries. */
module SpkiTables {
  import opened LinearHashing
  import opened HashLinTable

  datatype Status = Success | DuplicateRecord | RecordNotFound | Error

  /** One call of the update callback. */
  datatype Notification = Notification(added: bool, entry: KeyEntry)

  // ----- Lists of entries -----

  function Filter(s: seq<KeyEntry>, p: KeyEntry -> bool): seq<KeyEntry> {
    if s == [] then [] else if p(s[0]) then [s[0]] + Filter(s[1..], p) else Filter(s[1..], p)
  }

  lemma {:induction false} FilterMembers(s: seq<KeyEntry>, p: KeyEntry -> bool)
    ensures forall e :: e in Filter(s, p) <==> e in s && p(e)
  {
    if s != [] { FilterMembers(s[1..], p); }
  }

  lemma FilterCons(head: KeyEntry, rest: seq<KeyEntry>, p: KeyEntry -> bool)
    ensures Filter([head] + rest, p) == if p(head) then [head] + Filter(rest, p) else Filter(rest, p)
  {
    assert ([head] + rest)[1..] == rest;
  }

  lemma {:induction false} FilterConcat(a: seq<KeyEntry>, b: seq<KeyEntry>, p: KeyEntry -> bool)
    ensures Filter(a + b, p) == Filter(a, p) + Filter(b, p)
  {
    if a == [] {
      assert a + b == b;
    } else {
      var x, rest := a[0], a[1..];
      assert a == [x] + rest && a + b == [x] + (rest + b);
      FilterConcat(rest, b, p);
      hide Filter;
      FilterCons(x, rest, p);
      FilterCons(x, rest + b, p);
      assert [x] + (Filter(rest, p) + Filter(b, p)) == [x] + Filter(rest, p) + Filter(b, p);
    }
  }

  lemma FilterSnoc(s: seq<KeyEntry>, e: KeyEntry, p: KeyEntry -> bool)
    ensures Filter(s + [e], p) == if p(e) then Filter(s, p) + [e] else Filter(s, p)
  {
    FilterConcat(s, [e], p);
  }

  /** The entries a query for an ASN and a subject key identifier asks for. */
  function Matching(asn: nat, ski: seq<nat>): KeyEntry -> bool {
    (e: KeyEntry) => e.asn == asn && e.ski == ski
  }

  function WithSki(ski: seq<nat>): KeyEntry -> bool {
    (e: KeyEntry) => e.ski == ski
  }

  function NotFrom(socket: nat): KeyEntry -> bool {
    (e: KeyEntry) => e.socket != socket
  }

  /** From the socket and not in the list. */
  function NewFrom(socket: nat, s: seq<KeyEntry>): KeyEntry -> bool {
    (e: KeyEntry) => e.socket == socket && e !in s
  }

  ghost predicate Distinct(s: seq<KeyEntry>) {
    forall i, j :: 0 <= i < j < |s| ==> s[i] != s[j]
  }

  function Notes(s: seq<KeyEntry>, added: bool): seq<Notification> {
    seq(|s|, i requires 0 <= i < |s| => Notification(added, s[i]))
  }

  /** The list without its entry at a position. */
  function Cut(s: seq<KeyEntry>, i: nat): seq<KeyEntry>
    requires i < |s|
  {
    s[..i] + s[i + 1..]
  }

  // ----- The list as hash table nodes -----

  function Nodes(s: seq<KeyEntry>, hashOf: nat -> nat): seq<Node> {
    seq(|s|, i requires 0 <= i < |s| => Node(hashOf(s[i].asn), s[i]))
  }

  function Data(s: seq<Node>): seq<KeyEntry> {
    seq(|s|, i requires 0 <= i < |s| => s[i].data)
  }

  lemma InNodes(s: seq<KeyEntry>, hashOf: nat -> nat, e: KeyEntry)
    ensures Node(hashOf(e.asn), e) in Nodes(s, hashOf) <==> e in s
  {
    var ns := Nodes(s, hashOf);
    if e in s {
      var i :| 0 <= i < |s| && s[i] == e;
      assert ns[i] == Node(hashOf(e.asn), e);
    }
  }

  lemma CutNodes(s: seq<KeyEntry>, hashOf: nat -> nat, i: nat)
    requires Distinct(s) && i < |s|
    ensures Without(Nodes(s, hashOf), Node(hashOf(s[i].asn), s[i])) == Nodes(Cut(s, i), hashOf)
    ensures Distinct(Cut(s, i))
    ensures forall e :: e in Cut(s, i) <==> e in s && e != s[i]
  {
    CutWithout(s, hashOf, i);
    CutMembers(s, i);
  }

  lemma CutWithout(s: seq<KeyEntry>, hashOf: nat -> nat, i: nat)
    requires Distinct(s) && i < |s|
    ensures Without(Nodes(s, hashOf), Node(hashOf(s[i].asn), s[i])) == Nodes(Cut(s, i), hashOf)
  {
    hide Without;
    var n := Node(hashOf(s[i].asn), s[i]);
    var a, b := Nodes(s[..i], hashOf), Nodes(s[i + 1..], hashOf);
    assert Nodes(s, hashOf) == a + [n] + b;
    assert forall k :: 0 <= k < |a| ==> a[k].data == s[k];
    WithoutMiddle(a, n, b);
    assert Nodes(Cut(s, i), hashOf) == a + b;
  }

  lemma CutMembers(s: seq<KeyEntry>, i: nat)
    requires Distinct(s) && i < |s|
    ensures Distinct(Cut(s, i))
    ensures forall e :: e in Cut(s, i) <==> e in s && e != s[i]
  {
    var c := Cut(s, i);
    forall k | 0 <= k < |c| ensures c[k] == s[if k < i then k else k + 1] {}
    forall e | e in s && e != s[i] ensures e in c {
      var k :| 0 <= k < |s| && s[k] == e;
      assert c[if k < i then k else k - 1] == e;
    }
  }

  /** Entries that match live under one hash, so filtering the bucket of that hash gives
      what filtering the whole list would. */
  lemma {:induction false} FilterOfHash(s: seq<Node>, hash: nat, p: KeyEntry -> bool)
    requires forall n :: n in s && p(n.data) ==> n.key == hash
    ensures Filter(Data(OfHash(s, hash)), p) == Filter(Data(s), p)
  {
    if s != [] {
      hide OfHash, Filter;
      var head, rest := s[0], s[1..];
      assert s == [head] + rest;
      FilterOfHash(rest, hash, p);
      OfHashCons(head, rest, hash);
      DataCons(head, rest);
      DataCons(head, OfHash(rest, hash));
      FilterCons(head.data, Data(rest), p);
      FilterCons(head.data, Data(OfHash(rest, hash)), p);
    }
  }

  lemma DataCons(head: Node, rest: seq<Node>)
    ensures Data([head] + rest) == [head.data] + Data(rest)
  {
  }

  /** spki_table_get_all reads one bucket only: the hash table's order makes that enough. */
  lemma BucketIsEnough(g: Grid, list: seq<KeyEntry>, hashOf: nat -> nat, asn: nat, ski: seq<nat>)
    requires Holds(g, Nodes(list, hashOf))
    ensures Filter(Data(g.bucket[RefIn(g, hashOf(asn))]), Matching(asn, ski)) == Filter(list, Matching(asn, ski))
  {
    hide Filter;
    var h, p, nodes := hashOf(asn), Matching(asn, ski), Nodes(list, hashOf);
    var bucket := g.bucket[RefIn(g, h)];
    forall n | n in bucket && p(n.data) ensures n.key == h {
      assert RefIn(g, n.key) == RefIn(g, h);
      assert n in OfHash(bucket, n.key);
      assert OfHash(bucket, n.key) == OfHash(nodes, n.key);
      assert n in nodes;
    }
    FilterOfHash(bucket, h, p);
    assert OfHash(bucket, h) == OfHash(nodes, h);
    FilterOfHash(nodes, h, p);
    assert Data(nodes) == list;
  }

  /** The loop of spki_table_get_all over a bucket. */
  method Collect(bucket: seq<Node>, asn: nat, ski: seq<nat>) returns (result: seq<KeyEntry>)
    ensures result == Filter(Data(bucket), Matching(asn, ski))
  {
    result := [];
    ghost var all, p := Data(bucket), Matching(asn, ski);
    for i := 0 to |bucket|
      invariant result == Filter(all[..i], p)
    {
      hide Filter;
      assert all[..i + 1] == all[..i] + [bucket[i].data];
      FilterSnoc(all[..i], bucket[i].data, p);
      if bucket[i].data.asn == asn && bucket[i].data.ski == ski {
        result := result + [bucket[i].data];
      }
    }
    assert all[..|bucket|] == all;
  }

  class SpkiTable {
    /** tommy_inthash_u32; nothing depends on which function it is. */
    const hashOf: nat -> nat
    var hashtable: HashLin
    var list: seq<KeyEntry>
    var hasCallback: bool
    ghost var log: seq<Notification>

    ghost predicate Valid()
      reads this, hashtable
    {
      hashtable.Valid() && hashtable.list == Nodes(list, hashOf) && Distinct(list)
    }

    twostate lemma Same()
      requires old(Valid()) && unchanged(this`list) && unchanged(this`hashtable) && unchanged(hashtable)
      ensures Valid()
    {
    }

    lemma ListDistinct()
      requires Valid()
      ensures Distinct(list)
    {
    }

    constructor (hashOf: nat -> nat, hasCallback: bool)
      ensures Valid() && list == [] && log == [] && this.hashOf == hashOf && this.hasCallback == hasCallback
      ensures fresh(hashtable)
    {
      this.hashOf, this.hasCallback, list, log := hashOf, hasCallback, [], [];
      hashtable := new HashLin();
    }

    method Notify(entry: KeyEntry, added: bool)
      modifies this`log
      ensures log == old(log) + if hasCallback then [Notification(added, entry)] else []
    {
      if hasCallback { log := log + [Notification(added, entry)]; }
    }

    /** spki_table_add_entry. */
    method Add(entry: KeyEntry) returns (status: Status)
      requires Valid() && |list| + 1 < COUNT_LIMIT
      modifies this, hashtable
      ensures Valid() && hashtable == old(hashtable) && hasCallback == old(hasCallback)
      ensures status == if entry in old(list) then DuplicateRecord else Success
      ensures list == old(list) + if status == Success then [entry] else []
      ensures log == old(log) + if status == Success && hasCallback then [Notification(true, entry)] else []
    {
      var hash := hashOf(entry.asn);
      InNodes(list, hashOf, entry);
      var found := hashtable.Search(entry, hash);
      if found { return DuplicateRecord; }
      hashtable.Insert(entry, hash);
      assert Nodes(list + [entry], hashOf) == Nodes(list, hashOf) + [Node(hash, entry)];
      list := list + [entry];
      Notify(entry, true);
      return Success;
    }

    /** tommy_list_remove_existing. */
    method Unlink(entry: KeyEntry) returns (i: nat)
      requires entry in list && Distinct(list)
      modifies this`list
      ensures i < |old(list)| && old(list)[i] == entry && list == Cut(old(list), i)
    {
      i := 0;
      while list[i] != entry
        invariant i < |list| && entry in list[i..]
        decreases |list| - i
      {
        i := i + 1;
      }
      list := Cut(list, i);
    }

    /** spki_table_remove_entry. */
    method Remove(entry: KeyEntry) returns (status: Status)
      requires Valid()
      modifies this, hashtable
      ensures Valid() && hashtable == old(hashtable) && hasCallback == old(hasCallback)
      ensures status == if entry in old(list) then Success else RecordNotFound
      ensures status == RecordNotFound ==> list == old(list)
      ensures status == Success ==> exists i: nat :: i < |old(list)| && old(list)[i] == entry && list == Cut(old(list), i)
      ensures forall e :: e in list <==> e in old(list) && e != entry
      ensures log == old(log) + if status == Success && hasCallback then [Notification(false, entry)] else []
    {
      var hash := hashOf(entry.asn);
      InNodes(list, hashOf, entry);
      var found := hashtable.Search(entry, hash);
      if !found { return RecordNotFound; }
      var _ := hashtable.Remove(entry, hash);
      var i := Unlink(entry);
      CutNodes(old(list), hashOf, i);
      Notify(entry, false);
      return Success;
    }

    /** spki_table_get_all: exactly the entries of the ASN with the identifier, in the order
        they were added. */
    method GetAll(asn: nat, ski: seq<nat>) returns (result: seq<KeyEntry>)
      requires Valid()
      ensures result == Filter(list, Matching(asn, ski))
      ensures forall e :: e in result <==> e in list && e.asn == asn && e.ski == ski
    {
      FilterMembers(list, Matching(asn, ski));
      var hash := hashOf(asn);
      BucketIsEnough(hashtable.Layout(), list, hashOf, asn, ski);
      var bucket := hashtable.bucket[Ref(hash, hashtable.lowMax, hashtable.bucketMax, hashtable.split)];
      result := Collect(bucket, asn, ski);
    }

    /** spki_table_search_by_ski. */
    method SearchBySki(ski: seq<nat>) returns (result: seq<KeyEntry>)
      requires Valid()
      ensures result == Filter(list, WithSki(ski))
      ensures forall e :: e in result <==> e in list && e.ski == ski
    {
      FilterMembers(list, WithSki(ski));
      result := [];
      for i := 0 to |list|
        invariant result == Filter(list[..i], WithSki(ski))
      {
        hide Filter;
        assert list[..i + 1] == list[..i] + [list[i]];
        FilterSnoc(list[..i], list[i], WithSki(ski));
        if list[i].ski == ski { result := result + [list[i]]; }
      }
      assert list[..|list|] == list;
    }

    /** Unlinks an entry from the list and from the hash table. */
    method RemoveExisting(i: nat)
      requires Valid() && i < |list|
      modifies this`list, hashtable
      ensures Valid() && list == Cut(old(list), i)
    {
      var entry := list[i];
      InNodes(list, hashOf, entry);
      CutNodes(list, hashOf, i);
      list := Cut(list, i);
      var _ := hashtable.Remove(entry, hashOf(entry.asn));
    }

    /** spki_table_src_remove: silently drops the socket's entries, and no others. */
    method SrcRemove(socket: nat)
      requires Valid()
      modifies this`list, hashtable
      ensures Valid() && list == Filter(old(list), NotFrom(socket))
      ensures forall e :: e in list <==> e in old(list) && e.socket != socket
    {
      FilterMembers(list, NotFrom(socket));
      hide Valid;
      ghost var was, p := list, NotFrom(socket);
      var i: nat := 0;
      ghost var k: nat := 0;
      assert was[k..] == list[i..];
      while i < |list|
        invariant Valid() && i <= |list| && k <= |was|
        invariant list[..i] == Filter(was[..k], p) && list[i..] == was[k..]
        invariant hashtable == old(hashtable)
        decreases |list| - i
      {
        hide Filter;
        Advance(was, k, list, i, p);
        if list[i].socket == socket {
          RemoveExisting(i);
        } else {
          i := i + 1;
        }
        k := k + 1;
      }
      assert list[i..] == [] && was[..k] == was && list[..i] == list;
    }
  }

  /** One turn of filtering a list in place. */
  lemma Advance(was: seq<KeyEntry>, k: nat, list: seq<KeyEntry>, i: nat, p: KeyEntry -> bool)
    requires i < |list| && k <= |was| && list[..i] == Filter(was[..k], p) && list[i..] == was[k..]
    ensures k < |was|
    ensures !p(list[i]) ==> Cut(list, i)[..i] == Filter(was[..k + 1], p) && Cut(list, i)[i..] == was[k + 1..]
    ensures p(list[i]) ==> list[..i + 1] == Filter(was[..k + 1], p) && list[i + 1..] == was[k + 1..]
  {
    hide Filter;
    assert list[i..][0] == was[k..][0];
    assert was[..k + 1] == was[..k] + [list[i]];
    FilterSnoc(was[..k], list[i], p);
    assert list[i + 1..] == list[i..][1..] == was[k + 1..];
    assert list[..i + 1] == list[..i] + [list[i]];
    assert Cut(list, i)[..i] == list[..i] && Cut(list, i)[i..] == list[i + 1..];
  }
}
