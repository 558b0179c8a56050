/** Prefix origin validation: the one-path walk of rtr_pfx_table_validate_r against
    the linear scan of section 2 of RFC 6811. */
module OriginValidation {
  import opened Trie
  import opened PfxTree

  /** enum rtr_pfxv_state. */
  datatype State = Valid | NotFound | Invalid

  // ----- RFC 6811 -----

  /** The record covers the announced route: the same IP version, no longer than the route,
      and equal to it bit by bit up to its length. */
  predicate Covering(r: Record, q: Addr, qlen: nat) {
    && |r.prefix| == |q| && r.minLen <= qlen && r.minLen <= |q|
    && forall i :: 0 <= i < r.minLen ==> r.prefix[i] == q[i]
  }

  predicate Matching(r: Record, asn: nat, q: Addr, qlen: nat) {
    Covering(r, q, qlen) && r.asn == asn && asn != 0 && qlen <= r.maxLen
  }

  /** The scan over all records: valid if one matches, not found if none covers. */
  ghost function Scan(rs: set<Record>, asn: nat, q: Addr, qlen: nat): State {
    if exists r :: r in rs && Matching(r, asn, q, qlen) then Valid
    else if exists r :: r in rs && Covering(r, q, qlen) then Invalid
    else NotFound
  }

  ghost function CoveringSet(rs: set<Record>, q: Addr, qlen: nat): set<Record> {
    set r | r in rs && Covering(r, q, qlen)
  }

  /** A record among the reasons makes the route valid: of the covering records the reasons
      hold all that are shorter than it, and none that is longer. */
  ghost predicate Settles(covering: set<Record>, asn: nat, q: Addr, qlen: nat, reason: seq<Record>, r: Record) {
    && r in reason && Matching(r, asn, q, qlen)
    && (forall s :: s in covering && s.minLen < r.minLen ==> s in reason)
    && (forall s :: s in reason ==> s.minLen <= r.minLen)
  }

  /** What every answer keeps: the reasons are covering records without repetition, a
      route called valid has a matching record among them, and one called invalid has a
      covering record. */
  ghost predicate Sound(rs: set<Record>, asn: nat, q: Addr, qlen: nat, state: State, reason: seq<Record>) {
    && Distinct(reason)
    && Elements(reason) <= CoveringSet(rs, q, qlen)
    && (state == Valid ==> Scan(rs, asn, q, qlen) == Valid && exists r :: r in reason && Matching(r, asn, q, qlen))
    && (state == Invalid ==> Scan(rs, asn, q, qlen) != NotFound)
  }

  /** The answer of the scan; the reasons are all covering records, or for a valid route
      those up to the match. */
  ghost predicate Decided(rs: set<Record>, asn: nat, q: Addr, qlen: nat, state: State, reason: seq<Record>) {
    && state == Scan(rs, asn, q, qlen)
    && Distinct(reason)
    && Elements(reason) <= CoveringSet(rs, q, qlen)
    && (state != Valid ==> Elements(reason) == CoveringSet(rs, q, qlen))
    && (state == Valid ==> exists r :: Settles(CoveringSet(rs, q, qlen), asn, q, qlen, reason, r))
  }

  // ----- The walk -----

  /** rtr_ip_addr_get_bits from bit 0 on: the other bits are cleared. */
  function FirstBits(a: Addr, n: nat): (r: Addr)
    ensures |r| == |a| && forall i :: 0 <= i < |a| ==> r[i] == (i < n && a[i])
  {
    seq(|a|, i requires 0 <= i < |a| => i < n && a[i])
  }

  /** The comparison in trie_lookup. */
  predicate Covers(prefix: Addr, len: nat, q: Addr, qlen: nat) {
    |prefix| == |q| && len <= qlen && len <= |q| && FirstBits(prefix, len) == FirstBits(q, len)
  }

  lemma ComparesBits(prefix: Addr, len: nat, q: Addr, qlen: nat, e: Elem)
    ensures Covers(prefix, len, q, qlen) <==> Covering(ToRecord(prefix, len, e), q, qlen)
  {
    if |prefix| == |q| && len <= |q| {
      var a, b := FirstBits(prefix, len), FirstBits(q, len);
      if a == b {
        forall i | 0 <= i < len ensures prefix[i] == q[i] { assert a[i] == b[i]; }
      }
    }
  }

  /** pfx_table_elem_matches. */
  predicate ElemMatches(data: seq<Elem>, asn: nat, qlen: nat) {
    exists i :: 0 <= i < |data| && data[i].asn != 0 && data[i].asn == asn && qlen <= data[i].maxLen
  }

  /** The covering nodes met on the path of the route's own bits, from the root
      down, each given by its records. */
  function Walk(t: Tree, q: Addr, qlen: nat, lvl: nat): seq<Tree> {
    if t.Nil? then []
    else (if Covers(t.prefix, t.len, q, qlen) then [t] else []) + Walk(Child(t, Bit(q, lvl)), q, qlen, lvl + 1)
  }

  /** The records of the nodes visited until one matches, and whether one did. */
  function Visit(nodes: seq<Tree>, asn: nat, qlen: nat): (r: (bool, seq<Record>))
    requires forall n :: n in nodes ==> n.Node?
  {
    if nodes == [] then (false, [])
    else
      var own := NodeRecords(nodes[0].prefix, nodes[0].len, nodes[0].data);
      if ElemMatches(nodes[0].data, asn, qlen) then (true, own)
      else
        var r := Visit(nodes[1..], asn, qlen);
        (r.0, own + r.1)
  }

  lemma {:induction false} WalkNodes(t: Tree, q: Addr, qlen: nat, lvl: nat)
    ensures forall n :: n in Walk(t, q, qlen, lvl) ==> n.Node? && Covers(n.prefix, n.len, q, qlen)
  {
    if t.Node? { WalkNodes(Child(t, Bit(q, lvl)), q, qlen, lvl + 1); }
  }

  /** rtr_pfx_table_validate_r: the state and the reason array. */
  function Validate(t: Tree, asn: nat, q: Addr, qlen: nat): (State, seq<Record>) {
    WalkNodes(t, q, qlen, 0);
    var nodes := Walk(t, q, qlen, 0);
    if nodes == [] then (NotFound, [])
    else
      var (matched, reason) := Visit(nodes, asn, qlen);
      (if matched then Valid else Invalid, reason)
  }

  // ----- The walk sees every covering record -----

  ghost function AllRecords(nodes: seq<Tree>): set<Record> {
    set n, e | n in nodes && n.Node? && e in n.data :: ToRecord(n.prefix, n.len, e)
  }

  /** Below a branch the route does not take, nothing covers it: every node there is
      at least as long as its level, so it disagrees on a bit it compares. */
  lemma {:induction false} NothingOffPath(t: Tree, q: Addr, qlen: nat, path: seq<bool>, w: nat)
    requires Inv(t, path, w) && LevelsFit(t, |path|) && |q| == w && !Routed(q, path)
    ensures CoveringSet(Records(t), q, qlen) == {}
  {
    if t.Node? {
      var i :| 0 <= i < |path| && path[i] != Bit(q, i);
      assert path[i] == Bit(t.prefix, i);
      assert t.len <= w ==> t.prefix[..t.len][i] != q[..t.len][i];
      RoutedOn(q, path, false);
      RoutedOn(q, path, true);
      NothingOffPath(t.left, q, qlen, path + [false], w);
      NothingOffPath(t.right, q, qlen, path + [true], w);
    }
  }

  /** Where levels fit, the walk meets exactly the covering records. */
  lemma {:induction false} WalkIsComplete(t: Tree, q: Addr, qlen: nat, path: seq<bool>, w: nat)
    requires Inv(t, path, w) && LevelsFit(t, |path|) && |q| == w && Routed(q, path)
    ensures AllRecords(Walk(t, q, qlen, |path|)) == CoveringSet(Records(t), q, qlen)
  {
    if t.Node? {
      hide CoveringSet, AllRecords, Inv, LevelsFit, Records, Own, Walk, Covers;
      WalkStep(t, q, qlen, |path|);
      var b := Bit(q, |path|);
      var own := if Covers(t.prefix, t.len, q, qlen) then [t] else [];
      var rest := Walk(Child(t, b), q, qlen, |path| + 1);
      InvChild(t, b, path, w);
      InvChild(t, !b, path, w);
      RoutedOn(q, path, b);
      RoutedOn(q, path, !b);
      WalkIsComplete(Child(t, b), q, qlen, path + [b], w);
      NothingOffPath(Child(t, !b), q, qlen, path + [!b], w);
      CoveringSplit(t, b, q, qlen);
      AllRecordsConcat(own, rest);
      OwnCovering(t, q, qlen);
    } else {
      NothingInNil(q, qlen);
      WalkNil(q, qlen, |path|);
    }
  }

  lemma WalkStep(t: Tree, q: Addr, qlen: nat, lvl: nat)
    requires t.Node?
    ensures Walk(t, q, qlen, lvl)
         == (if Covers(t.prefix, t.len, q, qlen) then [t] else []) + Walk(Child(t, Bit(q, lvl)), q, qlen, lvl + 1)
  {
  }

  lemma WalkNil(q: Addr, qlen: nat, lvl: nat)
    ensures Walk(Nil, q, qlen, lvl) == []
  {
  }

  lemma InvChild(t: Tree, b: bool, path: seq<bool>, w: nat)
    requires t.Node? && Inv(t, path, w) && LevelsFit(t, |path|)
    ensures Inv(Child(t, b), path + [b], w) && LevelsFit(Child(t, b), |path| + 1)
  {
  }

  lemma NothingInNil(q: Addr, qlen: nat)
    ensures CoveringSet(Records(Nil), q, qlen) == {} && AllRecords([]) == {}
  {
  }

  lemma CoveringSplit(t: Tree, b: bool, q: Addr, qlen: nat)
    requires t.Node?
    ensures CoveringSet(Records(t), q, qlen) == CoveringSet(Own(t.prefix, t.len, t.data), q, qlen)
              + CoveringSet(Records(Child(t, b)), q, qlen) + CoveringSet(Records(Child(t, !b)), q, qlen)
  {
  }

  lemma AllRecordsConcat(a: seq<Tree>, b: seq<Tree>)
    ensures AllRecords(a + b) == AllRecords(a) + AllRecords(b)
  {
  }

  lemma OwnCovering(t: Tree, q: Addr, qlen: nat)
    requires t.Node?
    ensures var own := if Covers(t.prefix, t.len, q, qlen) then [t] else [];
            AllRecords(own) == CoveringSet(Own(t.prefix, t.len, t.data), q, qlen)
  {
    var own := if Covers(t.prefix, t.len, q, qlen) then [t] else [];
    forall e | e in t.data { ComparesBits(t.prefix, t.len, q, qlen, e); }
    forall r | r in CoveringSet(Own(t.prefix, t.len, t.data), q, qlen) ensures r in AllRecords(own) {
      assert t in own && ToElem(r) in t.data;
    }
  }

  // ----- The walk decides as the scan does -----

  lemma {:induction false} VisitMatches(nodes: seq<Tree>, asn: nat, q: Addr, qlen: nat)
    requires forall n :: n in nodes ==> n.Node? && Covers(n.prefix, n.len, q, qlen)
    ensures Visit(nodes, asn, qlen).0 <==> exists r :: r in AllRecords(nodes) && Matching(r, asn, q, qlen)
  {
    if nodes != [] {
      var n := nodes[0];
      VisitMatches(nodes[1..], asn, q, qlen);
      assert nodes == [n] + nodes[1..];
      assert AllRecords(nodes) == AllRecords([n]) + AllRecords(nodes[1..]);
      if ElemMatches(n.data, asn, qlen) {
        var i :| 0 <= i < |n.data| && n.data[i].asn != 0 && n.data[i].asn == asn && qlen <= n.data[i].maxLen;
        var r := ToRecord(n.prefix, n.len, n.data[i]);
        assert n in [n] && n.data[i] in n.data;
        assert r in AllRecords(nodes) && Matching(r, asn, q, qlen);
      } else {
        assert forall r :: r in AllRecords([n]) ==> ToElem(r) in n.data;
        assert forall r :: r in AllRecords([n]) ==> !Matching(r, asn, q, qlen);
      }
    }
  }

  /** Unless it stops at a match, the reason array lists every record of the visited
      nodes, in order and without repetition. */
  lemma {:induction false} VisitReasons(nodes: seq<Tree>, asn: nat, qlen: nat)
    requires forall n :: n in nodes ==> n.Node? && Distinct(n.data)
    requires forall i, j :: 0 <= i < j < |nodes| ==> (nodes[i].prefix, nodes[i].len) != (nodes[j].prefix, nodes[j].len)
    ensures var (matched, reason) := Visit(nodes, asn, qlen);
            && Distinct(reason) && Elements(reason) <= AllRecords(nodes)
            && (!matched ==> Elements(reason) == AllRecords(nodes))
  {
    if nodes != [] {
      var n := nodes[0];
      VisitReasons(nodes[1..], asn, qlen);
      assert nodes == [n] + nodes[1..];
      assert AllRecords(nodes) == AllRecords([n]) + AllRecords(nodes[1..]);
      NodeRecordsElements(n.prefix, n.len, n.data);
      assert AllRecords([n]) == Own(n.prefix, n.len, n.data) by {
        assert n in [n];
        forall r | r in Own(n.prefix, n.len, n.data) ensures r in AllRecords([n]) { assert ToElem(r) in n.data; }
      }
      if !ElemMatches(n.data, asn, qlen) {
        assert forall r :: r in AllRecords(nodes[1..]) ==> (r.prefix, r.minLen) != (n.prefix, n.len);
        DistinctConcat(NodeRecords(n.prefix, n.len, n.data), Visit(nodes[1..], asn, qlen).1);
      }
    }
  }

  /** Nodes from the root down, none shorter than the one before. */
  ghost predicate Lengthening(nodes: seq<Tree>) {
    && (forall i :: 0 <= i < |nodes| ==> nodes[i].Node?)
    && (forall i, j :: 0 <= i < j < |nodes| ==> nodes[i].len <= nodes[j].len)
  }

  lemma {:induction false} WalkLengthens(t: Tree, q: Addr, qlen: nat, path: seq<bool>, w: nat)
    requires Inv(t, path, w)
    ensures Lengthening(Walk(t, q, qlen, |path|))
    ensures forall n :: n in Walk(t, q, qlen, |path|) ==> n.Node? && t.Node? && t.len <= n.len
  {
    if t.Node? {
      var b := Bit(q, |path|);
      var rest := Walk(Child(t, b), q, qlen, |path| + 1);
      WalkLengthens(Child(t, b), q, qlen, path + [b], w);
      WalkStep(t, q, qlen, |path|);
      hide Walk, Covers;
      forall n | n in rest ensures t.len <= n.len { assert Child(t, b).Node?; }
    }
  }

  /** The visit stops at a node with a match. */
  lemma {:induction false} VisitSettles(nodes: seq<Tree>, asn: nat, q: Addr, qlen: nat)
    requires Lengthening(nodes) && forall n :: n in nodes ==> n.Node? && Covers(n.prefix, n.len, q, qlen)
    requires Visit(nodes, asn, qlen).0
    ensures exists r :: r in AllRecords(nodes) && Settles(AllRecords(nodes), asn, q, qlen, Visit(nodes, asn, qlen).1, r)
  {
    hide Covers, Matching, Lengthening, AllRecords, NodeRecords, Settles, ElemMatches;
    var n, rest := nodes[0], nodes[1..];
    assert nodes == [n] + rest;
    AllRecordsConcat([n], rest);
    NodeIsOwn(n);
    RestLengthens(nodes);
    var own := NodeRecords(n.prefix, n.len, n.data);
    if ElemMatches(n.data, asn, qlen) {
      MatchesHere(n, asn, q, qlen);
      var r :| r in own && Matching(r, asn, q, qlen);
      SettledHere(AllRecords(rest), asn, q, qlen, own, r);
    } else {
      VisitSettles(rest, asn, q, qlen);
      var reason := Visit(rest, asn, qlen).1;
      var r :| r in AllRecords(rest) && Settles(AllRecords(rest), asn, q, qlen, reason, r);
      SettledLater(AllRecords(rest), n.len, asn, q, qlen, own, reason, r);
    }
  }

  lemma SettledHere(others: set<Record>, asn: nat, q: Addr, qlen: nat, own: seq<Record>, r: Record)
    requires r in own && Matching(r, asn, q, qlen) && forall s :: s in own ==> s.minLen == r.minLen
    requires forall s :: s in others ==> r.minLen <= s.minLen
    ensures forall all: set<Record> :: (forall s :: s in all <==> s in own || s in others) ==> Settles(all, asn, q, qlen, own, r)
  {
  }

  lemma SettledLater(others: set<Record>, len: nat, asn: nat, q: Addr, qlen: nat, own: seq<Record>, reason: seq<Record>, r: Record)
    requires r in others && Settles(others, asn, q, qlen, reason, r)
    requires (forall s :: s in own ==> s.minLen == len) && forall s :: s in others ==> len <= s.minLen
    ensures forall all: set<Record> :: (forall s :: s in all <==> s in own || s in others) ==> Settles(all, asn, q, qlen, own + reason, r)
  {
    hide Matching;
  }

  lemma NodeIsOwn(n: Tree)
    requires n.Node?
    ensures forall r :: r in AllRecords([n]) <==> r in NodeRecords(n.prefix, n.len, n.data)
    ensures forall r :: r in AllRecords([n]) ==> r.minLen == n.len
  {
    assert n in [n];
    var own := NodeRecords(n.prefix, n.len, n.data);
    forall r | r in AllRecords([n]) ensures r in own {
      var i :| 0 <= i < |n.data| && r == ToRecord(n.prefix, n.len, n.data[i]);
      assert own[i] == r;
    }
    forall r | r in own ensures r in AllRecords([n]) {
      var i :| 0 <= i < |own| && own[i] == r;
      assert n.data[i] in n.data;
    }
  }

  lemma RestLengthens(nodes: seq<Tree>)
    requires Lengthening(nodes) && nodes != []
    ensures Lengthening(nodes[1..]) && forall r :: r in AllRecords(nodes[1..]) ==> nodes[0].len <= r.minLen
  {
    var rest := nodes[1..];
    forall r | r in AllRecords(rest) ensures nodes[0].len <= r.minLen {
      var i, e :| 0 <= i < |rest| && e in rest[i].data && r == ToRecord(rest[i].prefix, rest[i].len, e);
      assert rest[i] == nodes[i + 1];
    }
  }

  lemma MatchesHere(n: Tree, asn: nat, q: Addr, qlen: nat)
    requires n.Node? && Covers(n.prefix, n.len, q, qlen) && ElemMatches(n.data, asn, qlen)
    ensures exists r :: r in NodeRecords(n.prefix, n.len, n.data) && Matching(r, asn, q, qlen)
  {
    var i :| 0 <= i < |n.data| && n.data[i].asn != 0 && n.data[i].asn == asn && qlen <= n.data[i].maxLen;
    ComparesBits(n.prefix, n.len, q, qlen, n.data[i]);
    var own := NodeRecords(n.prefix, n.len, n.data);
    var r := own[i];
    assert r == ToRecord(n.prefix, n.len, n.data[i]) && r in own && Matching(r, asn, q, qlen);
  }

  lemma {:induction false} WalkInTree(t: Tree, q: Addr, qlen: nat, path: Addr, w: nat)
    requires Inv(t, path, w)
    ensures var nodes := Walk(t, q, qlen, |path|);
            && (forall n :: n in nodes ==> n.Node? && n.data != [] && Distinct(n.data) && (n.prefix, n.len) in Keys(t))
            && (forall i, j :: 0 <= i < j < |nodes| ==> (nodes[i].prefix, nodes[i].len) != (nodes[j].prefix, nodes[j].len))
  {
    if t.Node? {
      var b := Bit(q, |path|);
      WalkInTree(Child(t, b), q, qlen, path + [b], w);
    }
  }

  /** In every table, whatever its prefixes, the answer is sound. */
  lemma WalkIsSound(t: Tree, asn: nat, q: Addr, qlen: nat, w: nat)
    requires Inv(t, [], w) && |q| == w
    ensures var (state, reason) := Validate(t, asn, q, qlen);
            Sound(Records(t), asn, q, qlen, state, reason)
  {
    hide Walk, Inv, Keys, LevelsFit;
    var nodes := Walk(t, q, qlen, 0);
    WalkNodes(t, q, qlen, 0);
    WalkInTree(t, q, qlen, [], w);
    WalkInRecords(t, q, qlen, 0);
    WalkLengthens(t, q, qlen, [], w);
    VisitMatches(nodes, asn, q, qlen);
    VisitReasons(nodes, asn, qlen);
    if Visit(nodes, asn, qlen).0 { VisitSettles(nodes, asn, q, qlen); }
    if nodes != [] {
      var r := ToRecord(nodes[0].prefix, nodes[0].len, nodes[0].data[0]);
      assert r in AllRecords(nodes) by { assert nodes[0] in nodes && nodes[0].data[0] in nodes[0].data; }
    }
  }

  lemma {:induction false} WalkInRecords(t: Tree, q: Addr, qlen: nat, lvl: nat)
    ensures AllRecords(Walk(t, q, qlen, lvl)) <= CoveringSet(Records(t), q, qlen)
  {
    if t.Node? {
      var b := Bit(q, lvl);
      WalkInRecords(Child(t, b), q, qlen, lvl + 1);
      WalkStep(t, q, qlen, lvl);
      hide CoveringSet, AllRecords, Records, Own, Walk, Covers;
      CoveringSplit(t, b, q, qlen);
      AllRecordsConcat(if Covers(t.prefix, t.len, q, qlen) then [t] else [], Walk(Child(t, b), q, qlen, lvl + 1));
      OwnCovering(t, q, qlen);
    }
  }

  /** No two records stand for the same prefix with different bits beyond its length.
      A table of canonical prefixes is like that, whatever its records. */
  ghost predicate OnePrefixOneKey(rs: set<Record>) {
    forall r, s :: r in rs && s in rs && SamePrefix((r.prefix, r.minLen), (s.prefix, s.minLen)) ==> r.prefix == s.prefix
  }

  lemma CanonicalIsOneKey(rs: set<Record>, w: nat)
    requires forall r :: r in rs ==> Canonical(r.prefix, r.minLen, w)
    ensures OnePrefixOneKey(rs)
  {
    CanonicalUnambiguous(set r | r in rs :: (r.prefix, r.minLen), w);
  }

  lemma {:induction false} KeysHaveRecords(t: Tree, path: seq<bool>, w: nat)
    requires Inv(t, path, w)
    ensures forall k :: k in Keys(t) ==> exists r :: r in Records(t) && (r.prefix, r.minLen) == k
  {
    if t.Node? {
      KeysHaveRecords(t.left, path + [false], w);
      KeysHaveRecords(t.right, path + [true], w);
      assert t.data[0] in t.data;
      assert ToRecord(t.prefix, t.len, t.data[0]) in Records(t);
    }
  }

  lemma OneKeyLevels(t: Tree, w: nat)
    requires Inv(t, [], w) && OnePrefixOneKey(Records(t))
    ensures LevelsFit(t, 0)
  {
    KeysHaveRecords(t, [], w);
    LevelAtMostLength(t, [], w);
  }

  /** When no two records stand for the same prefix with different stray bits, walking
      one path gives the verdict of scanning all records. */
  lemma WalkAgreesWithScan(t: Tree, asn: nat, q: Addr, qlen: nat, w: nat)
    requires Inv(t, [], w) && |q| == w && OnePrefixOneKey(Records(t))
    ensures var (state, reason) := Validate(t, asn, q, qlen);
            Decided(Records(t), asn, q, qlen, state, reason)
  {
    OneKeyLevels(t, w);
    LevelsFitAgree(t, asn, q, qlen, w);
  }

  lemma LevelsFitAgree(t: Tree, asn: nat, q: Addr, qlen: nat, w: nat)
    requires Inv(t, [], w) && |q| == w && LevelsFit(t, 0)
    ensures var (state, reason) := Validate(t, asn, q, qlen);
            Decided(Records(t), asn, q, qlen, state, reason)
  {
    hide Walk, Inv, Keys, LevelsFit;
    var nodes := Walk(t, q, qlen, 0);
    WalkIsComplete(t, q, qlen, [], w);
    WalkNodes(t, q, qlen, 0);
    WalkInTree(t, q, qlen, [], w);
    WalkLengthens(t, q, qlen, [], w);
    VisitMatches(nodes, asn, q, qlen);
    VisitReasons(nodes, asn, qlen);
    if Visit(nodes, asn, qlen).0 { VisitSettles(nodes, asn, q, qlen); }
    var covering := CoveringSet(Records(t), q, qlen);
    assert forall r :: r in Records(t) && Covering(r, q, qlen) <==> r in covering;
    assert forall r :: r in Records(t) && Matching(r, asn, q, qlen) <==> r in covering && Matching(r, asn, q, qlen);
    if nodes != [] {
      var r := ToRecord(nodes[0].prefix, nodes[0].len, nodes[0].data[0]);
      assert r in AllRecords(nodes) by { assert nodes[0] in nodes && nodes[0].data[0] in nodes[0].data; }
    }
  }

  // ----- Prefixes with stray bits -----

  /** The first node on a path that is deeper than its length hides a record from
      some route it covers. */
  lemma {:induction false} HiddenRecord(t: Tree, path: seq<bool>, w: nat) returns (r: Record, q: Addr)
    requires Inv(t, path, w) && !LevelsFit(t, |path|) && (t.len < |path| ==> t.len < w)
    ensures r in Records(t) && (r.prefix, r.minLen) in Keys(t)
    ensures |q| == w && r.minLen <= w && Covering(r, q, r.minLen)
    ensures Routed(q, path) ==> r !in AllRecords(Walk(t, q, r.minLen, |path|))
  {
    if t.len < |path| {
      r := ToRecord(t.prefix, t.len, t.data[0]);
      q := t.prefix[t.len := !t.prefix[t.len]];
      assert t.data[0] in t.data;
      assert q[..t.len] == t.prefix[..t.len];
      assert path[t.len] == Bit(t.prefix, t.len) != Bit(q, t.len);
    } else {
      var b := LevelsFit(t.left, |path| + 1);
      ChildDeeper(t, b, path, w);
      r, q := HiddenRecord(Child(t, b), path + [b], w);
      if Routed(q, path) { HiddenBelow(t, b, path, w, r, q); }
    }
  }

  /** A record hidden in the walk of one child is hidden in the walk of the node. */
  lemma HiddenBelow(t: Tree, b: bool, path: seq<bool>, w: nat, r: Record, q: Addr)
    requires t.Node? && Inv(t, path, w) && |q| == w && Routed(q, path)
    requires (t.prefix, t.len) !in Keys(t.left) + Keys(t.right) && (r.prefix, r.minLen) in Keys(Child(t, b))
    requires Routed(q, path + [b]) ==> r !in AllRecords(Walk(Child(t, b), q, r.minLen, |path| + 1))
    ensures r !in AllRecords(Walk(t, q, r.minLen, |path|))
  {
    hide AllRecords, Walk, Covers, Inv, Keys, Records;
    NotOwnRecord(t, r, b);
    if Bit(q, |path|) == b { RoutedOn(q, path, b); } else { OnOtherSide(t, b, path, w, r, q); }
    HiddenStep(t, q, r, |path|);
  }

  lemma HiddenStep(t: Tree, q: Addr, r: Record, lvl: nat)
    requires t.Node? && r !in AllRecords([t]) && r !in AllRecords(Walk(Child(t, Bit(q, lvl)), q, r.minLen, lvl + 1))
    ensures r !in AllRecords(Walk(t, q, r.minLen, lvl))
  {
    hide AllRecords, Walk, Covers, Records;
    var rest := Walk(Child(t, Bit(q, lvl)), q, r.minLen, lvl + 1);
    WalkStep(t, q, r.minLen, lvl);
    AllRecordsConcat([t], rest);
    AllRecordsConcat([], rest);
    NothingInNil(q, r.minLen);
  }

  lemma NotOwnRecord(t: Tree, r: Record, b: bool)
    requires t.Node? && (t.prefix, t.len) !in Keys(t.left) + Keys(t.right) && (r.prefix, r.minLen) in Keys(Child(t, b))
    ensures r !in AllRecords([t])
  {
  }

  /** The walk of the other child meets only keys of that side. */
  lemma OnOtherSide(t: Tree, b: bool, path: seq<bool>, w: nat, r: Record, q: Addr)
    requires t.Node? && Inv(t, path, w) && (r.prefix, r.minLen) in Keys(Child(t, b))
    ensures r !in AllRecords(Walk(Child(t, !b), q, r.minLen, |path| + 1))
  {
    SidesDisjoint(t, path, w);
    WalkKeys(Child(t, !b), q, r.minLen, |path| + 1);
  }

  lemma {:induction false} WalkKeys(t: Tree, q: Addr, qlen: nat, lvl: nat)
    ensures forall r :: r in AllRecords(Walk(t, q, qlen, lvl)) ==> (r.prefix, r.minLen) in Keys(t)
  {
    if t.Node? {
      WalkKeys(Child(t, Bit(q, lvl)), q, qlen, lvl + 1);
      assert AllRecords(Walk(t, q, qlen, lvl)) <= AllRecords([t]) + AllRecords(Walk(Child(t, Bit(q, lvl)), q, qlen, lvl + 1));
    }
  }

  /** The walk meets exactly the covering records, whatever the route. */
  ghost predicate Exact(t: Tree, w: nat) {
    forall q: Addr, qlen: nat :: |q| == w ==> AllRecords(Walk(t, q, qlen, 0)) == CoveringSet(Records(t), q, qlen)
  }

  /** For arbitrary prefixes the walk is exact if and only if no node sits deeper than
      its length. */
  lemma WalkExactIffLevelsFit(t: Tree, w: nat)
    requires Inv(t, [], w)
    ensures Exact(t, w) <==> LevelsFit(t, 0)
  {
    if LevelsFit(t, 0) {
      forall q: Addr, qlen: nat | |q| == w ensures AllRecords(Walk(t, q, qlen, 0)) == CoveringSet(Records(t), q, qlen) {
        WalkIsComplete(t, q, qlen, [], w);
      }
    } else {
      var r, q := HiddenRecord(t, [], w);
      assert r in CoveringSet(Records(t), q, r.minLen);
    }
  }
}
