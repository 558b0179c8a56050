/** The incremental hash table of third-party/tommyds/tommyhashlin.c, against the list of
    its nodes in the order they were inserted. */
module LinearHashing {
  import opened Powers

  /** struct key_entry of rtrlib/spki/hashtable/ht-spkitable.c, what the nodes point to. */
  datatype KeyEntry = KeyEntry(asn: nat, ski: seq<nat>, spki: seq<nat>, socket: nat)

  /** A node and the hash it was inserted with. */
  datatype Node = Node(key: nat, data: KeyEntry)

  const INITIAL_BIT: nat := 6

  /** From here on the C counters of 32 bits could overflow. */
  const COUNT_LIMIT: nat := 0x1000_0000

  // ----- Positions -----

  /** The bit that tells the two halves apart. */
  predicate HighBit(hash: nat, lowMax: nat)
    requires 0 < lowMax
  {
    (hash / lowMax) % 2 == 1
  }

  lemma HighPosition(hash: nat, lowMax: nat)
    requires 0 < lowMax
    ensures hash % (2 * lowMax) == hash % lowMax + (if HighBit(hash, lowMax) then lowMax else 0)
    ensures hash % lowMax < lowMax
  {
    var q, r := hash / lowMax, hash % lowMax;
    var d, b := q / 2, q % 2;
    assert hash == lowMax * q + r;
    assert lowMax * q == lowMax * (2 * d + b) == (2 * lowMax) * d + lowMax * b;
    assert lowMax * b == if b == 1 then lowMax else 0;
    Remainder(hash, 2 * lowMax, d, r + lowMax * b);
  }

  lemma Remainder(x: nat, m: nat, q: nat, r: nat)
    requires 0 < m && x == m * q + r && r < m
    ensures x % m == r && x / m == q
  {
    var d := x / m - q;
    assert x == m * (x / m) + x % m;
    assert m * d == r - x % m;
    assert d >= 1 ==> m * d >= m;
    assert d <= -1 ==> m * d <= 0 - m;
  }

  /** tommy_hashlin_pos picks the segment by the position's highest bit. */
  function HighestBit(pos: nat): (b: nat)
    ensures (if pos == 0 then 1 else pos) >= Pow2(b)
    ensures pos < Pow2(b + 1)
  {
    if pos <= 1 then 0 else 1 + HighestBit(pos / 2)
  }

  /** The segment of a usable position has been allocated. */
  lemma SegmentAllocated(pos: nat, bucketBit: nat)
    requires pos < Pow2(bucketBit) && 0 < bucketBit
    ensures HighestBit(pos) < bucketBit
  {
    if bucketBit < HighestBit(pos) { Pow2Increases(bucketBit, HighestBit(pos)); }
  }

  // ----- Nodes of one hash -----

  function OfHash(s: seq<Node>, hash: nat): (r: seq<Node>)
    ensures forall n :: n in r <==> n in s && n.key == hash
  {
    if s == [] then [] else if s[0].key == hash then [s[0]] + OfHash(s[1..], hash) else OfHash(s[1..], hash)
  }

  lemma OfHashCons(head: Node, rest: seq<Node>, hash: nat)
    ensures OfHash([head] + rest, hash) == if head.key == hash then [head] + OfHash(rest, hash) else OfHash(rest, hash)
  {
    assert ([head] + rest)[1..] == rest;
  }

  lemma {:induction false} OfHashConcat(a: seq<Node>, b: seq<Node>, hash: nat)
    ensures OfHash(a + b, hash) == OfHash(a, hash) + OfHash(b, hash)
  {
    if a == [] {
      assert a + b == b;
    } else {
      var x, rest := a[0], a[1..];
      assert a == [x] + rest && a + b == [x] + (rest + b);
      OfHashConcat(rest, b, hash);
      hide OfHash;
      OfHashCons(x, rest, hash);
      OfHashCons(x, rest + b, hash);
      assert [x] + (OfHash(rest, hash) + OfHash(b, hash)) == [x] + OfHash(rest, hash) + OfHash(b, hash);
    }
  }

  lemma OfHashNone(s: seq<Node>, hash: nat)
    requires forall n :: n in s ==> n.key != hash
    ensures OfHash(s, hash) == []
  {
    if s != [] { OfHashNone(s[1..], hash); }
  }

  /** The nodes of a bucket whose high bit is `high`, in order. */
  function OfHalf(s: seq<Node>, lowMax: nat, high: bool): seq<Node>
    requires 0 < lowMax
  {
    if s == [] then [] else (if HighBit(s[0].key, lowMax) == high then [s[0]] else []) + OfHalf(s[1..], lowMax, high)
  }

  lemma {:induction false} OfHalfMembers(s: seq<Node>, lowMax: nat, high: bool)
    requires 0 < lowMax
    ensures forall n :: n in OfHalf(s, lowMax, high) <==> n in s && HighBit(n.key, lowMax) == high
  {
    if s != [] { OfHalfMembers(s[1..], lowMax, high); }
  }

  lemma OfHalfCons(head: Node, rest: seq<Node>, lowMax: nat, high: bool)
    requires 0 < lowMax
    ensures OfHalf([head] + rest, lowMax, high)
         == (if HighBit(head.key, lowMax) == high then [head] else []) + OfHalf(rest, lowMax, high)
  {
    assert ([head] + rest)[1..] == rest;
  }

  lemma {:induction false} HalfOfHash(s: seq<Node>, lowMax: nat, high: bool, hash: nat)
    requires 0 < lowMax
    ensures OfHash(OfHalf(s, lowMax, high), hash) == if HighBit(hash, lowMax) == high then OfHash(s, hash) else []
  {
    if s != [] {
      HalfOfHash(s[1..], lowMax, high, hash);
      var first := if HighBit(s[0].key, lowMax) == high then [s[0]] else [];
      OfHashConcat(first, OfHalf(s[1..], lowMax, high), hash);
    }
  }

  /** The list without the first occurrence of a node. */
  function Without(s: seq<Node>, n: Node): (r: seq<Node>)
    ensures n in s ==> |r| == |s| - 1
    ensures n !in s ==> r == s
    ensures forall m :: m in r ==> m in s
  {
    if s == [] then [] else if s[0] == n then s[1..] else [s[0]] + Without(s[1..], n)
  }

  lemma {:induction false} WithoutOfHash(s: seq<Node>, n: Node, hash: nat)
    ensures OfHash(Without(s, n), hash) == Without(OfHash(s, hash), n)
  {
    if s != [] {
      hide OfHash, Without;
      var head, rest := s[0], s[1..];
      assert s == [head] + rest;
      OfHashCons(head, rest, hash);
      if head == n {
        WithoutFirst(n, rest);
        if n.key == hash { WithoutFirst(n, OfHash(rest, hash)); }
      } else {
        WithoutLater(head, rest, n);
        WithoutOfHash(rest, n, hash);
        OfHashCons(head, Without(rest, n), hash);
        if head.key == hash { WithoutLater(head, OfHash(rest, hash), n); }
      }
    }
  }

  lemma WithoutFirst(n: Node, tail: seq<Node>)
    ensures Without([n] + tail, n) == tail
  {
    assert ([n] + tail)[1..] == tail;
  }

  lemma WithoutLater(m: Node, tail: seq<Node>, n: Node)
    requires m != n
    ensures Without([m] + tail, n) == [m] + Without(tail, n)
  {
    assert ([m] + tail)[1..] == tail;
  }

  // ----- The buckets of a partly split table -----

  /** The buckets and the boundaries that say where a hash belongs. */
  datatype Grid = Grid(bucket: seq<seq<Node>>, lowMax: nat, bucketMax: nat, split: nat)

  ghost predicate Sized(g: Grid) {
    && 0 < g.lowMax && |g.bucket| == g.bucketMax
    && if g.split == 0 && g.lowMax == g.bucketMax then true else g.bucketMax == 2 * g.lowMax && g.split <= g.lowMax
  }

  /** tommy_hashlin_bucket_ref, the masks being remainders of powers of two: always one of
      the buckets in use. */
  function Ref(hash: nat, lowMax: nat, bucketMax: nat, split: nat): (r: nat)
    requires 0 < lowMax && ((bucketMax == 2 * lowMax && split <= lowMax) || (bucketMax == lowMax && split == 0))
    ensures r < lowMax + split
  {
    HighPosition(hash, lowMax);
    if hash % lowMax < split then hash % bucketMax else hash % lowMax
  }

  function RefIn(g: Grid, hash: nat): (r: nat)
    requires Sized(g)
    ensures r < g.lowMax + g.split <= g.bucketMax
  {
    Ref(hash, g.lowMax, g.bucketMax, g.split)
  }

  /** Every node sits in the bucket of its hash. */
  ghost predicate Placed(g: Grid)
    requires Sized(g)
  {
    forall p, n :: 0 <= p < g.lowMax + g.split && n in g.bucket[p] ==> RefIn(g, n.key) == p
  }

  /** The bucket of a hash holds its nodes in the order of the list. */
  ghost predicate Ordered(g: Grid, list: seq<Node>)
    requires Sized(g)
  {
    forall h: nat :: OfHash(g.bucket[RefIn(g, h)], h) == OfHash(list, h)
  }

  ghost predicate Holds(g: Grid, list: seq<Node>) {
    Sized(g) && Placed(g) && Ordered(g, list)
  }

  /** Splitting the bucket at the split position. */
  function SplitOne(g: Grid): Grid
    requires Sized(g) && g.bucketMax == 2 * g.lowMax && g.split < g.lowMax
  {
    var low := g.bucket[g.split];
    Grid(g.bucket[g.split := OfHalf(low, g.lowMax, false)][g.split + g.lowMax := OfHalf(low, g.lowMax, true)],
         g.lowMax, g.bucketMax, g.split + 1)
  }

  /** Appending the last high bucket to its low one. */
  function MergeOne(g: Grid): Grid
    requires Sized(g) && g.bucketMax == 2 * g.lowMax && 0 < g.split
  {
    var at := g.split - 1;
    Grid(g.bucket[at := g.bucket[at] + g.bucket[at + g.lowMax]], g.lowMax, g.bucketMax, at)
  }

  /** Only the hashes of the split bucket move, by their high bit. */
  lemma SplitMoves(g: Grid, h: nat)
    requires Sized(g) && g.bucketMax == 2 * g.lowMax && g.split < g.lowMax
    ensures Sized(SplitOne(g))
    ensures RefIn(g, h) != g.split ==> RefIn(SplitOne(g), h) == RefIn(g, h) && RefIn(g, h) != g.split + g.lowMax
    ensures RefIn(g, h) == g.split ==> RefIn(SplitOne(g), h) == g.split + (if HighBit(h, g.lowMax) then g.lowMax else 0)
  {
    HighPosition(h, g.lowMax);
  }

  lemma SplitHolds(g: Grid, list: seq<Node>)
    requires Holds(g, list) && g.bucketMax == 2 * g.lowMax && g.split < g.lowMax
    ensures Holds(SplitOne(g), list)
  {
    var g' := SplitOne(g);
    forall h: nat ensures OfHash(g'.bucket[RefIn(g', h)], h) == OfHash(list, h) {
      SplitMoves(g, h);
      HalfOfHash(g.bucket[g.split], g.lowMax, HighBit(h, g.lowMax), h);
      assert OfHash(g.bucket[RefIn(g, h)], h) == OfHash(list, h);
    }
    forall p, n | 0 <= p < g'.lowMax + g'.split && n in g'.bucket[p] ensures RefIn(g', n.key) == p {
      SplitMoves(g, n.key);
      OfHalfMembers(g.bucket[g.split], g.lowMax, HighBit(n.key, g.lowMax));
      OfHalfMembers(g.bucket[g.split], g.lowMax, !HighBit(n.key, g.lowMax));
    }
  }

  lemma MergeMoves(g: Grid, h: nat)
    requires Sized(g) && g.bucketMax == 2 * g.lowMax && 0 < g.split
    ensures Sized(MergeOne(g))
    ensures var at := g.split - 1;
            RefIn(MergeOne(g), h) == if RefIn(g, h) == at + g.lowMax then at else RefIn(g, h)
  {
    HighPosition(h, g.lowMax);
  }

  lemma MergeHolds(g: Grid, list: seq<Node>)
    requires Holds(g, list) && g.bucketMax == 2 * g.lowMax && 0 < g.split
    ensures Holds(MergeOne(g), list)
  {
    hide OfHash, Ref, MergeOne;
    MergeSized(g);
    var g' := MergeOne(g);
    forall h: nat ensures OfHash(g'.bucket[RefIn(g', h)], h) == OfHash(list, h) { MergeOrdered(g, list, h); }
    forall p, n | 0 <= p < g'.lowMax + g'.split && n in g'.bucket[p] ensures RefIn(g', n.key) == p {
      MergePlaced(g, p, n);
    }
  }

  lemma MergeSized(g: Grid)
    requires Sized(g) && g.bucketMax == 2 * g.lowMax && 0 < g.split
    ensures Sized(MergeOne(g)) && MergeOne(g).lowMax == g.lowMax && MergeOne(g).split == g.split - 1
  {
  }

  lemma MergePlaced(g: Grid, p: nat, n: Node)
    requires Sized(g) && Placed(g) && g.bucketMax == 2 * g.lowMax && 0 < g.split
    requires p < g.lowMax + g.split - 1 && n in MergeOne(g).bucket[p]
    ensures RefIn(MergeOne(g), n.key) == p
  {
    hide Ref;
    MergeMoves(g, n.key);
  }

  lemma MergeOrdered(g: Grid, list: seq<Node>, h: nat)
    requires Holds(g, list) && g.bucketMax == 2 * g.lowMax && 0 < g.split
    ensures var g' := MergeOne(g); OfHash(g'.bucket[RefIn(g', h)], h) == OfHash(list, h)
  {
    hide OfHash, Ref;
    var at := g.split - 1;
    var low, high := g.bucket[at], g.bucket[at + g.lowMax];
    MergeMoves(g, h);
    OfHashConcat(low, high, h);
    if RefIn(g, h) != at { OfHashNone(low, h); }
    if RefIn(g, h) != at + g.lowMax { OfHashNone(high, h); }
    assert OfHash(g.bucket[RefIn(g, h)], h) == OfHash(list, h);
  }

  /** All buckets split: the same table, not split at all. */
  lemma FullySplit(g: Grid, list: seq<Node>)
    requires Holds(g, list) && g.bucketMax == 2 * g.lowMax && g.split == g.lowMax
    ensures Holds(Grid(g.bucket, g.bucketMax, g.bucketMax, 0), list)
  {
    var g' := Grid(g.bucket, g.bucketMax, g.bucketMax, 0);
    forall h: nat ensures RefIn(g', h) == RefIn(g, h) { HighPosition(h, g.lowMax); }
    assert forall h: nat :: OfHash(g'.bucket[RefIn(g', h)], h) == OfHash(list, h);
  }

  /** Back to where merging starts. */
  lemma StartMerge(g: Grid, list: seq<Node>)
    requires Holds(g, list) && g.bucketMax == g.lowMax && g.split == 0 && g.lowMax % 2 == 0
    ensures Holds(Grid(g.bucket, g.lowMax / 2, g.bucketMax, g.lowMax / 2), list)
  {
    var g' := Grid(g.bucket, g.lowMax / 2, g.bucketMax, g.lowMax / 2);
    forall h: nat ensures RefIn(g', h) == RefIn(g, h) { HighPosition(h, g'.lowMax); }
    assert forall h: nat :: OfHash(g'.bucket[RefIn(g', h)], h) == OfHash(list, h);
  }

  /** No bucket split: the upper half is not in use. */
  lemma FullyMerged(g: Grid, list: seq<Node>)
    requires Holds(g, list) && g.bucketMax == 2 * g.lowMax && g.split == 0
    ensures Holds(Grid(g.bucket[..g.lowMax], g.lowMax, g.lowMax, 0), list)
  {
    var g' := Grid(g.bucket[..g.lowMax], g.lowMax, g.lowMax, 0);
    assert forall h: nat :: RefIn(g', h) == RefIn(g, h) && g'.bucket[RefIn(g', h)] == g.bucket[RefIn(g, h)];
  }

  /** A fresh upper half, whatever its memory holds. */
  lemma StartSplit(g: Grid, list: seq<Node>, upper: seq<seq<Node>>)
    requires Holds(g, list) && g.bucketMax == g.lowMax && g.split == 0 && |upper| == g.lowMax
    ensures Holds(Grid(g.bucket + upper, g.lowMax, 2 * g.lowMax, 0), list)
  {
    var g' := Grid(g.bucket + upper, g.lowMax, 2 * g.lowMax, 0);
    assert forall h: nat :: RefIn(g', h) == RefIn(g, h) && g'.bucket[RefIn(g', h)] == g.bucket[RefIn(g, h)];
  }

  lemma AppendHolds(g: Grid, list: seq<Node>, n: Node)
    requires Holds(g, list)
    ensures var at := RefIn(g, n.key);
            Holds(g.(bucket := g.bucket[at := g.bucket[at] + [n]]), list + [n])
  {
    var at := RefIn(g, n.key);
    var g' := g.(bucket := g.bucket[at := g.bucket[at] + [n]]);
    forall h: nat ensures OfHash(g'.bucket[RefIn(g', h)], h) == OfHash(list + [n], h) {
      OfHashConcat(list, [n], h);
      OfHashConcat(g.bucket[at], [n], h);
      assert OfHash(g.bucket[RefIn(g, h)], h) == OfHash(list, h);
    }
  }

  lemma RemoveHolds(g: Grid, list: seq<Node>, n: Node)
    requires Holds(g, list)
    ensures var at := RefIn(g, n.key);
            Holds(g.(bucket := g.bucket[at := Without(g.bucket[at], n)]), Without(list, n))
    ensures n in g.bucket[RefIn(g, n.key)] <==> n in list
  {
    var at := RefIn(g, n.key);
    var g' := g.(bucket := g.bucket[at := Without(g.bucket[at], n)]);
    forall h: nat ensures OfHash(g'.bucket[RefIn(g', h)], h) == OfHash(Without(list, n), h) {
      WithoutOfHash(list, n, h);
      WithoutOfHash(g.bucket[RefIn(g, h)], n, h);
      assert OfHash(g.bucket[RefIn(g, h)], h) == OfHash(list, h);
    }
    assert OfHash(g.bucket[at], n.key) == OfHash(list, n.key);
    assert n in OfHash(list, n.key) <==> n in list;
  }
}
