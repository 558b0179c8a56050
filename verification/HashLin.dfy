/** The mutable hash table of third-party/tommyds/tommyhashlin.c: every insertion may split a
    few buckets and every removal may merge a few, in either direction. */
module HashLinTable {
  import opened LinearHashing
  import opened Powers

  datatype Phase = Stable | Grow | Shrink

  /** How far a resize has come, for the number of nodes: never more than eight buckets in
      use for each, unless the table has its initial size. */
  ghost predicate Resizing(phase: Phase, bucketBit: nat, bucketMax: nat, lowMax: nat, split: nat, count: nat) {
    && INITIAL_BIT <= bucketBit <= 29 && bucketMax == Pow2(bucketBit)
    && (INITIAL_BIT < bucketBit ==> lowMax + split <= 8 * count)
    && match phase
       case Stable => lowMax == bucketMax && split == 0 && count <= bucketMax / 2 + 1
       case Grow => INITIAL_BIT < bucketBit && bucketMax == 2 * lowMax && 1 <= split < lowMax && 2 * count <= split + lowMax
       case Shrink => INITIAL_BIT < bucketBit && bucketMax == 2 * lowMax && 1 <= split < lowMax && count <= lowMax
  }

  /** There is always a bucket in use for each node, and, beyond the initial size, there are
      never more than eight. */
  lemma EnoughBuckets(phase: Phase, bucketBit: nat, bucketMax: nat, lowMax: nat, split: nat, count: nat)
    requires Resizing(phase, bucketBit, bucketMax, lowMax, split, count)
    ensures count <= lowMax + split <= bucketMax && (bucketMax > 64 ==> lowMax + split <= 8 * count)
    ensures 64 <= bucketMax <= 0x2000_0000
  {
    BitBounds(bucketBit);
    if bucketBit == INITIAL_BIT { Pow2Values(); }
  }

  lemma BitBounds(bit: nat)
    requires INITIAL_BIT <= bit <= 29
    ensures 64 <= Pow2(bit) <= 0x2000_0000
    ensures INITIAL_BIT < bit ==> Pow2(bit) == 2 * Pow2(bit - 1) && 64 <= Pow2(bit - 1)
  {
    Pow2Values();
    if 6 < bit { Pow2Increases(6, bit); }
    if bit < 29 { Pow2Increases(bit, 29); }
    if 6 < bit - 1 { Pow2Increases(6, bit - 1); }
  }

  lemma MultipleOfEight(bit: nat)
    requires INITIAL_BIT <= bit
    ensures Pow2(bit) % 8 == 0
  {
    assert Pow2(bit) == 2 * Pow2(bit - 1) && Pow2(bit - 1) == 2 * Pow2(bit - 2) && Pow2(bit - 2) == 2 * Pow2(bit - 3);
  }

  lemma Pow2Values()
    ensures Pow2(6) == 64 && Pow2(29) == 0x2000_0000
  {
    assert Pow2(6) == 64 && Pow2(12) == 4096 && Pow2(18) == 0x4_0000 && Pow2(24) == 0x100_0000;
  }

  lemma CanDouble(bit: nat, count: nat)
    requires INITIAL_BIT <= bit <= 29 && Pow2(bit) / 2 < count < COUNT_LIMIT
    ensures bit < 29
  {
    Pow2Values();
  }

  /** The inner loop of the grow step: a bucket's nodes go to the low or to the high one. */
  method Flush(s: seq<Node>, lowMax: nat) returns (low: seq<Node>, high: seq<Node>)
    requires 0 < lowMax
    ensures low == OfHalf(s, lowMax, false) && high == OfHalf(s, lowMax, true)
  {
    assert OfHalf([], lowMax, false) == OfHalf([], lowMax, true) == [];
    hide OfHalf;
    low, high := [], [];
    var rest := s;
    while rest != []
      invariant OfHalf(s, lowMax, false) == low + OfHalf(rest, lowMax, false)
      invariant OfHalf(s, lowMax, true) == high + OfHalf(rest, lowMax, true)
      decreases |rest|
    {
      assert rest == [rest[0]] + rest[1..];
      OfHalfCons(rest[0], rest[1..], lowMax, false);
      OfHalfCons(rest[0], rest[1..], lowMax, true);
      if HighBit(rest[0].key, lowMax) {
        high := high + [rest[0]];
      } else {
        low := low + [rest[0]];
      }
      rest := rest[1..];
    }
  }

  class HashLin {
    var bucket: seq<seq<Node>>
    var bucketBit: nat
    var bucketMax: nat
    var lowMax: nat
    var split: nat
    var count: nat
    var phase: Phase
    ghost var list: seq<Node>

    ghost function Layout(): Grid
      reads this
    {
      Grid(bucket, lowMax, bucketMax, split)
    }

    ghost predicate ValidAt(c: nat)
      reads this
    {
      Resizing(phase, bucketBit, bucketMax, lowMax, split, c) && Holds(Layout(), list) && count == |list| < COUNT_LIMIT
    }

    ghost predicate Valid()
      reads this
    {
      ValidAt(count)
    }

    constructor ()
      ensures Valid() && list == []
    {
      bucketBit, bucketMax, lowMax, split, count, phase := INITIAL_BIT, 64, 64, 0, 0, Stable;
      bucket := seq(64, _ => []);
      list := [];
      new;
      assert Pow2(6) == 64;
    }

    /** tommy_hashlin_stable. */
    method GoStable()
      modifies this
      ensures phase == Stable && lowMax == bucketMax && split == 0
      ensures bucket == old(bucket) && bucketBit == old(bucketBit) && bucketMax == old(bucketMax)
      ensures count == old(count) && list == old(list)
    {
      phase, lowMax, split := Stable, bucketMax, 0;
    }

    /** One turn of the grow loop. */
    method SplitBucket()
      requires Holds(Layout(), list) && bucketMax == 2 * lowMax && split < lowMax
      modifies this`bucket, this`split
      ensures Layout() == SplitOne(old(Layout())) && Holds(Layout(), list) && split == old(split) + 1
    {
      SplitHolds(Layout(), list);
      var low, high := Flush(bucket[split], lowMax);
      bucket := bucket[split := low][split + lowMax := high];
      split := split + 1;
    }

    /** One turn of the shrink loop. */
    method MergeBucket()
      requires Holds(Layout(), list) && bucketMax == 2 * lowMax && 0 < split
      modifies this`bucket, this`split
      ensures Layout() == MergeOne(old(Layout())) && Holds(Layout(), list) && split == old(split) - 1
    {
      MergeHolds(Layout(), list);
      split := split - 1;
      bucket := bucket[split := bucket[split] + bucket[split + lowMax]];
    }

    /** The first half of the grow step: start growing, or turn a shrink around. */
    method StartGrow()
      requires 0 < count && ValidAt(count - 1)
      modifies this
      ensures unchanged(this`list) && unchanged(this`count) && Holds(Layout(), list)
      ensures if phase == Grow then Growing(count) else ValidAt(count)
    {
      EnoughBuckets(phase, bucketBit, bucketMax, lowMax, split, count - 1);
      if phase != Grow && count > bucketMax / 2 {
        if phase == Stable {
          CanDouble(bucketBit, count);
          lowMax := bucketMax;
          var segment := new seq<Node>[lowMax];
          StartSplit(Layout(), list, segment[..]);
          bucket := bucket + segment[..];
          bucketBit := bucketBit + 1;
          bucketMax := 2 * bucketMax;
          split := 0;
        }
        phase := Grow;
      }
    }

    /** A grow under way whose target for `c` nodes is not reached yet. */
    ghost predicate Growing(c: nat)
      reads this
    {
      && INITIAL_BIT < bucketBit <= 29 && bucketMax == Pow2(bucketBit) == 2 * lowMax && split < lowMax
      && c <= lowMax + 1 && 1 <= c && (split == 0 ==> 2 * c > lowMax) && lowMax + split <= 8 * c
    }

    /** hashlin_grow_step. */
    method GrowStep()
      requires 0 < count && ValidAt(count - 1)
      modifies this
      ensures Valid() && list == old(list)
    {
      hide Placed, Ordered, Pow2, SplitOne;
      StartGrow();
      if phase == Grow {
        BitBounds(bucketBit);
        var splitTarget := 2 * count;
        while phase == Grow && split + lowMax < splitTarget
          invariant unchanged(this`list) && unchanged(this`count) && Holds(Layout(), list)
          invariant if phase == Grow then Growing(count) else ValidAt(count)
          decreases if phase == Grow then 1 + lowMax - split else 0
        {
          SplitBucket();
          if split == lowMax {
            FullySplit(Layout(), list);
            GoStable();
          }
        }
      }
    }

    /** The first half of the shrink step: start shrinking, or turn a grow around. */
    method BeginShrink()
      requires ValidAt(count + 1)
      modifies this
      ensures unchanged(this`list) && unchanged(this`count) && Holds(Layout(), list)
      ensures if phase == Shrink then Shrinking(count) else ValidAt(count)
    {
      hide Placed, Ordered, Pow2;
      BitBounds(bucketBit);
      MultipleOfEight(bucketBit);
      if bucketBit > INITIAL_BIT { MultipleOfEight(bucketBit - 1); }
      if phase != Shrink && count < bucketMax / 8 {
        if bucketBit > INITIAL_BIT {
          if phase == Stable {
            StartShrink();
          }
          phase := Shrink;
        }
      }
    }

    /** hashlin_shrink_step. */
    method ShrinkStep()
      requires ValidAt(count + 1)
      modifies this
      ensures Valid() && list == old(list)
    {
      hide Placed, Ordered, Pow2, MergeOne;
      BeginShrink();
      if phase == Shrink {
        BitBounds(bucketBit);
        var splitTarget := 8 * count;
        while phase == Shrink && split + lowMax > splitTarget
          invariant unchanged(this`list) && unchanged(this`count) && Holds(Layout(), list)
          invariant if phase == Shrink then Shrinking(count) else ValidAt(count)
          decreases if phase == Shrink then 1 + split else 0
        {
          MergeBucket();
          if split == 0 {
            FinishShrink();
          }
        }
      }
    }

    ghost predicate Shrinking(c: nat)
      reads this
    {
      && INITIAL_BIT < bucketBit <= 29 && bucketMax == Pow2(bucketBit) == 2 * lowMax && 1 <= split <= lowMax
      && c <= lowMax && (split == lowMax ==> 8 * c < bucketMax) && lowMax + split <= 8 * (c + 1) && lowMax % 8 == 0
    }

    /** The last bucket is merged: the upper half is released. */
    method FinishShrink()
      requires INITIAL_BIT < bucketBit <= 29 && bucketMax == Pow2(bucketBit) == 2 * lowMax && split == 0
      requires Holds(Layout(), list) && 8 * count == lowMax && count == |list| < COUNT_LIMIT
      modifies this
      ensures phase == Stable && list == old(list) && count == old(count) && Valid()
    {
      hide Placed, Ordered;
      BitBounds(bucketBit);
      FullyMerged(Layout(), list);
      bucketBit := bucketBit - 1;
      bucketMax := bucketMax / 2;
      bucket := bucket[..bucketMax];
      GoStable();
    }

    method StartShrink()
      requires INITIAL_BIT < bucketBit <= 29 && phase == Stable && lowMax == bucketMax == Pow2(bucketBit) && split == 0
      requires Holds(Layout(), list)
      modifies this`lowMax, this`split
      ensures 2 * lowMax == bucketMax && split == lowMax && Holds(Layout(), list)
    {
      BitBounds(bucketBit);
      StartMerge(Layout(), list);
      lowMax := bucketMax / 2;
      split := lowMax;
    }

    /** tommy_hashlin_insert. */
    method Insert(data: KeyEntry, hash: nat)
      requires Valid() && count + 1 < COUNT_LIMIT
      modifies this
      ensures Valid() && list == old(list) + [Node(hash, data)]
    {
      var n := Node(hash, data);
      AppendHolds(Layout(), list, n);
      var at := Ref(hash, lowMax, bucketMax, split);
      bucket := bucket[at := bucket[at] + [n]];
      list := list + [n];
      count := count + 1;
      GrowStep();
    }

    /** tommy_hashlin_search for an equal entry. */
    method Search(data: KeyEntry, hash: nat) returns (found: bool)
      requires Valid()
      ensures found <==> Node(hash, data) in list
    {
      var n := Node(hash, data);
      RemoveHolds(Layout(), list, n);
      var rest := bucket[Ref(hash, lowMax, bucketMax, split)];
      while rest != []
        invariant n in rest <==> n in list
        decreases |rest|
      {
        if rest[0].key == hash && rest[0].data == data {
          return true;
        }
        rest := rest[1..];
      }
      return false;
    }

    /** tommy_hashlin_remove of the first equal entry. */
    method Remove(data: KeyEntry, hash: nat) returns (found: bool)
      requires Valid()
      modifies this
      ensures Valid() && list == Without(old(list), Node(hash, data))
      ensures found <==> Node(hash, data) in old(list)
    {
      hide Placed, Ordered, Without;
      var n := Node(hash, data);
      RemoveHolds(Layout(), list, n);
      var at := Ref(hash, lowMax, bucketMax, split);
      var skipped: seq<Node>, rest := [], bucket[at];
      while rest != [] && rest[0] != n
        invariant skipped + rest == bucket[at]
        invariant n !in skipped
        decreases |rest|
      {
        skipped, rest := skipped + [rest[0]], rest[1..];
      }
      found := rest != [];
      if found {
        WithoutMiddle(skipped, n, rest[1..]);
        assert skipped + [n] + rest[1..] == bucket[at];
        bucket := bucket[at := skipped + rest[1..]];
        assert Layout() == old(Layout()).(bucket := bucket);
        list := Without(list, n);
        count := count - 1;
        ShrinkStep();
      }
    }
  }

  lemma {:induction false} WithoutMiddle(a: seq<Node>, n: Node, b: seq<Node>)
    requires n !in a
    ensures Without(a + [n] + b, n) == a + b
  {
    hide Without;
    if a == [] {
      assert a + [n] + b == [n] + b;
      WithoutFirst(n, b);
      assert a + b == b;
    } else {
      WithoutMiddle(a[1..], n, b);
      assert a + [n] + b == [a[0]] + (a[1..] + [n] + b);
      WithoutLater(a[0], a[1..] + [n] + b, n);
      assert a + b == [a[0]] + (a[1..] + b);
    }
  }
}
