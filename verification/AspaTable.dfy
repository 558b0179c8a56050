/** The ASPA store and its two binary searches (rtrlib/aspa/aspa_array/aspa_array.c and
    rtrlib/aspa/aspa_verification.c). ASNs are below 2^32. */
module AspaTable {
  import opened AspaVerification

  /** struct rtr_aspa_record. */
  datatype AspaRecord = AspaRecord(customer: nat, providers: seq<nat>)

  ghost predicate Ascending(s: seq<nat>) {
    forall i, j :: 0 <= i < j < |s| ==> s[i] <= s[j]
  }

  ghost predicate SortedByCustomer(recs: seq<AspaRecord>) {
    forall i, j :: 0 <= i < j < |recs| ==> recs[i].customer <= recs[j].customer
  }

  // ----- aspa_array_search -----

  /** The record that the search between two positions hits, or -1. */
  function Hit(recs: seq<AspaRecord>, customer: nat, left: nat, right: int): (i: int)
    requires right < |recs|
    ensures i == -1 || (left <= i <= right && recs[i].customer == customer)
    decreases right + 1 - left
  {
    if left > right then -1
    else
      var center := (left + right) / 2;
      if recs[center].customer == customer then center
      else if recs[center].customer < customer then Hit(recs, customer, center + 1, right)
      else Hit(recs, customer, left, center - 1)
  }

  lemma {:induction false} HitFinds(recs: seq<AspaRecord>, customer: nat, left: nat, right: int, k: nat)
    requires SortedByCustomer(recs) && right < |recs| && left <= k <= right && recs[k].customer == customer
    ensures Hit(recs, customer, left, right) >= 0
    decreases right + 1 - left
  {
    var center := (left + right) / 2;
    if recs[center].customer < customer {
      HitFinds(recs, customer, center + 1, right, k);
    } else if recs[center].customer > customer {
      HitFinds(recs, customer, left, center - 1, k);
    }
  }

  /** Where a customer has one record, that is the record the search hits. */
  lemma OneRecordIsHit(recs: seq<AspaRecord>, customer: nat, k: nat)
    requires SortedByCustomer(recs) && OnePerCustomer(recs) && k < |recs| && recs[k].customer == customer
    ensures Hit(recs, customer, 0, |recs| - 1) == k
  {
    HitFinds(recs, customer, 0, |recs| - 1, k);
  }

  lemma NoHitNoRecord(recs: seq<AspaRecord>, customer: nat)
    requires SortedByCustomer(recs) && Hit(recs, customer, 0, |recs| - 1) < 0
    ensures forall i :: 0 <= i < |recs| ==> recs[i].customer != customer
  {
    forall k | 0 <= k < |recs| ensures recs[k].customer != customer {
      if recs[k].customer == customer { HitFinds(recs, customer, 0, |recs| - 1, k); }
    }
  }

  /** aspa_array_search: the index of a record of this customer. */
  method ArraySearch(recs: seq<AspaRecord>, customer: nat) returns (found: bool, index: nat)
    requires SortedByCustomer(recs)
    ensures found <==> Hit(recs, customer, 0, |recs| - 1) >= 0
    ensures found ==> index < |recs| && recs[index].customer == customer && index == Hit(recs, customer, 0, |recs| - 1)
    ensures !found ==> forall i :: 0 <= i < |recs| ==> recs[i].customer != customer
  {
    found, index := SearchCustomer(recs, customer);
    if !found { NoHitNoRecord(recs, customer); }
  }

  method SearchCustomer(recs: seq<AspaRecord>, customer: nat) returns (found: bool, index: nat)
    ensures found <==> Hit(recs, customer, 0, |recs| - 1) >= 0
    ensures found ==> index == Hit(recs, customer, 0, |recs| - 1)
  {
    found, index := false, 0;
    if |recs| == 0 { return; }
    var left: nat, right: int := 0, |recs| - 1;
    while left <= right
      invariant right < |recs| && Hit(recs, customer, left, right) == Hit(recs, customer, 0, |recs| - 1)
      decreases right + 1 - left
    {
      var center := (left + right) / 2;
      if recs[center].customer == customer {
        return true, center;
      } else if recs[center].customer < customer {
        left := center + 1;
      } else if center == 0 {
        return;
      } else {
        right := center - 1;
      }
    }
  }

  // ----- binary_search_asns -----

  const TWO31 := 0x8000_0000
  const TWO32 := 0x1_0000_0000

  /** The unsigned difference of two ASNs, stored in a signed 32-bit integer. */
  function SignedDiff(a: nat, b: nat): int {
    var d := (a - b) % TWO32;
    if d >= TWO31 then d - TWO32 else d
  }

  /** The distances for which that integer has the sign of the true difference. */
  predicate InReach(a: nat, b: nat) {
    -TWO31 <= a - b < TWO31
  }

  lemma SignedDiffSign(a: nat, b: nat)
    requires a < TWO32 && b < TWO32
    ensures SignedDiff(a, b) == 0 <==> a == b
    ensures InReach(a, b) ==> SignedDiff(a, b) == a - b
    ensures !InReach(a, b) ==> (SignedDiff(a, b) >= 0 <==> a < b)
  {
    if a - b >= 0 {
      assert (a - b) % TWO32 == a - b;
    } else {
      assert (a - b) % TWO32 == a - b + TWO32;
    }
  }

  /** Whether the search of the code, on `top` elements from `base` on, finds the ASN. */
  function Search(asn: nat, s: seq<nat>, base: nat, top: nat): bool
    requires 1 <= top && base + top <= |s|
    decreases top
  {
    var mid := top / 2;
    var val := SignedDiff(asn, s[base + mid]);
    if val == 0 then true
    else if mid == 0 then false
    else if val >= 0 then Search(asn, s, base + mid, top - mid)
    else Search(asn, s, base, top - mid)
  }

  /** Every element that a search by the true order compares with the ASN, up to the one
      it hits, is within reach of it. */
  predicate ProbesInReach(asn: nat, s: seq<nat>, base: nat, top: nat)
    requires 1 <= top && base + top <= |s|
    decreases top
  {
    var mid := top / 2;
    var p := s[base + mid];
    InReach(asn, p) &&
    (p == asn || mid == 0 ||
     if asn >= p then ProbesInReach(asn, s, base + mid, top - mid) else ProbesInReach(asn, s, base, top - mid))
  }

  /** binary_search_asns. */
  method BinarySearchAsns(asn: nat, s: seq<nat>) returns (found: bool)
    ensures found <==> s != [] && Search(asn, s, 0, |s|)
  {
    var mid: nat, top: nat, base: nat := |s|, |s|, 0;
    while mid != 0
      invariant base + top <= |s| && (mid != 0 ==> top >= 1)
      invariant s != [] && mid != 0 ==> (Search(asn, s, 0, |s|) <==> Search(asn, s, base, top))
      invariant s != [] && mid == 0 ==> !Search(asn, s, 0, |s|)
      decreases mid != 0, top
    {
      mid := top / 2;
      var val := SignedDiff(asn, s[base + mid]);
      if val == 0 { return true; }
      if val >= 0 { base := base + mid; }
      top := top - mid;
    }
    return false;
  }

  ghost predicate Within(asn: nat, s: seq<nat>, base: nat, top: nat) {
    exists k :: base <= k < base + top && k < |s| && s[k] == asn
  }

  lemma {:induction false} SearchIsSound(asn: nat, s: seq<nat>, base: nat, top: nat)
    requires asn < TWO32 && forall i :: 0 <= i < |s| ==> s[i] < TWO32
    requires 1 <= top && base + top <= |s| && Search(asn, s, base, top)
    ensures Within(asn, s, base, top)
    decreases top
  {
    hide SignedDiff;
    var mid := top / 2;
    SignedDiffSign(asn, s[base + mid]);
    var val := SignedDiff(asn, s[base + mid]);
    if val != 0 {
      if val >= 0 {
        SearchIsSound(asn, s, base + mid, top - mid);
      } else {
        SearchIsSound(asn, s, base, top - mid);
      }
    }
  }

  /** On a sorted list that holds the ASN, the search finds it if and only if every probe
      towards it is within reach: one probe out of reach sends the search away from it. */
  lemma {:induction false} SearchFindsIff(asn: nat, s: seq<nat>, base: nat, top: nat)
    requires Ascending(s) && asn < TWO32 && forall i :: 0 <= i < |s| ==> s[i] < TWO32
    requires 1 <= top && base + top <= |s| && Within(asn, s, base, top)
    ensures Search(asn, s, base, top) <==> ProbesInReach(asn, s, base, top)
    decreases top
  {
    hide SignedDiff, Ascending, Within;
    var mid := top / 2;
    var p := s[base + mid];
    SignedDiffSign(asn, p);
    if asn > p {
      KeepUpper(asn, s, base, top, mid);
      if InReach(asn, p) { SearchFindsIff(asn, s, base + mid, top - mid); }
      else { NotBefore(asn, s, base, top - mid, base + mid); }
    } else if asn < p {
      KeepLower(asn, s, base, top, mid);
      if InReach(asn, p) { SearchFindsIff(asn, s, base, top - mid); }
      else { NotAfter(asn, s, base + mid, top - mid); }
    }
  }

  lemma KeepUpper(asn: nat, s: seq<nat>, base: nat, top: nat, mid: nat)
    requires Ascending(s) && base + top <= |s| && mid < top && Within(asn, s, base, top) && s[base + mid] < asn
    ensures Within(asn, s, base + mid, top - mid)
  {
  }

  lemma KeepLower(asn: nat, s: seq<nat>, base: nat, top: nat, mid: nat)
    requires Ascending(s) && base + top <= |s| && mid == top / 2 < top && Within(asn, s, base, top) && asn < s[base + mid]
    ensures mid > 0 && Within(asn, s, base, top - mid)
  {
  }

  /** A search in elements that are all below the ASN, or all above it, fails. */
  lemma NotBefore(asn: nat, s: seq<nat>, base: nat, top: nat, last: nat)
    requires Ascending(s) && asn < TWO32 && forall i :: 0 <= i < |s| ==> s[i] < TWO32
    requires 1 <= top && base + top <= |s| && base + top <= last + 1 && last < |s| && s[last] < asn
    ensures !Search(asn, s, base, top)
  {
    if Search(asn, s, base, top) {
      SearchIsSound(asn, s, base, top);
    }
  }

  lemma NotAfter(asn: nat, s: seq<nat>, base: nat, top: nat)
    requires Ascending(s) && asn < TWO32 && forall i :: 0 <= i < |s| ==> s[i] < TWO32
    requires 1 <= top && base + top <= |s| && asn < s[base]
    ensures !Search(asn, s, base, top)
  {
    if Search(asn, s, base, top) {
      SearchIsSound(asn, s, base, top);
    }
  }

  // ----- aspa_check_hop -----

  /** The store: one sorted array of records per socket. */
  type Store = seq<seq<AspaRecord>>

  ghost predicate GoodArray(recs: seq<AspaRecord>) {
    && SortedByCustomer(recs)
    && forall i :: 0 <= i < |recs| ==>
         Ascending(recs[i].providers) && forall j :: 0 <= j < |recs[i].providers| ==> recs[i].providers[j] < TWO32
  }

  /** Arrays in order of the customer, as every update leaves them; a customer may have
      more than one record. */
  ghost predicate GoodStore(store: Store) {
    forall n :: 0 <= n < |store| ==> GoodArray(store[n])
  }

  ghost predicate OnePerCustomer(recs: seq<AspaRecord>) {
    forall i, j :: 0 <= i < j < |recs| ==> recs[i].customer != recs[j].customer
  }

  predicate Attested(recs: seq<AspaRecord>, customer: nat) {
    exists i :: 0 <= i < |recs| && recs[i].customer == customer
  }

  ghost predicate Lists(recs: seq<AspaRecord>, customer: nat, provider: nat) {
    exists i :: 0 <= i < |recs| && recs[i].customer == customer && provider in recs[i].providers
  }

  /** The record of this customer that the search hits is found to list the provider. */
  predicate ListsInReach(recs: seq<AspaRecord>, customer: nat, provider: nat) {
    var i := Hit(recs, customer, 0, |recs| - 1);
    i >= 0 && provider in recs[i].providers && ProbesInReach(provider, recs[i].providers, 0, |recs[i].providers|)
  }

  /** What a hop is by the union of all sockets' attestations. */
  ghost function HopByUnion(store: Store, customer: nat, provider: nat): Hop {
    if customer == provider || exists n :: 0 <= n < |store| && Lists(store[n], customer, provider) then Provider
    else if exists n :: 0 <= n < |store| && Attested(store[n], customer) then NotProvider
    else NoAttestation
  }

  /** What a hop is to the search: a provider counts if it is in reach of some list hit. */
  function HopBySearch(store: Store, customer: nat, provider: nat): Hop {
    if customer == provider || exists n :: 0 <= n < |store| && ListsInReach(store[n], customer, provider) then Provider
    else if exists n :: 0 <= n < |store| && Attested(store[n], customer) then NotProvider
    else NoAttestation
  }

  /** Looking up one socket's array. */
  method LookUp(recs: seq<AspaRecord>, customer: nat, provider: nat) returns (attested: bool, listed: bool)
    requires GoodArray(recs) && provider < TWO32
    ensures attested <==> Attested(recs, customer)
    ensures listed <==> ListsInReach(recs, customer, provider)
    ensures listed ==> attested && Lists(recs, customer, provider)
  {
    var found, i := ArraySearch(recs, customer);
    attested, listed := found, false;
    if found {
      var providers := recs[i].providers;
      listed := BinarySearchAsns(provider, providers);
      SearchListed(provider, providers);
    } else {
      assert Hit(recs, customer, 0, |recs| - 1) == -1;
    }
  }

  lemma SearchListed(asn: nat, s: seq<nat>)
    requires Ascending(s) && asn < TWO32 && forall i :: 0 <= i < |s| ==> s[i] < TWO32
    ensures s != [] && Search(asn, s, 0, |s|) <==> asn in s && ProbesInReach(asn, s, 0, |s|)
  {
    if s != [] {
      if Search(asn, s, 0, |s|) { SearchIsSound(asn, s, 0, |s|); }
      if asn in s {
        assert Within(asn, s, 0, |s|);
        SearchFindsIff(asn, s, 0, |s|);
      }
    }
  }

  /** aspa_check_hop. It answers by the union of all attestations if and only if a listed
      provider is in reach in one of the lists that the searches hit. */
  method CheckHop(store: Store, customer: nat, provider: nat) returns (h: Hop)
    requires GoodStore(store) && provider < TWO32
    ensures h == HopBySearch(store, customer, provider)
    ensures h == HopByUnion(store, customer, provider) <==>
              (customer != provider && (exists n :: 0 <= n < |store| && Lists(store[n], customer, provider))
               ==> exists n :: 0 <= n < |store| && ListsInReach(store[n], customer, provider))
  {
    if customer == provider { return Provider; }
    var customerFound := false;
    for n := 0 to |store|
      invariant customerFound <==> exists m :: 0 <= m < n && Attested(store[m], customer)
      invariant forall m :: 0 <= m < n ==> !ListsInReach(store[m], customer, provider)
    {
      var attested, listed := LookUp(store[n], customer, provider);
      if listed { return Provider; }
      customerFound := customerFound || attested;
    }
    h := if customerFound then NotProvider else NoAttestation;
  }

  /** Verification over a store gives the verdict of the path with repeated ASNs merged. */
  lemma StoreIgnoresRepetition(store: Store, path: seq<nat>)
    ensures var hop := (c: nat, p: nat) => HopBySearch(store, c, p);
            Upstream(hop, Compress(path)) == Upstream(hop, path) && Downstream(hop, Compress(path)) == Downstream(hop, path)
  {
    CompressKeepsVerdict((c: nat, p: nat) => HopBySearch(store, c, p), path);
  }

  /** Providers closer than 2^31 to the one asked for are always found. */
  lemma {:induction false} CloseProvidersInReach(asn: nat, s: seq<nat>, base: nat, top: nat)
    requires 1 <= top && base + top <= |s|
    requires forall i :: 0 <= i < |s| ==> InReach(asn, s[i])
    ensures ProbesInReach(asn, s, base, top)
    decreases top
  {
    var mid := top / 2;
    if mid > 0 && s[base + mid] != asn {
      CloseProvidersInReach(asn, s, if asn >= s[base + mid] then base + mid else base, top - mid);
    }
  }

  /** A list in which the signed difference misleads the search: 3000000000 is listed and
      not found. */
  lemma FarProviderMissed()
    ensures var s := [0, 1, 3_000_000_000];
            Ascending(s) && 3_000_000_000 in s && !Search(3_000_000_000, s, 0, 3)
  {
    var s := [0, 1, 3_000_000_000];
    assert s[2] == 3_000_000_000;
    assert SignedDiff(3_000_000_000, 1) < 0 && SignedDiff(3_000_000_000, 0) < 0;
    assert !Search(3_000_000_000, s, 0, 1);
    assert !Search(3_000_000_000, s, 0, 2);
  }
}
