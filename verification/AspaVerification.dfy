/** AS_PATH verification of rtrlib/aspa/aspa_verification.c: the optimised verifiers
    against the ramp definition in section 6 of draft-ietf-sidrops-aspa-verification-16. */
module AspaVerification {

  /** enum aspa_hop_result. */
  datatype Hop = NoAttestation | NotProvider | Provider

  /** enum rtr_aspa_verification_result. */
  datatype Verdict = Valid | Unknown | Invalid

  /** The answer for a (customer, provider) pair of ASNs. */
  type Oracle = (nat, nat) -> Hop

  // ----- The draft -----

  /** A(i), counted from the origin, which is the last element of the path. */
  function A(path: seq<nat>, i: nat): nat
    requires 1 <= i <= |path|
  {
    path[|path| - i]
  }

  /** What ends a ramp: a proven non-provider ends the maximal one, anything but a proven
      provider ends the minimal one. */
  predicate Ends(h: Hop, minimal: bool) {
    h == NotProvider || (minimal && h == NoAttestation)
  }

  /** The up-ramp length: the least I from `i` on at which A(I) to A(I+1) ends it, or N. */
  function UpRamp(hop: Oracle, path: seq<nat>, minimal: bool, i: nat): nat
    requires 1 <= i
    decreases |path| - i
  {
    if i >= |path| then |path|
    else if Ends(hop(A(path, i), A(path, i + 1)), minimal) then i
    else UpRamp(hop, path, minimal, i + 1)
  }

  /** The down-ramp length: N - J + 1 for the greatest J up to `j` at which A(J) to A(J-1)
      ends it, or N. */
  function DownRamp(hop: Oracle, path: seq<nat>, minimal: bool, j: nat): nat
    requires j <= |path|
  {
    if j <= 1 then |path|
    else if Ends(hop(A(path, j), A(path, j - 1)), minimal) then |path| - j + 1
    else DownRamp(hop, path, minimal, j - 1)
  }

  function Upstream(hop: Oracle, path: seq<nat>): Verdict {
    if UpRamp(hop, path, false, 1) < |path| then Invalid
    else if UpRamp(hop, path, true, 1) < |path| then Unknown
    else Valid
  }

  function Downstream(hop: Oracle, path: seq<nat>): Verdict {
    if UpRamp(hop, path, false, 1) + DownRamp(hop, path, false, |path|) < |path| then Invalid
    else if UpRamp(hop, path, true, 1) + DownRamp(hop, path, true, |path|) < |path| then Unknown
    else Valid
  }

  // ----- The same by single hops -----

  /** The hop from index k towards the latest AS, at index 0, ends the up-ramp. */
  predicate UpEnd(hop: Oracle, path: seq<nat>, minimal: bool, k: nat) {
    1 <= k < |path| && Ends(hop(path[k], path[k - 1]), minimal)
  }

  /** The hop from index k towards the origin ends the down-ramp. */
  predicate DownEnd(hop: Oracle, path: seq<nat>, minimal: bool, k: nat) {
    k + 1 < |path| && Ends(hop(path[k], path[k + 1]), minimal)
  }

  ghost predicate SomeUpEnd(hop: Oracle, path: seq<nat>, minimal: bool) {
    exists k: nat :: UpEnd(hop, path, minimal, k)
  }

  ghost predicate OpposedAt(hop: Oracle, path: seq<nat>, minimal: bool, l: nat, r: nat) {
    l + 1 < r && DownEnd(hop, path, minimal, l) && UpEnd(hop, path, minimal, r)
  }

  /** Two ends that face each other with at least one AS between them. */
  ghost predicate Opposed(hop: Oracle, path: seq<nat>, minimal: bool) {
    exists l: nat, r: nat :: OpposedAt(hop, path, minimal, l, r)
  }

  lemma {:induction false} UpRampMeaning(hop: Oracle, path: seq<nat>, minimal: bool, i: nat)
    requires 1 <= i <= |path|
    ensures var n := UpRamp(hop, path, minimal, i);
            && i <= n <= |path|
            && (n < |path| ==> UpEnd(hop, path, minimal, |path| - n))
            && forall k: nat :: |path| - n < k <= |path| - i ==> !UpEnd(hop, path, minimal, k)
    decreases |path| - i
  {
    if i < |path| && !Ends(hop(A(path, i), A(path, i + 1)), minimal) {
      UpRampMeaning(hop, path, minimal, i + 1);
    }
  }

  lemma {:induction false} DownRampMeaning(hop: Oracle, path: seq<nat>, minimal: bool, j: nat)
    requires 1 <= j <= |path|
    ensures var n := DownRamp(hop, path, minimal, j);
            && |path| - j < n <= |path|
            && (n < |path| ==> DownEnd(hop, path, minimal, n - 1))
            && forall k: nat :: |path| - j <= k < n - 1 ==> !DownEnd(hop, path, minimal, k)
  {
    if j > 1 && !Ends(hop(A(path, j), A(path, j - 1)), minimal) {
      DownRampMeaning(hop, path, minimal, j - 1);
    }
  }

  /** The ramps leave a gap if and only if two ends oppose each other. */
  lemma RampsGap(hop: Oracle, path: seq<nat>, minimal: bool)
    ensures UpRamp(hop, path, minimal, 1) + DownRamp(hop, path, minimal, |path|) < |path|
            <==> Opposed(hop, path, minimal)
    ensures UpRamp(hop, path, minimal, 1) < |path| <==> SomeUpEnd(hop, path, minimal)
  {
    if path != [] {
      var up, down := UpRamp(hop, path, minimal, 1), DownRamp(hop, path, minimal, |path|);
      UpRampMeaning(hop, path, minimal, 1);
      DownRampMeaning(hop, path, minimal, |path|);
      if up + down < |path| {
        assert OpposedAt(hop, path, minimal, down - 1, |path| - up);
      }
      forall l: nat, r: nat | OpposedAt(hop, path, minimal, l, r) ensures up + down < |path| {
        assert !(|path| - up < r <= |path| - 1);
        assert !(0 <= l < down - 1);
      }
    }
  }

  /** The upstream verdict: valid if every hop is to a provider, invalid if some hop is
      to a non-provider, and unknown otherwise. */
  lemma UpstreamByHops(hop: Oracle, path: seq<nat>)
    ensures Upstream(hop, path) == Invalid <==> exists k :: 1 <= k < |path| && hop(path[k], path[k - 1]) == NotProvider
    ensures Upstream(hop, path) == Valid <==> forall k :: 1 <= k < |path| ==> hop(path[k], path[k - 1]) == Provider
  {
    RampsGap(hop, path, false);
    RampsGap(hop, path, true);
    if SomeUpEnd(hop, path, false) {
      var k: nat :| UpEnd(hop, path, false, k);
      assert UpEnd(hop, path, true, k) && hop(path[k], path[k - 1]) == NotProvider;
    }
    forall k: nat | 1 <= k < |path| && hop(path[k], path[k - 1]) == NotProvider ensures SomeUpEnd(hop, path, false) {
      assert UpEnd(hop, path, false, k);
    }
    forall k: nat | 1 <= k < |path| && hop(path[k], path[k - 1]) != Provider ensures SomeUpEnd(hop, path, true) {
      assert UpEnd(hop, path, true, k);
    }
    if SomeUpEnd(hop, path, true) {
      var k: nat :| UpEnd(hop, path, true, k);
      assert hop(path[k], path[k - 1]) != Provider;
    }
  }

  // ----- The optimised verifiers -----

  /** A question to the oracle: the hop from index k towards the latest AS, or towards the
      origin. */
  datatype Ask = UpHop(k: nat) | DownHop(k: nat)

  /** Every hop of one range of indices was asked for once, and no other. */
  ghost predicate AskedUp(asked: multiset<Ask>, from: nat, to: nat) {
    forall k: nat :: asked[UpHop(k)] == (if from <= k < to then 1 else 0) && asked[DownHop(k)] == 0
  }

  ghost predicate AskedDown(asked: multiset<Ask>, from: nat, to: nat) {
    forall k: nat :: asked[DownHop(k)] == (if from <= k < to then 1 else 0) && asked[UpHop(k)] == 0
  }

  /** Walking down from the latest AS: the first index whose hop is not to a provider. */
  method FindDownRampEnd(hop: Oracle, path: seq<nat>, r: nat) returns (l: nat, last: Hop, ghost asked: multiset<Ask>)
    requires r < |path|
    ensures l <= r && forall k: nat :: k < l ==> !DownEnd(hop, path, true, k)
    ensures l < r ==> last == hop(path[l], path[l + 1]) && DownEnd(hop, path, true, l)
    ensures AskedDown(asked, 0, if l < r then l + 1 else l) && |asked| <= l + 1
  {
    l, last, asked := 0, NoAttestation, multiset{};
    while l < r
      invariant l <= r
      invariant forall k: nat :: k < l ==> !DownEnd(hop, path, true, k)
      invariant AskedDown(asked, 0, l) && |asked| == l
    {
      last := hop(path[l], path[l + 1]);
      asked := asked + multiset{DownHop(l)};
      if last != Provider { break; }
      l := l + 1;
    }
  }

  /** Climbing from the origin: the last index whose hop is not to a provider, or 0. */
  method FindUpRampApex(hop: Oracle, path: seq<nat>) returns (r: nat, last: Hop, ghost asked: multiset<Ask>)
    requires path != []
    ensures r < |path| && forall k: nat :: r < k ==> !UpEnd(hop, path, true, k)
    ensures r > 0 ==> last == hop(path[r], path[r - 1]) && UpEnd(hop, path, true, r)
    ensures AskedUp(asked, if r > 0 then r else 1, |path|) && |asked| <= |path| - r
  {
    r, last, asked := |path| - 1, NoAttestation, multiset{};
    while r > 0
      invariant r < |path|
      invariant forall k: nat :: r < k ==> !UpEnd(hop, path, true, k)
      invariant AskedUp(asked, r + 1, |path|) && |asked| == |path| - 1 - r
    {
      last := hop(path[r], path[r - 1]);
      asked := asked + multiset{UpHop(r)};
      if last != Provider { break; }
      r := r - 1;
    }
  }

  /** The hop that ends the minimal up-ramp has no attestation. */
  predicate RampEndsUnattested(hop: Oracle, path: seq<nat>) {
    var n := UpRamp(hop, path, true, 1);
    1 <= n < |path| && hop(A(path, n), A(path, n + 1)) == NoAttestation
  }

  lemma ApexIsRampEnd(hop: Oracle, path: seq<nat>, r: nat)
    requires r < |path| && (r > 0 ==> UpEnd(hop, path, true, r)) && forall k: nat :: r < k ==> !UpEnd(hop, path, true, k)
    ensures UpRamp(hop, path, true, 1) == |path| - r
  {
    UpRampMeaning(hop, path, true, 1);
  }

  /** Without any attestation the hop next to the origin is checked twice. */
  lemma CheckedTwice()
    ensures RampEndsUnattested((customer: nat, provider: nat) => NoAttestation, [64500, 64501])
  {
  }

  /** aspa_verify_as_path_upstream. No hop is checked twice, except the hop that ends the
      minimal up-ramp if it has no attestation. */
  method VerifyUpstream(hop: Oracle, path: seq<nat>) returns (v: Verdict, ghost asked: multiset<Ask>)
    ensures v == Upstream(hop, path)
    ensures |asked| <= |path|
    ensures forall a :: asked[a] <= 2
    ensures (exists a :: asked[a] == 2) <==> RampEndsUnattested(hop, path)
  {
    RampsGap(hop, path, false);
    RampsGap(hop, path, true);
    asked := multiset{};
    if |path| <= 1 {
      assert !SomeUpEnd(hop, path, true) && !SomeUpEnd(hop, path, false);
      return Valid, asked;
    }
    var r, lastHopRight;
    r, lastHopRight, asked := FindUpRampApex(hop, path);
    ApexIsRampEnd(hop, path, r);
    if r == 0 {
      assert forall k: nat :: UpEnd(hop, path, false, k) ==> UpEnd(hop, path, true, k);
      AskedOnce(asked, multiset{}, 1, |path|, 0);
      assert asked + multiset{} == asked;
      return Valid, asked;
    }
    var found, rr, more := FindNotProviderFrom(hop, path, r, lastHopRight);
    assert forall k: nat :: UpEnd(hop, path, false, k) ==> UpEnd(hop, path, true, k);
    AskedTwice(asked, more, r, |path|, rr, lastHopRight != NotProvider);
    asked := asked + more;
    return if found then Invalid else Unknown, asked;
  }

  /** The loop over the rest of the path. */
  method FindNotProviderFrom(hop: Oracle, path: seq<nat>, r: nat, last: Hop) returns (found: bool, rr: nat, ghost asked: multiset<Ask>)
    requires 0 < r < |path| && last == hop(path[r], path[r - 1])
    ensures found <==> exists k: nat :: k <= r && UpEnd(hop, path, false, k)
    ensures if last == NotProvider then asked == multiset{} else rr < r && AskedUp(asked, rr + 1, r + 1) && |asked| == r - rr
  {
    found, rr, asked := false, r, multiset{};
    if last == NotProvider {
      assert UpEnd(hop, path, false, r);
      return true, rr, asked;
    }
    while rr > 0
      invariant rr <= r && (rr == r || !found) && AskedUp(asked, rr + 1, r + 1) && |asked| == r - rr
      invariant forall k: nat :: rr < k <= r ==> !UpEnd(hop, path, false, k)
      invariant !found
    {
      var c := rr;
      rr := rr - 1;
      asked := asked + multiset{UpHop(c)};
      if hop(path[c], path[rr]) == NotProvider {
        assert UpEnd(hop, path, false, c);
        return true, rr, asked;
      }
    }
  }

  /** Only the hop at which the second search starts is asked for again. */
  lemma AskedTwice(asked: multiset<Ask>, more: multiset<Ask>, r: nat, n: nat, rr: nat, again: bool)
    requires AskedUp(asked, r, n) && r < n
    requires if again then rr < r && AskedUp(more, rr + 1, r + 1) else more == multiset{}
    ensures forall a :: (asked + more)[a] <= 2
    ensures (exists a :: (asked + more)[a] == 2) <==> again
  {
    forall a ensures (asked + more)[a] == (if again && a == UpHop(r) then 2 else (asked + more)[a]) <= 2
                     && ((asked + more)[a] == 2 ==> again)
    {
      match a
      case UpHop(k) => assert (asked + more)[UpHop(k)] == asked[UpHop(k)] + more[UpHop(k)];
      case DownHop(k) => assert (asked + more)[DownHop(k)] == asked[DownHop(k)] + more[DownHop(k)];
    }
    if again { assert (asked + more)[UpHop(r)] == 2; }
  }

  /** The gap between the ramps settles whether the path is valid. */
  lemma GapDecides(hop: Oracle, path: seq<nat>, l: nat, r: nat)
    requires l <= r < |path|
    requires forall k: nat :: r < k ==> !UpEnd(hop, path, true, k)
    requires forall k: nat :: k < l ==> !DownEnd(hop, path, true, k)
    requires l < r ==> DownEnd(hop, path, true, l) && UpEnd(hop, path, true, r)
    ensures Opposed(hop, path, true) <==> l + 1 < r
  {
    if l + 1 < r { assert OpposedAt(hop, path, true, l, r); }
    forall x: nat, y: nat | OpposedAt(hop, path, true, x, y) ensures l + 1 < r {
      assert l <= x && y <= r;
    }
  }

  /** aspa_verify_as_path_downstream. No hop is checked twice in one direction, except the
      hop that ends the minimal up-ramp if it has no attestation and the path is not valid. */
  method VerifyDownstream(hop: Oracle, path: seq<nat>) returns (v: Verdict, ghost asked: multiset<Ask>)
    ensures v == Downstream(hop, path)
    ensures |asked| <= 2 * |path|
    ensures forall a :: asked[a] <= 2
    ensures (exists a :: asked[a] == 2) <==> v != Valid && RampEndsUnattested(hop, path)
  {
    RampsGap(hop, path, false);
    RampsGap(hop, path, true);
    asked := multiset{};
    if |path| <= 2 {
      assert !Opposed(hop, path, true) && !Opposed(hop, path, false);
      return Valid, asked;
    }
    var r, lastHopRight, up := FindUpRampApex(hop, path);
    var l, lastHopLeft, down := FindDownRampEnd(hop, path, r);
    ApexIsRampEnd(hop, path, r);
    GapDecides(hop, path, l, r);
    OpposedWeakens(hop, path);
    if r - l <= 1 {
      AskedOnce(up, down, if r > 0 then r else 1, |path|, if l < r then l + 1 else l);
      return Valid, up + down;
    }
    var fromRight, rr, up' := FindNotProviderFromRight(hop, path, l, r, lastHopRight);
    var fromLeft := false;
    ghost var down' := multiset{};
    if fromRight {
      fromLeft, down' := FindNotProviderFromLeft(hop, path, l, rr, lastHopLeft);
    }
    NotProvidersDecide(hop, path, l, r, rr, fromRight, fromLeft);
    AskedTwice(up, up', r, |path|, if fromRight then rr - 1 else rr, lastHopRight != NotProvider);
    AskedBothWays(up + up', down + down');
    return if fromRight && fromLeft then Invalid else Unknown, up + up' + (down + down');
  }

  lemma AskedOnce(up: multiset<Ask>, down: multiset<Ask>, from: nat, n: nat, to: nat)
    requires AskedUp(up, from, n) && AskedDown(down, 0, to)
    ensures forall a :: (up + down)[a] <= 1
  {
    forall a ensures (up + down)[a] <= 1 {
      match a
      case UpHop(k) => assert (up + down)[UpHop(k)] == up[UpHop(k)] + down[UpHop(k)];
      case DownHop(k) => assert (up + down)[DownHop(k)] == up[DownHop(k)] + down[DownHop(k)];
    }
  }

  /** Questions towards the origin, each asked once, beside questions the other way. */
  lemma AskedBothWays(up: multiset<Ask>, down: multiset<Ask>)
    requires (forall a :: up[a] <= 2) && (forall k: nat :: up[DownHop(k)] == 0)
    requires forall k: nat :: down[DownHop(k)] <= 1 && down[UpHop(k)] == 0
    ensures forall a :: (up + down)[a] <= 2
    ensures (exists a :: (up + down)[a] == 2) <==> exists a :: up[a] == 2
  {
    forall a ensures (up + down)[a] <= 2 && ((up + down)[a] == 2 <==> up[a] == 2) {
      match a
      case UpHop(k) => assert (up + down)[UpHop(k)] == up[UpHop(k)] + down[UpHop(k)];
      case DownHop(k) => assert (up + down)[DownHop(k)] == up[DownHop(k)] + down[DownHop(k)];
    }
    if a :| up[a] == 2 { assert (up + down)[a] == 2; }
  }

  lemma OpposedWeakens(hop: Oracle, path: seq<nat>)
    ensures Opposed(hop, path, false) ==> Opposed(hop, path, true)
  {
    if Opposed(hop, path, false) {
      var l: nat, r: nat :| OpposedAt(hop, path, false, l, r);
      assert OpposedAt(hop, path, true, l, r);
    }
  }

  /** Part I: the rightmost non-provider hop of the gap, leaving one hop of space. */
  method FindNotProviderFromRight(hop: Oracle, path: seq<nat>, l: nat, r: nat, last: Hop)
    returns (found: bool, rr: nat, ghost asked: multiset<Ask>)
    requires l + 1 < r < |path| && last == hop(path[r], path[r - 1])
    ensures l + 1 <= rr <= r && forall k: nat :: rr < k <= r ==> !UpEnd(hop, path, false, k)
    ensures found ==> l + 1 < rr && UpEnd(hop, path, false, rr)
    ensures !found ==> rr == l + 1
    ensures if last == NotProvider then found && rr == r && asked == multiset{}
            else AskedUp(asked, if found then rr else rr + 1, r + 1) && |asked| <= r - l - 1
  {
    found, rr, asked := false, r, multiset{};
    if last == NotProvider {
      found := true;
    } else {
      while rr > l + 1
        invariant l + 1 <= rr <= r && AskedUp(asked, rr + 1, r + 1) && |asked| == r - rr
        invariant forall k: nat :: rr < k <= r ==> !UpEnd(hop, path, false, k)
        invariant !found
      {
        asked := asked + multiset{UpHop(rr)};
        if hop(path[rr], path[rr - 1]) == NotProvider {
          found := true;
          break;
        }
        rr := rr - 1;
      }
    }
  }

  /** Part II: a non-provider hop from the left that ends before the one from the right. */
  method FindNotProviderFromLeft(hop: Oracle, path: seq<nat>, l: nat, rr: nat, last: Hop)
    returns (found: bool, ghost asked: multiset<Ask>)
    requires l + 1 < rr < |path| && last == hop(path[l], path[l + 1])
    ensures found <==> exists k: nat :: l <= k && k + 1 < rr && DownEnd(hop, path, false, k)
    ensures (forall k: nat :: asked[DownHop(k)] <= (if l < k then 1 else 0) && asked[UpHop(k)] == 0) && |asked| < rr - l
  {
    found, asked := false, multiset{};
    if last == NotProvider {
      assert DownEnd(hop, path, false, l);
      return true, asked;
    }
    var ll := l + 1;
    while ll + 1 < rr
      invariant l < ll < rr
      invariant forall k: nat :: l <= k < ll ==> !DownEnd(hop, path, false, k)
      invariant AskedDown(asked, l + 1, ll) && |asked| == ll - l - 1
    {
      asked := asked + multiset{DownHop(ll)};
      if hop(path[ll], path[ll + 1]) == NotProvider {
        assert DownEnd(hop, path, false, ll);
        return true, asked;
      }
      ll := ll + 1;
    }
  }

  lemma NotProvidersDecide(hop: Oracle, path: seq<nat>, l: nat, r: nat, rr: nat, fromRight: bool, fromLeft: bool)
    requires l + 1 <= rr <= r < |path|
    requires forall k: nat :: r < k ==> !UpEnd(hop, path, true, k)
    requires forall k: nat :: k < l ==> !DownEnd(hop, path, true, k)
    requires forall k: nat :: rr < k <= r ==> !UpEnd(hop, path, false, k)
    requires fromRight ==> l + 1 < rr && UpEnd(hop, path, false, rr)
    requires !fromRight ==> rr == l + 1
    requires fromRight ==> (fromLeft <==> exists k: nat :: l <= k && k + 1 < rr && DownEnd(hop, path, false, k))
    ensures Opposed(hop, path, false) <==> fromRight && fromLeft
  {
    if fromRight && fromLeft {
      var k: nat :| l <= k && k + 1 < rr && DownEnd(hop, path, false, k);
      assert OpposedAt(hop, path, false, k, rr);
    }
    forall x: nat, y: nat | OpposedAt(hop, path, false, x, y) ensures fromRight && fromLeft {
      assert DownEnd(hop, path, true, x) && UpEnd(hop, path, true, y);
    }
  }

  /** rtr_aspa_verify_as_path. */
  datatype Direction = UpstreamPath | DownstreamPath

  method VerifyAsPath(hop: Oracle, path: seq<nat>, direction: Direction) returns (v: Verdict)
    ensures v == if direction.UpstreamPath? then Upstream(hop, path) else Downstream(hop, path)
  {
    match direction
    case UpstreamPath =>
      ghost var asked;
      v, asked := VerifyUpstream(hop, path);
    case DownstreamPath =>
      ghost var asked;
      v, asked := VerifyDownstream(hop, path);
  }

  // ----- Repeated ASNs -----

  /** The path with consecutive repetitions of an ASN merged into one. */
  function Compress(path: seq<nat>): (r: seq<nat>)
    ensures path != [] ==> r != [] && r[0] == path[0]
    ensures path == [] ==> r == []
  {
    if |path| <= 1 then path
    else if path[0] == path[1] then Compress(path[1..])
    else [path[0]] + Compress(path[1..])
  }

  ghost predicate SelfIsProvider(hop: Oracle) {
    forall a :: hop(a, a) == Provider
  }

  lemma UpEndShift(hop: Oracle, a: nat, path: seq<nat>, minimal: bool)
    requires path != []
    ensures SomeUpEnd(hop, [a] + path, minimal) <==> Ends(hop(path[0], a), minimal) || SomeUpEnd(hop, path, minimal)
  {
    var long := [a] + path;
    if SomeUpEnd(hop, long, minimal) {
      var k: nat :| UpEnd(hop, long, minimal, k);
      if k > 1 { assert UpEnd(hop, path, minimal, k - 1); }
    }
    if Ends(hop(path[0], a), minimal) { assert UpEnd(hop, long, minimal, 1); }
    if SomeUpEnd(hop, path, minimal) {
      var k: nat :| UpEnd(hop, path, minimal, k);
      assert UpEnd(hop, long, minimal, k + 1);
    }
  }

  lemma OpposedShift(hop: Oracle, a: nat, path: seq<nat>, minimal: bool)
    requires path != []
    ensures Opposed(hop, [a] + path, minimal)
            <==> (Ends(hop(a, path[0]), minimal) && SomeUpEnd(hop, path, minimal)) || Opposed(hop, path, minimal)
  {
    var long := [a] + path;
    if Opposed(hop, long, minimal) {
      var l: nat, r: nat :| OpposedAt(hop, long, minimal, l, r);
      assert UpEnd(hop, path, minimal, r - 1);
      if l > 0 { assert OpposedAt(hop, path, minimal, l - 1, r - 1); }
    }
    if Ends(hop(a, path[0]), minimal) && SomeUpEnd(hop, path, minimal) {
      var k: nat :| UpEnd(hop, path, minimal, k);
      assert OpposedAt(hop, long, minimal, 0, k + 1);
    }
    if Opposed(hop, path, minimal) {
      var l: nat, r: nat :| OpposedAt(hop, path, minimal, l, r);
      assert OpposedAt(hop, long, minimal, l + 1, r + 1);
    }
  }

  lemma {:induction false} CompressKeepsEnds(hop: Oracle, path: seq<nat>, minimal: bool)
    requires SelfIsProvider(hop)
    ensures SomeUpEnd(hop, Compress(path), minimal) <==> SomeUpEnd(hop, path, minimal)
    ensures Opposed(hop, Compress(path), minimal) <==> Opposed(hop, path, minimal)
  {
    if |path| > 1 {
      CompressKeepsEnds(hop, path[1..], minimal);
      assert path == [path[0]] + path[1..];
      UpEndShift(hop, path[0], path[1..], minimal);
      OpposedShift(hop, path[0], path[1..], minimal);
      if path[0] != path[1] {
        UpEndShift(hop, path[0], Compress(path[1..]), minimal);
        OpposedShift(hop, path[0], Compress(path[1..]), minimal);
      }
    }
  }

  /** An oracle that calls every AS its own provider gives the verdict of the compressed
      path, in both directions. */
  lemma CompressKeepsVerdict(hop: Oracle, path: seq<nat>)
    requires SelfIsProvider(hop)
    ensures Upstream(hop, Compress(path)) == Upstream(hop, path)
    ensures Downstream(hop, Compress(path)) == Downstream(hop, path)
  {
    CompressKeepsEnds(hop, path, false);
    CompressKeepsEnds(hop, path, true);
    RampsGap(hop, path, false);
    RampsGap(hop, path, true);
    RampsGap(hop, Compress(path), false);
    RampsGap(hop, Compress(path), true);
  }
}
