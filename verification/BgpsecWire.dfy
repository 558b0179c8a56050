/** What the bytes that are signed and hashed say, read at the offsets of sections 3 and 4.2
    of RFC 8205 with the most significant octet first, and that no two announcements have the
    same bytes. */
module BgpsecWire {
  import opened BgpsecBytes
  import opened LinearHashing
  import opened Bgpsec

  function Read2(b: seq<nat>, at: nat): nat
    requires at + 2 <= |b|
  {
    b[at] * 256 + b[at + 1]
  }

  function Read4(b: seq<nat>, at: nat): nat
    requires at + 4 <= |b|
  {
    b[at] * 0x100_0000 + b[at + 1] * 0x1_0000 + b[at + 2] * 0x100 + b[at + 3]
  }

  // ----- The layout -----

  /** The fields have the ranges of the C types. */
  ghost predicate PathRanges(path: seq<PathSeg>) {
    forall i :: 0 <= i < |path| ==> path[i].pcount < 256 && path[i].flags < 256 && path[i].asn < 0x1_0000_0000
  }

  ghost predicate SigRanges(sigs: seq<SigSeg>) {
    forall i :: 0 <= i < |sigs| ==> |sigs[i].ski| == 20 && |sigs[i].signature| < 65536
  }

  ghost predicate Ranges(u: Update) {
    && u.alg < 256 && u.safi < 256 && u.afi < 65536 && u.targetAs < 0x1_0000_0000 && u.nlriLen < 256
    && |u.nlri| == (u.nlriLen + 7) / 8 && PathRanges(u.path) && SigRanges(u.sigs)
  }

  /** A Secure_Path segment: pCount, flags and a 32-bit AS number. */
  ghost predicate PathAt(b: seq<nat>, at: nat, p: PathSeg) {
    at + 6 <= |b| && b[at] == p.pcount && b[at + 1] == p.flags && Read4(b, at + 2) == p.asn
  }

  /** A Signature segment: 20 octets of identifier, a 16-bit length, the signature. */
  ghost predicate SigAt(b: seq<nat>, at: nat, s: SigSeg) {
    && at + 22 + |s.signature| <= |b| && b[at..at + 20] == s.ski && Read2(b, at + 20) == |s.signature|
    && b[at + 22..at + 22 + |s.signature|] == s.signature
  }

  /** The segments from an offset on: a signature before each path segment while there are
      signatures. */
  ghost predicate SegmentsAt(b: seq<nat>, at: nat, path: seq<PathSeg>, sigs: seq<SigSeg>)
    decreases path
  {
    path == [] ||
    if sigs == [] then PathAt(b, at, path[0]) && SegmentsAt(b, at + 6, path[1..], [])
    else
      && SigAt(b, at, sigs[0]) && PathAt(b, at + 22 + |sigs[0].signature|, path[0])
      && SegmentsAt(b, at + 28 + |sigs[0].signature|, path[1..], sigs[1..])
  }

  /** Where they end. */
  function EndOf(at: nat, path: seq<PathSeg>, sigs: seq<SigSeg>): nat
    decreases path
  {
    if path == [] then at
    else if sigs == [] then EndOf(at + 6, path[1..], [])
    else EndOf(at + 28 + |sigs[0].signature|, path[1..], sigs[1..])
  }

  /** The whole sequence: the target AS, the segments, the algorithm suite, the AFI and SAFI,
      the length of the prefix and the prefix. */
  ghost predicate Says(b: seq<nat>, u: Update, target: nat, path: seq<PathSeg>, sigs: seq<SigSeg>) {
    && |b| >= 4 && Read4(b, 0) == target && SegmentsAt(b, 4, path, sigs)
    && var t := EndOf(4, path, sigs);
    && |b| == t + 5 + |u.nlri| && b[t] == u.alg && Read2(b, t + 1) == u.afi && b[t + 3] == u.safi
    && b[t + 4] == u.nlriLen && b[t + 5..] == u.nlri
  }

  // ----- The sequence has that layout -----

  lemma Read2Of(x: nat, before: seq<nat>, after: seq<nat>)
    requires x < 65536
    ensures Read2(before + U16(x) + after, |before|) == x
  {
  }

  lemma Read4Of(x: nat, before: seq<nat>, after: seq<nat>)
    requires x < 0x1_0000_0000
    ensures Read4(before + U32(x) + after, |before|) == x
  {
    var b, bytes := before + U32(x) + after, U32(x);
    assert b[|before|] == bytes[0] && b[|before| + 1] == bytes[1] && b[|before| + 2] == bytes[2] && b[|before| + 3] == bytes[3];
    assert bytes[0] == x / 0x100_0000 && bytes[1] == x / 65536 % 256 && bytes[2] == x / 256 % 256 && bytes[3] == x % 256;
    FourDigits(x);
  }

  lemma FourDigits(x: nat)
    requires x < 0x1_0000_0000
    ensures x == x / 0x100_0000 * 0x100_0000 + x / 65536 % 256 * 65536 + x / 256 % 256 * 256 + x % 256
  {
    assert x / 256 / 256 == x / 65536 && x / 65536 / 256 == x / 0x100_0000;
  }

  lemma PathReads(p: PathSeg, before: seq<nat>, after: seq<nat>)
    requires p.pcount < 256 && p.flags < 256 && p.asn < 0x1_0000_0000
    ensures PathAt(before + PathBytes(p) + after, |before|, p)
  {
    var b := before + PathBytes(p) + after;
    hide U32, Read4;
    Read4Of(p.asn, before + [p.pcount, p.flags], after);
    assert b == (before + [p.pcount, p.flags]) + U32(p.asn) + after;
  }

  lemma SigReads(s: SigSeg, before: seq<nat>, after: seq<nat>)
    requires |s.ski| == 20 && |s.signature| < 65536
    ensures SigAt(before + SigBytes(s) + after, |before|, s)
  {
    var b, n := before + SigBytes(s) + after, |before|;
    hide U16, Read2;
    Read2Of(|s.signature|, before + s.ski, s.signature + after);
    assert b == (before + s.ski) + U16(|s.signature|) + (s.signature + after);
    assert b[n..n + 20] == s.ski;
    assert b[n + 22..n + 22 + |s.signature|] == s.signature;
  }

  lemma {:induction false} SegmentsRead(path: seq<PathSeg>, sigs: seq<SigSeg>, before: seq<nat>, after: seq<nat>)
    requires PathRanges(path) && SigRanges(sigs)
    ensures SegmentsAt(before + Segments(path, sigs) + after, |before|, path, sigs)
    ensures EndOf(|before|, path, sigs) == |before + Segments(path, sigs)|
    decreases path
  {
    hide PathBytes, SigBytes, SigAt, PathAt;
    if path != [] {
      var p := PathBytes(path[0]);
      if sigs == [] {
        var rest := Segments(path[1..], []);
        SegmentsRead(path[1..], [], before + p, after);
        assert before + (p + rest) + after == before + p + rest + after;
        PathReads(path[0], before, rest + after);
        assert before + p + (rest + after) == before + p + rest + after;
      } else {
        var g, rest := SigBytes(sigs[0]), Segments(path[1..], sigs[1..]);
        SigSize(sigs[0]);
        SegmentsRead(path[1..], sigs[1..], before + g + p, after);
        SigReads(sigs[0], before, p + rest + after);
        PathReads(path[0], before + g, rest + after);
        assert before + (g + p + rest) + after == before + g + (p + rest + after) == (before + g) + p + (rest + after)
            == before + g + p + rest + after;
      }
    }
  }

  lemma SigSize(s: SigSeg)
    requires |s.ski| == 20
    ensures |SigBytes(s)| == 22 + |s.signature|
  {
  }

  /** Every field of what is signed, at its offset. */
  lemma SignedSays(u: Update, target: nat, path: seq<PathSeg>, sigs: seq<SigSeg>)
    requires Ranges(u) && target < 0x1_0000_0000 && PathRanges(path) && SigRanges(sigs)
    ensures Says(Signed(u, target, path, sigs), u, target, path, sigs)
  {
    var head, segs, tail := U32(target), Segments(path, sigs), Trailer(u);
    var b := Signed(u, target, path, sigs);
    hide U32, Segments, Trailer, SegmentsAt, EndOf, Read4, Read2;
    SegmentsRead(path, sigs, head, tail);
    Read4Of(target, [], segs + tail);
    assert [] + head + (segs + tail) == b;
    TrailerReads(u, head + segs);
  }

  lemma TrailerReads(u: Update, before: seq<nat>)
    requires u.afi < 65536
    ensures var b, t := before + Trailer(u), |before|;
            && |b| == t + 5 + |u.nlri| && b[t] == u.alg && Read2(b, t + 1) == u.afi && b[t + 3] == u.safi
            && b[t + 4] == u.nlriLen && b[t + 5..] == u.nlri
  {
    var b := before + Trailer(u);
    Read2Of(u.afi, before + [u.alg], [u.safi, u.nlriLen] + u.nlri);
    hide U16, Read2;
    assert b == (before + [u.alg]) + U16(u.afi) + ([u.safi, u.nlriLen] + u.nlri);
  }

  /** What the router of hop `k` signed: the AS it sent the update to, the path up to its own
      segment, the signatures before its own, and the prefix. */
  lemma HopSays(u: Update, k: nat)
    requires Ranges(u) && k < |u.path| == |u.sigs|
    ensures Says(SignedBy(u, k), u, if k == 0 then u.targetAs else u.path[k - 1].asn, u.path[k..], u.sigs[k + 1..])
  {
    SignedSays(u, TargetOf(u, k), u.path[k..], u.sigs[k + 1..]);
  }

  /** What is hashed first by a validator, and what is signed. */
  lemma SequenceSays(u: Update)
    requires Ranges(u)
    ensures u.sigs != [] ==> Says(Sequence(u, Validation), u, u.targetAs, u.path, u.sigs[1..])
    ensures Says(Sequence(u, Signing), u, u.targetAs, u.path, u.sigs)
  {
    if u.sigs != [] { SignedSays(u, u.targetAs, u.path, u.sigs[1..]); }
    SignedSays(u, u.targetAs, u.path, u.sigs);
  }

  // ----- No two announcements have the same bytes -----

  lemma {:induction false} SegmentsDiffer(b: seq<nat>, at: nat, path: seq<PathSeg>, sigs: seq<SigSeg>, path': seq<PathSeg>, sigs': seq<SigSeg>)
    requires SegmentsAt(b, at, path, sigs) && SegmentsAt(b, at, path', sigs')
    requires |path| == |path'| && |sigs| == |sigs'| <= |path|
    ensures path == path' && sigs == sigs' && EndOf(at, path, sigs) == EndOf(at, path', sigs')
    decreases path
  {
    if path != [] {
      if sigs == [] {
        SegmentsDiffer(b, at + 6, path[1..], [], path'[1..], []);
      } else {
        SameSig(b, at, sigs[0], sigs'[0]);
        SegmentsDiffer(b, at + 28 + |sigs[0].signature|, path[1..], sigs[1..], path'[1..], sigs'[1..]);
        assert sigs == [sigs[0]] + sigs[1..] && sigs' == [sigs'[0]] + sigs'[1..];
      }
      assert path == [path[0]] + path[1..] && path' == [path'[0]] + path'[1..];
    }
  }

  lemma SameSig(b: seq<nat>, at: nat, s: SigSeg, s': SigSeg)
    requires SigAt(b, at, s) && SigAt(b, at, s')
    ensures s == s'
  {
  }

  /** Equal bytes, with equal numbers of segments, are about the same target, path,
      signatures, algorithm suite, address family and prefix. */
  lemma SaysOneThing(b: seq<nat>, u: Update, target: nat, path: seq<PathSeg>, sigs: seq<SigSeg>,
                     u': Update, target': nat, path': seq<PathSeg>, sigs': seq<SigSeg>)
    requires Says(b, u, target, path, sigs) && Says(b, u', target', path', sigs')
    requires |path| == |path'| && |sigs| == |sigs'| <= |path|
    ensures target == target' && path == path' && sigs == sigs'
    ensures u.alg == u'.alg && u.afi == u'.afi && u.safi == u'.safi && u.nlriLen == u'.nlriLen && u.nlri == u'.nlri
  {
    SegmentsDiffer(b, 4, path, sigs, path', sigs');
  }

  /** An update that validates says only what was signed. If a key of the table verifies only
      digests of messages from `signed`, and no two messages have one digest, then each hop's
      bytes are among them; and if one of these messages is what a router signed for an
      update of as many hops, the two are the same announcement up to that hop. */
  lemma ValidWasSigned(c: Crypto, u: Update, list: seq<KeyEntry>, signed: iset<seq<nat>>, k: nat)
    requires Ranges(u) && k < |u.path| == |u.sigs| && AllVerify(c, u, list)
    requires forall a, b :: c.hash(a) == c.hash(b) ==> a == b
    requires forall e, digest, signature :: e in list && c.verify(digest, signature, e.spki) == Verified ==>
               exists m :: m in signed && c.hash(m) == digest
    ensures SignedBy(u, k) in signed
    ensures forall v: Update, j: nat ::
              Ranges(v) && j < |v.path| == |v.sigs| && |v.path| - j == |u.path| - k && SignedBy(v, j) == SignedBy(u, k) ==>
                && v.nlri == u.nlri && v.nlriLen == u.nlriLen && v.afi == u.afi && v.safi == u.safi && v.alg == u.alg
                && v.path[j..] == u.path[k..] && v.sigs[j + 1..] == u.sigs[k + 1..]
  {
    hide Says, SignedBy, Ranges;
    assert Verifies(c, c.hash(SignedBy(u, k)), u.sigs[k], list);
    HopSays(u, k);
    forall v: Update, j: nat |
      Ranges(v) && j < |v.path| == |v.sigs| && |v.path| - j == |u.path| - k && SignedBy(v, j) == SignedBy(u, k)
      ensures && v.nlri == u.nlri && v.nlriLen == u.nlriLen && v.afi == u.afi && v.safi == u.safi && v.alg == u.alg
              && v.path[j..] == u.path[k..] && v.sigs[j + 1..] == u.sigs[k + 1..]
    {
      HopSays(v, j);
      SaysOneThing(SignedBy(u, k), u, if k == 0 then u.targetAs else u.path[k - 1].asn, u.path[k..], u.sigs[k + 1..],
                   v, if j == 0 then v.targetAs else v.path[j - 1].asn, v.path[j..], v.sigs[j + 1..]);
    }
  }

  /** Replacing the prefix of a signed update changes what every hop's signature is over. */
  lemma ReplacedPrefixDiffers(u: Update, nlri: seq<nat>, k: nat)
    requires Ranges(u) && k < |u.path| == |u.sigs| && |nlri| == |u.nlri| && nlri != u.nlri
    ensures SignedBy(u, k) != SignedBy(u.(nlri := nlri), k)
  {
    var v := u.(nlri := nlri);
    HopSays(u, k);
    HopSays(v, k);
  }
}
