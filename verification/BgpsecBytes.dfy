/** The bytes a BGPsec router signs and a validator hashes again (align_byte_sequence in
    rtrlib/bgpsec/bgpsec_utils.c; sections 4.2 and 5.2 of RFC 8205). */
module BgpsecBytes {

  /** struct rtr_secure_path_seg. */
  datatype PathSeg = PathSeg(pcount: nat, flags: nat, asn: nat)

  /** struct rtr_signature_seg; sig_len is the signature's length. */
  datatype SigSeg = SigSeg(ski: seq<nat>, signature: seq<nat>)

  /** struct rtr_bgpsec with its struct rtr_bgpsec_nlri. The last appended segments come
      first in both lists. */
  datatype Update = Update(
    alg: nat, safi: nat, afi: nat, targetAs: nat,
    nlriAfi: nat, nlriLen: nat, nlri: seq<nat>,
    path: seq<PathSeg>, sigs: seq<SigSeg>)

  const SKI_SIZE: nat := 20
  const SECURE_PATH_SEG_SIZE: nat := 6

  // ----- Byte order -----

  function U16(x: nat): (r: seq<nat>)
    ensures |r| == 2
  {
    [x / 256 % 256, x % 256]
  }

  function U32(x: nat): (r: seq<nat>)
    ensures |r| == 4
  {
    U16(x / 65536) + U16(x)
  }

  // ----- The sequence -----

  function NlriBytes(u: Update): nat {
    (u.nlriLen + 7) / 8
  }

  /** The fields have the sizes of the C structures. */
  ghost predicate WellSized(u: Update) {
    && |u.nlri| == NlriBytes(u) && u.nlriLen < 256
    && (forall s :: s in u.sigs ==> |s.ski| == SKI_SIZE && |s.signature| < 65536)
    && |u.path| < 256
  }

  function SigBytes(s: SigSeg): seq<nat> {
    s.ski + U16(|s.signature|) + s.signature
  }

  function PathBytes(p: PathSeg): (r: seq<nat>)
    ensures |r| == SECURE_PATH_SEG_SIZE
  {
    [p.pcount, p.flags] + U32(p.asn)
  }

  /** Signature and path segments in turn, as long as there are signatures. */
  function Segments(path: seq<PathSeg>, sigs: seq<SigSeg>): seq<nat> {
    if path == [] then []
    else if sigs == [] then PathBytes(path[0]) + Segments(path[1..], [])
    else SigBytes(sigs[0]) + PathBytes(path[0]) + Segments(path[1..], sigs[1..])
  }

  function Trailer(u: Update): seq<nat> {
    [u.alg] + U16(u.afi) + [u.safi, u.nlriLen] + u.nlri
  }

  /** What the router of the first path segment signs for a target AS. */
  function Signed(u: Update, target: nat, path: seq<PathSeg>, sigs: seq<SigSeg>): seq<nat> {
    U32(target) + Segments(path, sigs) + Trailer(u)
  }

  datatype Alignment = Validation | Signing

  /** The signatures that go into the sequence: for validation, all but the first. */
  function HashedSigs(u: Update, kind: Alignment): seq<SigSeg>
    requires kind.Validation? ==> u.sigs != []
  {
    if kind.Validation? then u.sigs[1..] else u.sigs
  }

  function Sequence(u: Update, kind: Alignment): seq<nat>
    requires kind.Validation? ==> u.sigs != []
  {
    Signed(u, u.targetAs, u.path, HashedSigs(u, kind))
  }

  /** get_sig_seg_size. */
  function SigsSize(sigs: seq<SigSeg>): nat {
    if sigs == [] then 0 else |sigs[0].signature| + 2 + SKI_SIZE + SigsSize(sigs[1..])
  }

  /** req_stream_size. */
  function RequiredSize(u: Update, kind: Alignment): nat
    requires kind.Validation? ==> u.sigs != []
  {
    9 + NlriBytes(u) + SigsSize(HashedSigs(u, kind)) + SECURE_PATH_SEG_SIZE * |u.path|
  }

  lemma {:induction false} SegmentsSize(path: seq<PathSeg>, sigs: seq<SigSeg>)
    requires |sigs| <= |path| && forall s :: s in sigs ==> |s.ski| == SKI_SIZE
    ensures |Segments(path, sigs)| == SigsSize(sigs) + SECURE_PATH_SEG_SIZE * |path|
  {
    if path != [] { SegmentsSize(path[1..], if sigs == [] then [] else sigs[1..]); }
  }

  /** The computed size is the size of the sequence, for either use. */
  lemma SequenceSize(u: Update, kind: Alignment)
    requires WellSized(u) && (kind.Validation? ==> u.sigs != []) && |HashedSigs(u, kind)| <= |u.path|
    ensures |Sequence(u, kind)| == RequiredSize(u, kind)
  {
    SegmentsSize(u.path, HashedSigs(u, kind));
  }

  /** How far the validation loop moves on after signature `k`. */
  function NextOffset(u: Update, k: nat): nat
    requires k < |u.sigs|
  {
    var next := if k + 1 < |u.sigs| then u.sigs[k + 1] else u.sigs[k];
    |next.signature| + SKI_SIZE + 2 + SECURE_PATH_SEG_SIZE
  }

  function Offset(u: Update, k: nat): nat
    requires k <= |u.sigs|
  {
    if k == 0 then 0 else Offset(u, k - 1) + NextOffset(u, k - 1)
  }

  /** The AS to which the router of path segment `k` sent the update. */
  function TargetOf(u: Update, k: nat): nat
    requires k <= |u.path|
  {
    if k == 0 then u.targetAs else u.path[k - 1].asn
  }

  /** What the router of path segment `k` had to sign. */
  function SignedBy(u: Update, k: nat): seq<nat>
    requires k < |u.path| == |u.sigs|
  {
    Signed(u, TargetOf(u, k), u.path[k..], u.sigs[k + 1..])
  }

  /** Dropping a signature segment and all of a path segment but its AS number leaves the
      sequence of the router before. */
  lemma DropHop(u: Update, target: nat, path: seq<PathSeg>, sigs: seq<SigSeg>)
    requires path != [] && sigs != [] && |sigs[0].ski| == SKI_SIZE
    ensures var skip := |sigs[0].signature| + SKI_SIZE + 2 + SECURE_PATH_SEG_SIZE;
            && skip <= |Signed(u, target, path, sigs)|
            && Signed(u, target, path, sigs)[skip..] == Signed(u, path[0].asn, path[1..], sigs[1..])
  {
    var counts, rest := [path[0].pcount, path[0].flags], Segments(path[1..], sigs[1..]);
    assert |U32(target) + SigBytes(sigs[0]) + counts| == |sigs[0].signature| + SKI_SIZE + 2 + SECURE_PATH_SEG_SIZE;
    hide U32, Trailer, SigBytes;
    Regroup(U32(target), SigBytes(sigs[0]), counts, U32(path[0].asn), rest, Trailer(u));
  }

  lemma Regroup(a: seq<nat>, b: seq<nat>, c: seq<nat>, d: seq<nat>, e: seq<nat>, f: seq<nat>)
    ensures (a + (b + (c + d) + e) + f)[|a + b + c|..] == d + e + f
  {
    assert a + (b + (c + d) + e) + f == (a + b + c) + (d + e + f);
  }

  /** Main byte-level result: the bytes from the k-th offset on are what the k-th router
      signed. The stream is filled once and re-read from moving offsets. */
  lemma {:induction false} SuffixIsSigned(u: Update, k: nat)
    requires WellSized(u) && k < |u.path| == |u.sigs|
    ensures Offset(u, k) <= |Sequence(u, Validation)|
    ensures Sequence(u, Validation)[Offset(u, k)..] == SignedBy(u, k)
    decreases k
  {
    if k == 0 {
      assert u.path[0..] == u.path;
    } else {
      SuffixIsSigned(u, k - 1);
      var path, sigs := u.path[k - 1..], u.sigs[k..];
      assert path[1..] == u.path[k..] && sigs[1..] == u.sigs[k + 1..] && sigs[0] == u.sigs[k];
      DropHop(u, TargetOf(u, k - 1), path, sigs);
      var all, at, skip := Sequence(u, Validation), Offset(u, k - 1), NextOffset(u, k - 1);
      assert all[at..][skip..] == all[at + skip..];
    }
  }

  /** How many bytes the origin AS signed, whatever the length of the path. */
  lemma OriginSize(u: Update)
    requires WellSized(u) && 0 < |u.path| == |u.sigs|
    ensures Offset(u, |u.sigs| - 1) + 15 + NlriBytes(u) == |Sequence(u, Validation)|
  {
    var k := |u.sigs| - 1;
    SuffixIsSigned(u, k);
    var path := u.path[k..];
    assert |path| == 1 && path[1..] == [] && u.sigs[k + 1..] == [];
    assert Segments(path, []) == PathBytes(path[0]) + [];
    assert |SignedBy(u, k)| == 15 + NlriBytes(u);
  }
}
