/** BGPsec path validation and signing (rtrlib/bgpsec/bgpsec.c). Hashing, signing and
    verification are whatever functions the crypto library provides. */
module Bgpsec {
  import opened BgpsecBytes
  import opened LinearHashing
  import opened SpkiTables

  datatype Rtval =
    | NotValid | Valid | Success | Error | LoadPrivKeyError | RouterKeyNotFound | SigningError
    | UnsupportedAlgorithmSuite | UnsupportedAfi | WrongSegmentCount | InvalidArguments

  /** What ECDSA_verify and the loading of the public key come to. */
  datatype Verdict = Verified | Refuted | Failed

  datatype Crypto = Crypto(
    hash: seq<nat> -> seq<nat>,
    verify: (seq<nat>, seq<nat>, seq<nat>) -> Verdict,
    loads: seq<nat> -> bool,
    maxSize: seq<nat> -> nat,
    sign: (seq<nat>, seq<nat>) -> seq<nat>)

  /** A run returns a value or dereferences the end of the signature list. */
  datatype Outcome = Returned(value: Rtval) | NullDereference

  const ALGORITHM_SUITE_1: nat := 1
  const BGPSEC_IPV4: nat := 1
  const BGPSEC_IPV6: nat := 2

  // ----- struct stream -----

  class Stream {
    const buffer: array<nat>
    var writeHead: nat

    /** init_stream, whose size has 16 bits. */
    constructor (size: nat)
      requires size < 65536
      ensures writeHead == 0 && buffer.Length == size && fresh(buffer)
    {
      buffer := new nat[size];
      writeHead := 0;
    }

    ghost predicate Good()
      reads this
    {
      writeHead <= buffer.Length
    }

    ghost function Written(): seq<nat>
      requires Good()
      reads this, buffer
    {
      buffer[..writeHead]
    }

    /** write_stream. */
    method Write(data: seq<nat>)
      requires Good() && writeHead + |data| <= buffer.Length
      modifies this, buffer
      ensures Good() && Written() == old(Written()) + data
    {
      forall i | 0 <= i < |data| { buffer[writeHead + i] := data[i]; }
      writeHead := writeHead + |data|;
    }
  }

  // ----- align_byte_sequence -----

  function From(sigs: seq<SigSeg>, i: nat): seq<SigSeg> {
    if i < |sigs| then sigs[i..] else []
  }

  /** The bytes of path segment `i` and of the signature segment before it, if any is left. */
  function HopBytes(path: seq<PathSeg>, sigs: seq<SigSeg>, i: nat): seq<nat>
    requires i < |path|
  {
    if i < |sigs| then SigBytes(sigs[i]) + PathBytes(path[i]) else PathBytes(path[i])
  }

  lemma SegmentsStep(path: seq<PathSeg>, sigs: seq<SigSeg>, i: nat)
    requires i < |path|
    ensures Segments(path[i..], From(sigs, i)) == HopBytes(path, sigs, i) + Segments(path[i + 1..], From(sigs, i + 1))
  {
    assert path[i..][1..] == path[i + 1..];
    if i < |sigs| { assert sigs[i..][1..] == sigs[i + 1..]; }
  }

  method WriteSignature(s: Stream, sig: SigSeg)
    requires s.Good() && s.writeHead + |SigBytes(sig)| <= s.buffer.Length
    modifies s, s.buffer
    ensures s.Good() && s.Written() == old(s.Written()) + SigBytes(sig)
  {
    hide U16;
    s.Write(sig.ski);
    s.Write(U16(|sig.signature|));
    s.Write(sig.signature);
  }

  method WritePath(s: Stream, p: PathSeg)
    requires s.Good() && s.writeHead + SECURE_PATH_SEG_SIZE <= s.buffer.Length
    modifies s, s.buffer
    ensures s.Good() && s.Written() == old(s.Written()) + PathBytes(p)
  {
    hide U32;
    s.Write([p.pcount]);
    s.Write([p.flags]);
    s.Write(U32(p.asn));
    assert [p.pcount] + [p.flags] == [p.pcount, p.flags];
  }

  method WriteHop(s: Stream, path: seq<PathSeg>, sigs: seq<SigSeg>, i: nat)
    requires i < |path| && s.Good() && s.writeHead + |HopBytes(path, sigs, i)| <= s.buffer.Length
    modifies s, s.buffer
    ensures s.Good() && s.Written() == old(s.Written()) + HopBytes(path, sigs, i)
  {
    hide SigBytes, PathBytes;
    if i < |sigs| { WriteSignature(s, sigs[i]); }
    WritePath(s, path[i]);
  }

  /** The loop over the path segments. */
  method WriteSegments(s: Stream, path: seq<PathSeg>, sigs: seq<SigSeg>)
    requires s.Good() && s.writeHead + |Segments(path, sigs)| <= s.buffer.Length
    modifies s, s.buffer
    ensures s.Good() && s.Written() == old(s.Written()) + Segments(path, sigs)
  {
    ghost var all := old(s.Written()) + Segments(path, sigs);
    var i := 0;
    assert path[0..] == path && From(sigs, 0) == sigs;
    while i < |path|
      invariant i <= |path| && s.Good()
      invariant s.Written() + Segments(path[i..], From(sigs, i)) == all
    {
      hide Segments, HopBytes;
      SegmentsStep(path, sigs, i);
      ghost var w, hop, rest := s.Written(), HopBytes(path, sigs, i), Segments(path[i + 1..], From(sigs, i + 1));
      assert w + (hop + rest) == (w + hop) + rest;
      assert |w| + |hop| <= |all|;
      WriteHop(s, path, sigs, i);
      i := i + 1;
    }
    assert s.Written() + [] == s.Written();
  }

  method WriteTrailer(s: Stream, u: Update)
    requires s.Good() && s.writeHead + |Trailer(u)| <= s.buffer.Length
    modifies s, s.buffer
    ensures s.Good() && s.Written() == old(s.Written()) + Trailer(u)
  {
    hide U16;
    s.Write([u.alg]);
    s.Write(U16(u.afi));
    s.Write([u.safi]);
    s.Write([u.nlriLen]);
    s.Write(u.nlri);
    assert [u.safi] + [u.nlriLen] == [u.safi, u.nlriLen];
  }

  /** align_byte_sequence: the stream ends up holding exactly the sequence, with no byte to
      spare. */
  method Align(u: Update, kind: Alignment, s: Stream)
    requires kind.Validation? ==> u.sigs != []
    requires s.writeHead == 0 && s.buffer.Length == |Sequence(u, kind)|
    modifies s, s.buffer
    ensures s.buffer[..] == Sequence(u, kind) && s.writeHead == s.buffer.Length
  {
    hide Segments, Trailer, U32;
    s.Write(U32(u.targetAs));
    WriteSegments(s, u.path, HashedSigs(u, kind));
    WriteTrailer(s, u);
    assert s.Written() == s.buffer[..];
  }

  // ----- rtr_bgpsec_validate_as_path -----

  function AsRtval(v: Verdict): Rtval {
    match v case Verified => Valid case Refuted => NotValid case Failed => Rtval.Error
  }

  /** The loop over the router keys of one identifier: up to the first that verifies. */
  function TryKeys(c: Crypto, digest: seq<nat>, sig: SigSeg, keys: seq<KeyEntry>): Rtval {
    if keys == [] then Rtval.Success
    else
      var r := AsRtval(c.verify(digest, sig.signature, keys[0].spki));
      if r == Valid || |keys| == 1 then r else TryKeys(c, digest, sig, keys[1..])
  }

  /** Some key with the signature's identifier verifies it. */
  ghost predicate Verifies(c: Crypto, digest: seq<nat>, sig: SigSeg, list: seq<KeyEntry>) {
    exists e :: e in list && e.ski == sig.ski && c.verify(digest, sig.signature, e.spki) == Verified
  }

  lemma {:induction false} TryKeysValid(c: Crypto, digest: seq<nat>, sig: SigSeg, keys: seq<KeyEntry>)
    ensures TryKeys(c, digest, sig, keys) == Valid
        <==> exists e :: e in keys && c.verify(digest, sig.signature, e.spki) == Verified
  {
    if keys != [] {
      TryKeysValid(c, digest, sig, keys[1..]);
      assert forall e :: e in keys <==> e == keys[0] || e in keys[1..];
    }
  }

  function HopRtval(c: Crypto, u: Update, list: seq<KeyEntry>, k: nat): Rtval
    requires k < |u.path| == |u.sigs|
  {
    TryKeys(c, c.hash(SignedBy(u, k)), u.sigs[k], Filter(list, WithSki(u.sigs[k].ski)))
  }

  lemma HopValid(c: Crypto, u: Update, list: seq<KeyEntry>, k: nat)
    requires k < |u.path| == |u.sigs|
    ensures HopRtval(c, u, list, k) == Valid <==> Verifies(c, c.hash(SignedBy(u, k)), u.sigs[k], list)
  {
    var keys := Filter(list, WithSki(u.sigs[k].ski));
    FilterMembers(list, WithSki(u.sigs[k].ski));
    TryKeysValid(c, c.hash(SignedBy(u, k)), u.sigs[k], keys);
  }

  ghost predicate HasKey(list: seq<KeyEntry>, ski: seq<nat>) {
    exists e :: e in list && e.ski == ski
  }

  /** The checks before any hashing, in their order. */
  ghost function Precheck(u: Update, list: seq<KeyEntry>): Rtval {
    if u.path == [] || u.sigs == [] then InvalidArguments
    else if |u.path| != |u.sigs| then WrongSegmentCount
    else if u.alg != ALGORITHM_SUITE_1 then UnsupportedAlgorithmSuite
    else if u.nlriAfi != BGPSEC_IPV4 && u.nlriAfi != BGPSEC_IPV6 then UnsupportedAfi
    else if exists s :: s in u.sigs && !HasKey(list, s.ski) then RouterKeyNotFound
    else Rtval.Success
  }

  /** The origin's signature is so short that the loop would not stop after it. */
  predicate Overruns(u: Update)
    requires u.sigs != []
  {
    |u.sigs[|u.sigs| - 1].signature| + 13 <= NlriBytes(u)
  }

  ghost predicate HopsValid(c: Crypto, u: Update, list: seq<KeyEntry>, k: nat)
    requires k <= |u.path| == |u.sigs|
  {
    forall j :: 0 <= j < k ==> HopRtval(c, u, list, j) == Valid
  }

  /** check_router_keys. */
  method CheckRouterKeys(sigs: seq<SigSeg>, table: SpkiTable) returns (r: Rtval)
    requires table.Valid()
    ensures r == if exists s :: s in sigs && !HasKey(table.list, s.ski) then RouterKeyNotFound else Rtval.Success
  {
    hide SpkiTable.Valid;
    ghost var list := table.list;
    for i := 0 to |sigs|
      invariant forall j :: 0 <= j < i ==> HasKey(list, sigs[j].ski)
      invariant table.Valid() && table.list == list
    {
      FilterMembers(list, WithSki(sigs[i].ski));
      table.Same();
      var keys := table.SearchBySki(sigs[i].ski);
      if |keys| == 0 {
        KeyMissing(list, sigs[i].ski);
        assert sigs[i] in sigs;
        return RouterKeyNotFound;
      }
      assert keys[0] in keys;
    }
    return Rtval.Success;
  }

  lemma KeyMissing(list: seq<KeyEntry>, ski: seq<nat>)
    requires Filter(list, WithSki(ski)) == []
    ensures !HasKey(list, ski)
  {
    FilterMembers(list, WithSki(ski));
    assert forall e: KeyEntry :: e !in Filter(list, WithSki(ski));
  }

  /** The key loop of one signature. */
  method TryKeysOf(c: Crypto, digest: seq<nat>, sig: SigSeg, keys: seq<KeyEntry>) returns (r: Rtval)
    ensures r == TryKeys(c, digest, sig, keys)
  {
    r := Rtval.Success;
    var j := 0;
    while j < |keys|
      invariant j <= |keys| && r != Valid
      invariant j < |keys| ==> TryKeys(c, digest, sig, keys) == TryKeys(c, digest, sig, keys[j..])
      invariant j == |keys| ==> r == TryKeys(c, digest, sig, keys)
    {
      assert keys[j..][1..] == keys[j + 1..];
      r := AsRtval(c.verify(digest, sig.signature, keys[j].spki));
      if r == Valid { return; }
      j := j + 1;
    }
  }

  /** Whether the loop goes on after `k` signatures that verify. */
  lemma LoopGuard(u: Update, k: nat)
    requires WellSized(u) && 0 < |u.path| == |u.sigs| && k <= |u.sigs|
    ensures Offset(u, k) <= |Sequence(u, Validation)| <==> k < |u.sigs| || Overruns(u)
  {
    hide Sequence;
    OriginSize(u);
    if k < |u.sigs| { SuffixIsSigned(u, k); }
  }

  /** The validation loop over a stream that holds the whole sequence. */
  method CheckSignatures(c: Crypto, u: Update, table: SpkiTable, stream: Stream) returns (r: Outcome)
    requires table.Valid() && WellSized(u) && 0 < |u.path| == |u.sigs|
    requires stream.buffer[..] == Sequence(u, Validation)
    ensures r == NullDereference <==> HopsValid(c, u, table.list, |u.sigs|) && Overruns(u)
    ensures r == Returned(Valid) <==> HopsValid(c, u, table.list, |u.sigs|) && !Overruns(u)
    ensures r.Returned? && r.value != Valid ==>
              exists k :: 0 <= k < |u.sigs| && HopsValid(c, u, table.list, k) && r.value == HopRtval(c, u, table.list, k)
  {
    hide SpkiTable.Valid, Sequence;
    ghost var list := table.list;
    var buffer := stream.buffer;
    var size := buffer.Length;
    var k, offset := 0, 0;
    while offset <= size
      invariant k <= |u.sigs| && offset == Offset(u, k)
      invariant HopsValid(c, u, list, k)
      invariant table.Valid() && table.list == list
      invariant buffer[..] == Sequence(u, Validation)
      decreases |u.sigs| - k
    {
      LoopGuard(u, k);
      if k == |u.sigs| { return NullDereference; }
      SuffixIsSigned(u, k);
      table.Same();
      var nextLen := if k + 1 < |u.sigs| then |u.sigs[k + 1].signature| else |u.sigs[k].signature|;
      var digest := c.hash(buffer[offset..]);
      assert buffer[offset..] == buffer[..][offset..];
      var keys := table.SearchBySki(u.sigs[k].ski);
      var retval := TryKeysOf(c, digest, u.sigs[k], keys);
      assert retval == HopRtval(c, u, list, k);
      if retval != Valid { return Returned(retval); }
      offset := offset + nextLen + SKI_SIZE + 2 + SECURE_PATH_SEG_SIZE;
      k := k + 1;
    }
    LoopGuard(u, k);
    return Returned(Valid);
  }

  /** Every signature verifies over what its router had to sign, under some key with its
      identifier. */
  ghost predicate AllVerify(c: Crypto, u: Update, list: seq<KeyEntry>)
    requires |u.path| == |u.sigs|
  {
    forall k :: 0 <= k < |u.sigs| ==> Verifies(c, c.hash(SignedBy(u, k)), u.sigs[k], list)
  }

  /** rtr_bgpsec_validate_as_path. */
  method ValidateAsPath(c: Crypto, u: Update, table: SpkiTable) returns (r: Outcome)
    requires table.Valid() && WellSized(u)
    requires u.sigs != [] ==> RequiredSize(u, Validation) < 65536
    ensures Precheck(u, table.list) != Rtval.Success ==> r == Returned(Precheck(u, table.list))
    ensures Precheck(u, table.list) == Rtval.Success ==>
              && (r == Returned(Valid) <==> AllVerify(c, u, table.list) && !Overruns(u))
              && (r == NullDereference <==> AllVerify(c, u, table.list) && Overruns(u))
              && (r.Returned? && r.value != Valid ==>
                    exists k :: 0 <= k < |u.sigs| && HopsValid(c, u, table.list, k) && r.value == HopRtval(c, u, table.list, k))
    ensures r == Returned(Valid) <==>
              0 < |u.path| == |u.sigs| && u.alg == 1 && u.nlriAfi in {1, 2} && AllVerify(c, u, table.list) && !Overruns(u)
    ensures r == Returned(RouterKeyNotFound) <==>
              && 0 < |u.path| == |u.sigs| && u.alg == 1 && u.nlriAfi in {1, 2}
              && exists s :: s in u.sigs && forall e :: e in table.list ==> e.ski != s.ski
  {
    hide SpkiTable.Valid, Sequence, RequiredSize;
    ghost var list := table.list;
    PrecheckSays(u, list);
    AllVerifyHaveKeys(c, u, list);
    HopsAnswer(c, u, list);
    if |u.path| == 0 || |u.sigs| == 0 { return Returned(InvalidArguments); }
    if |u.path| != |u.sigs| { return Returned(WrongSegmentCount); }
    if u.alg != ALGORITHM_SUITE_1 { return Returned(UnsupportedAlgorithmSuite); }
    if u.nlriAfi != BGPSEC_IPV4 && u.nlriAfi != BGPSEC_IPV6 { return Returned(UnsupportedAfi); }
    var keysFound := CheckRouterKeys(u.sigs, table);
    if keysFound != Rtval.Success { return Returned(keysFound); }
    SequenceSize(u, Validation);
    var stream := new Stream(RequiredSize(u, Validation));
    Align(u, Validation, stream);
    table.Same();
    r := CheckSignatures(c, u, table, stream);
    HopsVerify(c, u, list);
  }

  /** What the checks before any hashing let through, and which error comes first. */
  lemma PrecheckSays(u: Update, list: seq<KeyEntry>)
    ensures var known := forall s :: s in u.sigs ==> exists e :: e in list && e.ski == s.ski;
            var r := Precheck(u, list);
            && (r == InvalidArguments <==> u.path == [] || u.sigs == [])
            && (r == WrongSegmentCount <==> u.path != [] && u.sigs != [] && |u.path| != |u.sigs|)
            && (r == UnsupportedAlgorithmSuite <==> 0 < |u.path| == |u.sigs| && u.alg != 1)
            && (r == UnsupportedAfi <==> 0 < |u.path| == |u.sigs| && u.alg == 1 && u.nlriAfi !in {1, 2})
            && (r == RouterKeyNotFound <==> 0 < |u.path| == |u.sigs| && u.alg == 1 && u.nlriAfi in {1, 2} && !known)
            && (r == Rtval.Success <==> 0 < |u.path| == |u.sigs| && u.alg == 1 && u.nlriAfi in {1, 2} && known)
  {
    assert (forall s :: s in u.sigs ==> exists e :: e in list && e.ski == s.ski) <==>
           !exists s :: s in u.sigs && !HasKey(list, s.ski);
  }

  /** A signature that verifies has a key. */
  lemma AllVerifyHaveKeys(c: Crypto, u: Update, list: seq<KeyEntry>)
    ensures |u.path| == |u.sigs| && AllVerify(c, u, list) ==>
              forall s :: s in u.sigs ==> exists e :: e in list && e.ski == s.ski
  {
    if |u.path| == |u.sigs| && AllVerify(c, u, list) {
      forall s | s in u.sigs ensures exists e :: e in list && e.ski == s.ski {
        var k :| 0 <= k < |u.sigs| && u.sigs[k] == s;
        assert Verifies(c, c.hash(SignedBy(u, k)), u.sigs[k], list);
      }
    }
  }

  lemma {:induction false} TryKeysAnswers(c: Crypto, digest: seq<nat>, sig: SigSeg, keys: seq<KeyEntry>)
    ensures TryKeys(c, digest, sig, keys) in {Valid, NotValid, Rtval.Error, Rtval.Success}
  {
    if |keys| > 1 { TryKeysAnswers(c, digest, sig, keys[1..]); }
  }

  lemma HopsAnswer(c: Crypto, u: Update, list: seq<KeyEntry>)
    ensures |u.path| == |u.sigs| ==> forall k :: 0 <= k < |u.sigs| ==> HopRtval(c, u, list, k) != RouterKeyNotFound
  {
    if |u.path| == |u.sigs| {
      forall k | 0 <= k < |u.sigs| ensures HopRtval(c, u, list, k) != RouterKeyNotFound {
        TryKeysAnswers(c, c.hash(SignedBy(u, k)), u.sigs[k], Filter(list, WithSki(u.sigs[k].ski)));
      }
    }
  }

  lemma HopsVerify(c: Crypto, u: Update, list: seq<KeyEntry>)
    requires |u.path| == |u.sigs|
    ensures HopsValid(c, u, list, |u.sigs|) <==> AllVerify(c, u, list)
  {
    hide HopRtval, Verifies;
    forall k | 0 <= k < |u.sigs|
      ensures HopRtval(c, u, list, k) == Valid <==> Verifies(c, c.hash(SignedBy(u, k)), u.sigs[k], list)
    {
      HopValid(c, u, list, k);
    }
  }

  /** For a prefix of at most 128 bits four octets of signature are enough, and for the
      longest ones three are not. */
  lemma OverrunBound(u: Update)
    requires u.sigs != [] && u.nlriLen <= 128
    ensures var len := |u.sigs[|u.sigs| - 1].signature|;
            && (4 <= len ==> !Overruns(u))
            && (len <= 3 && 120 < u.nlriLen ==> Overruns(u))
  {
  }

  /** An update of one hop with a signature of three octets for a prefix of 128 bits. */
  function ShortSignature(): (u: Update)
    ensures WellSized(u) && |u.path| == |u.sigs| == 1
  {
    BgpsecBytes.Update(1, 1, 2, 64500, BGPSEC_IPV6, 128, seq(16, _ => 0), [PathSeg(1, 0, 64501)],
                       [SigSeg(seq(SKI_SIZE, _ => 7), [1, 2, 3])])
  }

  /** A crypto library that accepts every signature. */
  function AcceptAll(): Crypto {
    Crypto(bytes => bytes, (_, _, _) => Verified, _ => true, _ => 72, (digest, _) => digest)
  }

  /** With a library that accepts so short a signature, validation dereferences null. No
      ECDSA signature has three octets: the example depends on `verify` being arbitrary. */
  lemma OverrunExample()
    ensures var u, list := ShortSignature(), [KeyEntry(64501, seq(SKI_SIZE, _ => 7), [9], 0)];
            Precheck(u, list) == Rtval.Success && AllVerify(AcceptAll(), u, list) && Overruns(u)
  {
    var u := ShortSignature();
    var key := KeyEntry(64501, seq(SKI_SIZE, _ => 7), [9], 0);
    assert key in [key] && key.ski == u.sigs[0].ski;
    assert HasKey([key], u.sigs[0].ski);
  }

  // ----- rtr_bgpsec_generate_signature -----

  ghost function SignCheck(u: Update): Rtval {
    if u.path == [] then InvalidArguments
    else if u.alg != ALGORITHM_SUITE_1 then UnsupportedAlgorithmSuite
    else if u.nlriAfi != BGPSEC_IPV4 && u.nlriAfi != BGPSEC_IPV6 then UnsupportedAfi
    else if |u.path| != |u.sigs| + 1 then WrongSegmentCount
    else Rtval.Success
  }

  method GenerateSignature(c: Crypto, u: Update, priv: seq<nat>) returns (r: Rtval, signature: seq<nat>)
    requires WellSized(u) && RequiredSize(u, Signing) < 65536
    ensures SignCheck(u) != Rtval.Success ==> r == SignCheck(u)
    ensures SignCheck(u) == Rtval.Success ==>
              var signed := c.sign(c.hash(Sequence(u, Signing)), priv);
              && r in {LoadPrivKeyError, SigningError, Rtval.Success}
              && (r == LoadPrivKeyError <==> !c.loads(priv) || c.maxSize(priv) == 0)
              && (r == Rtval.Success <==> c.loads(priv) && c.maxSize(priv) != 0 && signed != [])
              && (r == Rtval.Success ==> signature == signed)
    ensures r == Rtval.Success <==>
              && |u.path| == |u.sigs| + 1 && u.alg == 1 && u.nlriAfi in {1, 2}
              && c.loads(priv) && c.maxSize(priv) != 0 && c.sign(c.hash(Sequence(u, Signing)), priv) != []
    ensures r == InvalidArguments <==> u.path == []
    ensures r == UnsupportedAlgorithmSuite <==> u.path != [] && u.alg != 1
    ensures r == UnsupportedAfi <==> u.path != [] && u.alg == 1 && u.nlriAfi !in {1, 2}
    ensures r == WrongSegmentCount <==> u.path != [] && u.alg == 1 && u.nlriAfi in {1, 2} && |u.path| != |u.sigs| + 1
  {
    hide Sequence, RequiredSize;
    signature := [];
    if |u.path| == 0 { return InvalidArguments, []; }
    if u.alg != ALGORITHM_SUITE_1 { return UnsupportedAlgorithmSuite, []; }
    if u.nlriAfi != BGPSEC_IPV4 && u.nlriAfi != BGPSEC_IPV6 { return UnsupportedAfi, []; }
    if |u.path| != |u.sigs| + 1 { return WrongSegmentCount, []; }
    if !c.loads(priv) { return LoadPrivKeyError, []; }
    if c.maxSize(priv) == 0 { return LoadPrivKeyError, []; }
    SequenceSize(u, Signing);
    var stream := new Stream(RequiredSize(u, Signing));
    Align(u, Signing, stream);
    signature := c.sign(c.hash(stream.buffer[..]), priv);
    r := if |signature| < 1 then SigningError else Rtval.Success;
  }

  // ----- A path signed hop by hop is valid -----

  datatype Router = Router(segment: PathSeg, ski: seq<nat>, priv: seq<nat>, pub: seq<nat>)

  /** What rtr_bgpsec_prepend_sec_path_seg, rtr_bgpsec_generate_signature and
      rtr_bgpsec_prepend_sig_seg make of an update that a router sends on. */
  function Forward(c: Crypto, u: Update, r: Router, target: nat): Update {
    var signing := u.(targetAs := target, path := [r.segment] + u.path);
    signing.(sigs := [SigSeg(r.ski, c.sign(c.hash(Sequence(signing, Signing)), r.priv))] + u.sigs)
  }

  /** The update after the routers, the last one first, each sending to the one before it. */
  function Announced(c: Crypto, origin: Update, routers: seq<Router>, target: nat): (u: Update)
    ensures |u.path| == |u.sigs| == |routers|
    ensures u == origin.(path := u.path, sigs := u.sigs, targetAs := target)
  {
    if routers == [] then origin.(path := [], sigs := [], targetAs := target)
    else Forward(c, Announced(c, origin, routers[1..], routers[0].segment.asn), routers[0], target)
  }

  /** Each router signed exactly what a validator will hash for it. */
  lemma {:induction false} AnnouncedSigned(c: Crypto, origin: Update, routers: seq<Router>, target: nat, k: nat)
    requires k < |routers|
    ensures var u := Announced(c, origin, routers, target);
            && u.sigs[k] == SigSeg(routers[k].ski, c.sign(c.hash(SignedBy(u, k)), routers[k].priv))
            && u.path[k] == routers[k].segment
    decreases k
  {
    var u := Announced(c, origin, routers, target);
    var before := Announced(c, origin, routers[1..], routers[0].segment.asn);
    if k == 0 {
      assert u.path[0..] == u.path && u.sigs[1..] == before.sigs;
    } else {
      AnnouncedSigned(c, origin, routers[1..], routers[0].segment.asn, k - 1);
      assert u.path[k..] == before.path[k - 1..] && u.sigs[k + 1..] == before.sigs[k..];
      assert TargetOf(u, k) == TargetOf(before, k - 1);
    }
  }

  /** What the public key verifies is what the private key signed. */
  ghost predicate KeyPair(c: Crypto, r: Router) {
    forall digest :: c.verify(digest, c.sign(digest, r.priv), r.pub) == Verified
  }

  /** End to end: when every router signs with a key pair whose public half is in the table,
      validation of the whole path finds every signature verified. */
  lemma SignedPathVerifies(c: Crypto, origin: Update, routers: seq<Router>, target: nat, list: seq<KeyEntry>)
    requires forall r :: r in routers ==> KeyPair(c, r) && exists e :: e in list && e.ski == r.ski && e.spki == r.pub
    ensures AllVerify(c, Announced(c, origin, routers, target), list)
    ensures routers != [] && origin.alg == ALGORITHM_SUITE_1 && origin.nlriAfi in {BGPSEC_IPV4, BGPSEC_IPV6} ==>
              Precheck(Announced(c, origin, routers, target), list) == Rtval.Success
  {
    var u := Announced(c, origin, routers, target);
    forall k | 0 <= k < |u.sigs|
      ensures Verifies(c, c.hash(SignedBy(u, k)), u.sigs[k], list) && HasKey(list, u.sigs[k].ski)
    {
      AnnouncedSigned(c, origin, routers, target, k);
      var e :| e in list && e.ski == routers[k].ski && e.spki == routers[k].pub;
      assert KeyPair(c, routers[k]);
    }
  }
}
