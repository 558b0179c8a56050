/** What PDUs are on the wire, by section 5 of RFC 8210 and section 5 of
    draft-ietf-sidrops-8210bis: every offset and every size is written out here, so that
    nothing rests on the tables of PduBytes. */
module PduWire {
  import opened PduBytes

  // ----- Where the fields are -----

  /** A 32-bit field after the header, for every type but the error PDU (10). */
  ghost predicate FieldAt(t: nat, version: nat, len: nat, at: nat) {
    || (t == 0 && at == 8)                                              // Serial Notify: serial
    || (t == 1 && at == 8)                                              // Serial Query: serial
    || (t == 4 && (at == 12 || at == 16))                               // IPv4 Prefix: prefix, ASN
    || (t == 6 && (at == 12 || at == 16 || at == 20 || at == 24 || at == 28)) // IPv6 Prefix: prefix, ASN
    || (t == 7 && at == 8)                                              // End of Data: serial
    || (t == 7 && version != 0 && (at == 12 || at == 16 || at == 20))   // and the three intervals
    || (t == 9 && at == 28)                                             // Router Key: ASN
    || (t == 11 && 8 <= at && at % 4 == 0 && at + 4 <= len)             // ASPA: customer, providers
  }

  lemma FieldsAreThose(t: nat, version: nat, flags: nat, len: nat, at: nat)
    requires t != 10 && (FixedSize(t, version, len) || (t == 11 && AspaSize(flags, len)))
    ensures FieldAt(t, version, len, at) <==> exists k :: 0 <= k < |Fields(t, version, len)| && Fields(t, version, len)[k] == at
  {
    var fs := Fields(t, version, len);
    if t == 11 {
      var n := ProviderCount(len);
      assert forall k :: 0 <= k < |fs| ==> fs[k] == 8 + 4 * k;
      if FieldAt(t, version, len, at) {
        var k := (at - 8) / 4;
        assert fs[k] == at;
      }
    } else if t == 0 || t == 1 || t == 7 {
      assert FieldAt(t, version, len, at) ==> fs[(at - 8) / 4] == at;
    } else if t == 4 || t == 6 {
      assert FieldAt(t, version, len, at) ==> fs[(at - 12) / 4] == at;
    } else if t == 9 {
      assert fs[0] == 28;
    }
  }

  // ----- Every field is converted, and nothing else -----

  lemma {:induction false} SwapAllReads(b: seq<nat>, fields: seq<nat>, little: bool, k: nat)
    requires Apart(fields) && Within(fields, 0, |b|) && k < |fields|
    ensures var r := SwapAll(b, fields, little); var f := fields[k];
            Big(r, f) == Host(b, f, little) && Host(r, f, little) == Big(b, f)
    decreases fields
  {
    hide Swap4;
    var f := fields[k];
    var once := Swap4(b, fields[0], little);
    if k == 0 {
      SwapTwice(b, f, little);
      forall i | f <= i < f + 4 ensures SwapAll(once, fields[1..], little)[i] == once[i] {
        SwapAllKeeps(once, fields[1..], little, i);
      }
    } else {
      SwapAllReads(once, fields[1..], little, k - 1);
      SwapsCommute(b, fields[0], f, little);
      SwapsCommute(Swap4(b, fields[0], little), fields[0], f, little);
      SwapTwice(b, fields[0], little);
    }
  }

  /** What converting the rest of a PDU does, in both directions. */
  ghost predicate Converted(b: seq<nat>, r: seq<nat>, little: bool) {
    && |r| == |b| >= 8
    && (forall at: nat :: FieldAt(b[1], b[0], |b|, at) && at + 4 <= |b| ==>
          Big(r, at) == Host(b, at, little) && Host(r, at, little) == Big(b, at))
    && (forall i :: 0 <= i < |b| && (forall at: nat :: FieldAt(b[1], b[0], |b|, at) ==> !(at <= i < at + 4)) ==> r[i] == b[i])
  }

  lemma FieldsInside(t: nat, version: nat, flags: nat, len: nat, at: nat)
    requires t != 10 && (FixedSize(t, version, len) || (t == 11 && AspaSize(flags, len))) && FieldAt(t, version, len, at)
    ensures 8 <= at && at + 4 <= len
  {
    FieldsFit(t, version, flags, len);
    FieldsAreThose(t, version, flags, len, at);
  }

  lemma FieldsConverted(b: seq<nat>, little: bool)
    requires |b| >= 8 && b[1] != 10 && (FixedSize(b[1], b[0], |b|) || (b[1] == 11 && AspaSize(b[2], |b|)))
    requires Within(Fields(b[1], b[0], |b|), 0, |b|)
    ensures Converted(b, SwapAll(b, Fields(b[1], b[0], |b|), little), little)
  {
    var t, v, len := b[1], b[0], |b|;
    var fs := Fields(t, v, len);
    FieldsFit(t, v, b[2], len);
    hide Fields, SwapAll, FieldAt, FixedSize, AspaSize, Big, Host;
    forall at: nat | FieldAt(t, v, len, at) && at + 4 <= |b|
      ensures var r := SwapAll(b, fs, little); Big(r, at) == Host(b, at, little) && Host(r, at, little) == Big(b, at)
    {
      FieldsAreThose(t, v, b[2], len, at);
      var k :| 0 <= k < |fs| && fs[k] == at;
      SwapAllReads(b, fs, little, k);
    }
    forall i | 0 <= i < |b| && (forall at: nat :: FieldAt(t, v, len, at) ==> !(at <= i < at + 4))
      ensures SwapAll(b, fs, little)[i] == b[i]
    {
      forall k | 0 <= k < |fs| ensures !(fs[k] <= i < fs[k] + 4) { FieldsAreThose(t, v, b[2], len, fs[k]); }
      SwapAllKeeps(b, fs, little, i);
    }
  }

  /** The 16 bits at offset 2: session id, error code or zero. */
  function Big2(b: seq<nat>, at: nat): nat
    requires at + 2 <= |b|
  {
    b[at] * 256 + b[at + 1]
  }

  function Host2(b: seq<nat>, at: nat, little: bool): nat
    requires at + 2 <= |b|
  {
    if little then b[at + 1] * 256 + b[at] else b[at] * 256 + b[at + 1]
  }

  /** The header: version and type stay, the length changes its order, and so does the
      16-bit field of every type but Router Key (9) and ASPA (11), which have two octets. */
  lemma HeaderOnWire(b: seq<nat>, little: bool)
    requires |b| >= 8
    ensures var r := ConvertHeader(b, little);
            && r[0] == b[0] && r[1] == b[1] && Big(r, 4) == Host(b, 4, little) && Host(r, 4, little) == Big(b, 4)
            && (if b[1] == 9 || b[1] == 11 then r[2] == b[2] && r[3] == b[3]
                else Big2(r, 2) == Host2(b, 2, little) && Host2(r, 2, little) == Big2(b, 2))
            && r[8..] == b[8..]
  {
    HeaderTwice(b, little);
    assert forall i :: 8 <= i < |b| ==> ConvertHeader(b, little)[i] == b[i];
  }

  /** Main result for sending. Each field of a well-sized PDU is big-endian on the wire, and
      every other octet is sent as it is. */
  lemma SentInNetworkOrder(b: seq<nat>, little: bool)
    requires WellSized(b, little) && b[1] != 10
    ensures var n := ToNetwork(b, little);
            && |n| == |b| && n[0] == b[0] && n[1] == b[1] && Big(n, 4) == |b|
            && (if b[1] == 9 || b[1] == 11 then n[2] == b[2] && n[3] == b[3] else Big2(n, 2) == Host2(b, 2, little))
            && (forall at: nat :: FieldAt(b[1], b[0], |b|, at) ==> at + 4 <= |b| && Big(n, at) == Host(b, at, little))
            && (forall i :: 8 <= i < |b| && (forall at: nat :: FieldAt(b[1], b[0], |b|, at) ==> !(at <= i < at + 4)) ==> n[i] == b[i])
  {
    FieldsFit(b[1], b[0], b[2], |b|);
    FieldsConverted(b, little);
    var f := FooterToNetwork(b, little);
    hide Fields, SwapAll, FieldAt, FixedSize, AspaSize, Big, Host, ConvertHeader;
    HeaderKept(b, little);
    HeaderOnWire(f, little);
    SameReads(b, f, 4, little);
    forall at: nat | FieldAt(b[1], b[0], |b|, at)
      ensures at + 4 <= |b| && Big(ConvertHeader(f, little), at) == Host(b, at, little)
    {
      FieldsInside(b[1], b[0], b[2], |b|, at);
      TailReads(ConvertHeader(f, little), f, at);
    }
    forall i | 8 <= i < |b| ensures ConvertHeader(f, little)[i] == f[i] {
      assert ConvertHeader(f, little)[8..][i - 8] == f[8..][i - 8];
    }
  }

  /** No field reaches into the header. */
  lemma HeaderKept(b: seq<nat>, little: bool)
    requires WellSized(b, little) && b[1] != 10
    ensures var f := FooterToNetwork(b, little); forall i :: 0 <= i < 8 ==> f[i] == b[i]
  {
    FieldsFit(b[1], b[0], b[2], |b|);
    SwapAllHeader(b, Fields(b[1], b[0], |b|), little);
  }

  lemma SameReads(b: seq<nat>, f: seq<nat>, at: nat, little: bool)
    requires at + 4 <= |b| == |f| && forall i :: at <= i < at + 4 ==> f[i] == b[i]
    ensures Host(f, at, little) == Host(b, at, little) && Big(f, at) == Big(b, at)
  {
  }

  lemma TailReads(r: seq<nat>, f: seq<nat>, at: nat)
    requires 8 <= at && at + 4 <= |r| == |f| && r[8..] == f[8..]
    ensures Big(r, at) == Big(f, at)
  {
    assert forall i :: at <= i < at + 4 ==> r[i] == r[8..][i - 8] && f[i] == f[8..][i - 8];
  }

  /** Main result for receiving, after the header was converted and the size checked. */
  lemma ReceivedInHostOrder(b: seq<nat>, little: bool)
    requires CheckSize(b, little) && b[1] != 10
    ensures var h := FooterToHost(b, little);
            && |h| == |b|
            && (forall at: nat :: FieldAt(b[1], b[0], |b|, at) ==> at + 4 <= |b| && Host(h, at, little) == Big(b, at))
            && (forall i :: 0 <= i < |b| && (forall at: nat :: FieldAt(b[1], b[0], |b|, at) ==> !(at <= i < at + 4)) ==> h[i] == b[i])
  {
    FieldsFit(b[1], b[0], b[2], |b|);
    FieldsConverted(b, little);
    hide Fields, SwapAll, FieldAt, FixedSize, AspaSize, Big, Host;
    forall at: nat | FieldAt(b[1], b[0], |b|, at)
      ensures at + 4 <= |b| && Host(FooterToHost(b, little), at, little) == Big(b, at)
    {
      FieldsInside(b[1], b[0], b[2], |b|, at);
    }
  }

  /** The two lengths of an error PDU, before the header is converted. */
  lemma ErrorFooter(b: seq<nat>, little: bool)
    requires WellSized(b, little) && b[1] == 10
    ensures var f := FooterToNetwork(b, little); var enc := Host(b, 8, little);
            && |f| == |b| && 12 + enc + 4 <= |b| && Big(f, 8) == enc && Big(f, 12 + enc) == Host(b, 12 + enc, little)
            && (forall i :: 0 <= i < |b| && !(8 <= i < 12) && !(12 + enc <= i < 12 + enc + 4) ==> f[i] == b[i])
  {
    var at := 12 + Host(b, 8, little);
    var once := Swap4(b, at, little);
    SwapTwice(b, at, little);
    SwapTwice(once, 8, little);
    SwapsCommute(b, at, 8, little);
    SwapsCommute(once, 8, at, little);
    hide Big, Host, Swap4;
  }

  /** The error PDU: octets 8 to 11 hold the length of the encapsulated PDU, and the four
      octets behind that PDU the length of the text. */
  lemma ErrorInNetworkOrder(b: seq<nat>, little: bool)
    requires WellSized(b, little) && b[1] == 10
    ensures var n := ToNetwork(b, little); var enc := Host(b, 8, little);
            && |n| == |b| && n[0] == b[0] && n[1] == 10 && Big(n, 4) == |b| && Big2(n, 2) == Host2(b, 2, little)
            && 12 + enc + 4 <= |b| && Big(n, 8) == enc && Big(n, 12 + enc) == Host(b, 12 + enc, little)
            && (forall i :: 12 <= i < |b| && !(12 + enc <= i < 12 + enc + 4) ==> n[i] == b[i])
  {
    var f := FooterToNetwork(b, little);
    ErrorFooter(b, little);
    HeaderOnWire(f, little);
    hide Big, Host, ConvertHeader, FooterToNetwork;
    SameReads(b, f, 4, little);
    TailReads(ConvertHeader(f, little), f, 8);
    TailReads(ConvertHeader(f, little), f, 12 + Host(b, 8, little));
    forall i | 8 <= i < |b| ensures ConvertHeader(f, little)[i] == f[i] {
      assert ConvertHeader(f, little)[8..][i - 8] == f[8..][i - 8];
    }
  }

  lemma ErrorInHostOrder(b: seq<nat>, little: bool)
    requires CheckSize(b, little) && b[1] == 10
    ensures var h := FooterToHost(b, little); var enc := Big(b, 8);
            && |h| == |b| && 12 + enc + 4 <= |b|
            && Host(h, 8, little) == enc && Host(h, 12 + enc, little) == Big(b, 12 + enc)
            && (forall i :: 0 <= i < |b| && !(8 <= i < 12) && !(12 + enc <= i < 12 + enc + 4) ==> h[i] == b[i])
  {
    var once := Swap4(b, 8, little);
    SwapTwice(b, 8, little);
    var at := 12 + Big(b, 8);
    SwapsCommute(b, 8, at, little);
    SwapTwice(once, at, little);
    SwapsCommute(once, at, 8, little);
  }

  // ----- Which PDUs pass -----

  /** The sizes that section 5 gives each type. */
  predicate SizeOfType(b: seq<nat>)
    requires |b| >= 8
  {
    || ((b[1] == 0 || b[1] == 1) && |b| == 12)
    || ((b[1] == 2 || b[1] == 3 || b[1] == 8) && |b| == 8)
    || (b[1] == 4 && |b| == 20)
    || (b[1] == 6 && |b| == 32)
    || (b[1] == 7 && b[0] == 0 && |b| == 12)
    || (b[1] == 7 && (b[0] == 1 || b[0] == 2) && |b| == 24)
    || (b[1] == 9 && |b| == 123)
    || (b[1] == 10 && |b| >= 16 && 16 + Big(b, 8) <= |b| && 16 + Big(b, 8) + Big(b, 12 + Big(b, 8)) == |b|)
    || (b[1] == 11 && |b| >= 12 && (b[2] % 2 == 1 || |b| == 12))
  }

  /** Which PDUs pass the size check, once their header is in host order. */
  lemma PassesIff(b: seq<nat>, little: bool)
    ensures CheckSize(b, little) <==> |b| >= 8 && Host(b, 4, little) == |b| <= 65535 && SizeOfType(b)
  {
  }

  // ----- The queries -----

  /** The structure that rtr_send_serial_query fills. */
  function SerialQueryPdu(version: nat, session: nat, serial: nat, little: bool): seq<nat> {
    [version, SERIAL_QUERY] + Encode2(session, little) + Encode4(12, little) + Encode4(serial, little)
  }

  /** The structure that rtr_send_reset_query fills. */
  function ResetQueryPdu(version: nat, little: bool): seq<nat> {
    [version, RESET_QUERY] + Encode2(0, little) + Encode4(8, little)
  }

  lemma SerialQueryBytes(version: nat, session: nat, serial: nat, little: bool)
    ensures var q := SerialQueryPdu(version, session, serial, little);
            var a, b, c, d := serial / 0x100_0000 % 256, serial / 0x1_0000 % 256, serial / 0x100 % 256, serial % 256;
            q == if little then [version, 1, session % 256, session / 256 % 256, 12, 0, 0, 0, d, c, b, a]
                 else [version, 1, session / 256 % 256, session % 256, 0, 0, 0, 12, a, b, c, d]
  {
  }

  /** What a cache reads: the session id in octets 2 and 3, the serial number in octets 8 to
      11, most significant octet first. */
  lemma SerialQueryOnWire(version: nat, session: nat, serial: nat, little: bool)
    requires version < 256 && session < 65536 && serial < 0x1_0000_0000
    ensures var q := SerialQueryPdu(version, session, serial, little);
            && WellSized(q, little)
            && ToNetwork(q, little) == [version, 1, session / 256, session % 256, 0, 0, 0, 12,
                                        serial / 0x100_0000, serial / 0x1_0000 % 256, serial / 0x100 % 256, serial % 256]
  {
    var q := SerialQueryPdu(version, session, serial, little);
    SerialQueryBytes(version, session, serial, little);
    hide SerialQueryPdu;
    assert Host(q, 4, little) == 12;
    assert serial / 0x100_0000 % 256 == serial / 0x100_0000 && session / 256 % 256 == session / 256;
    OneField(q, little);
  }

  lemma OneField(q: seq<nat>, little: bool)
    requires |q| >= 12
    ensures SwapAll(q, [8], little) == Swap4(q, 8, little)
  {
    assert [8][1..] == [];
  }

  lemma ResetQueryOnWire(version: nat, little: bool)
    requires version < 256
    ensures var q := ResetQueryPdu(version, little);
            WellSized(q, little) && ToNetwork(q, little) == [version, 2, 0, 0, 0, 0, 0, 8]
  {
    var q := ResetQueryPdu(version, little);
    assert q[2..4] == Encode2(0, little) && q[4..8] == Encode4(8, little);
    assert q[2] == q[2..4][0] && q[3] == q[2..4][1];
    assert q[4] == q[4..8][0] && q[5] == q[4..8][1] && q[6] == q[4..8][2] && q[7] == q[4..8][3];
    assert Host(q, 4, little) == 8;
    assert SwapAll(q, [], little) == q;
  }

  /** As much of the erroneous PDU as 65535 octets have room for, and the whole text. */
  lemma ErrorPduHolds(version: nat, code: nat, pdu: seq<nat>, text: seq<nat>, little: bool)
    requires |text| + 20 <= 65535
    ensures var m := ErrorPdu(version, code, pdu, text, little); var whole := 16 + |pdu| + |text|;
            && |m| == (if whole <= 65535 then whole else 65535)
            && |m| >= 16 + |text| && m[12..|m| - 4 - |text|] <= pdu && m[|m| - |text|..] == text
  {
    ErrorPduContents(version, code, pdu, text, little);
    hide ErrorPdu;
  }

  /** The fields of an error PDU besides its two lengths, which ErrorPduLengths gives. */
  lemma ErrorPduOnWire(version: nat, code: nat, pdu: seq<nat>, text: seq<nat>, little: bool)
    requires |text| + 20 <= 65535 && code < 65536
    ensures var m := ErrorPdu(version, code, pdu, text, little);
            WellSized(m, little) && m[0] == version && m[1] == 10 && Big2(ToNetwork(m, little), 2) == code
  {
    ErrorPduPasses(version, code, pdu, text, little);
    ErrorHead(version, code, pdu, text, little);
    hide ErrorPdu, WellSized, ToNetwork, Big, Host;
    ErrorInNetworkOrder(ErrorPdu(version, code, pdu, text, little), little);
  }

  lemma ErrorHead(version: nat, code: nat, pdu: seq<nat>, text: seq<nat>, little: bool)
    requires |text| + 20 <= 65535 && code < 65536
    ensures var m := ErrorPdu(version, code, pdu, text, little);
            |m| >= 4 && m[0] == version && m[1] == 10 && Host2(m, 2, little) == code
  {
    hide Encode4;
    var m := ErrorPdu(version, code, pdu, text, little);
    assert m[2..4] == Encode2(code, little);
    assert m[2] == m[2..4][0] && m[3] == m[2..4][1];
  }
}
