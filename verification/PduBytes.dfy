/** PDUs as bytes (rtrlib/rtr/packets.c): byte order, the size check and the error PDU. The
    host is little-endian or big-endian. */
module PduBytes {

  const SERIAL_NOTIFY: nat := 0
  const SERIAL_QUERY: nat := 1
  const RESET_QUERY: nat := 2
  const CACHE_RESPONSE: nat := 3
  const IPV4_PREFIX: nat := 4
  const IPV6_PREFIX: nat := 6
  const EOD: nat := 7
  const CACHE_RESET: nat := 8
  const ROUTER_KEY: nat := 9
  const ERROR: nat := 10
  const ASPA: nat := 11

  const HEADER: nat := 8
  const MAX_PDU_LEN: nat := 65535
  const ERRONEOUS_PDU_MIN_LEN: nat := 4

  ghost predicate Bytes(b: seq<nat>) {
    forall i :: 0 <= i < |b| ==> b[i] < 256
  }

  // ----- Numbers in a buffer -----

  function Big(b: seq<nat>, at: nat): nat
    requires at + 4 <= |b|
  {
    b[at] * 0x100_0000 + b[at + 1] * 0x1_0000 + b[at + 2] * 0x100 + b[at + 3]
  }

  function Little(b: seq<nat>, at: nat): nat
    requires at + 4 <= |b|
  {
    b[at + 3] * 0x100_0000 + b[at + 2] * 0x1_0000 + b[at + 1] * 0x100 + b[at]
  }

  /** A 32-bit field as the host reads it. */
  function Host(b: seq<nat>, at: nat, little: bool): nat
    requires at + 4 <= |b|
  {
    if little then Little(b, at) else Big(b, at)
  }

  /** rtr_convert_long of a field: htonl and ntohl are the same. */
  function Swap4(b: seq<nat>, at: nat, little: bool): (r: seq<nat>)
    requires at + 4 <= |b|
    ensures |r| == |b|
    ensures forall i :: 0 <= i < |b| && !(at <= i < at + 4) ==> r[i] == b[i]
  {
    if little then b[at := b[at + 3]][at + 1 := b[at + 2]][at + 2 := b[at + 1]][at + 3 := b[at]] else b
  }

  function Swap2(b: seq<nat>, at: nat, little: bool): (r: seq<nat>)
    requires at + 2 <= |b|
    ensures |r| == |b|
    ensures forall i :: 0 <= i < |b| && !(at <= i < at + 2) ==> r[i] == b[i]
  {
    if little then b[at := b[at + 1]][at + 1 := b[at]] else b
  }

  lemma SwapTwice(b: seq<nat>, at: nat, little: bool)
    requires at + 4 <= |b|
    ensures Swap4(Swap4(b, at, little), at, little) == b
    ensures Big(Swap4(b, at, little), at) == Host(b, at, little)
    ensures Host(Swap4(b, at, little), at, little) == Big(b, at)
  {
  }

  /** Fields that do not overlap can be converted in any order. */
  lemma SwapsCommute(b: seq<nat>, at: nat, at': nat, little: bool)
    requires at + 4 <= |b| && at' + 4 <= |b| && (at + 4 <= at' || at' + 4 <= at)
    ensures Swap4(Swap4(b, at, little), at', little) == Swap4(Swap4(b, at', little), at, little)
    ensures Host(Swap4(b, at, little), at', little) == Host(b, at', little)
    ensures Big(Swap4(b, at, little), at') == Big(b, at')
  {
  }

  /** The fields lie between two offsets. */
  ghost predicate Within(fields: seq<nat>, lo: nat, hi: nat) {
    forall i :: 0 <= i < |fields| ==> lo <= fields[i] && fields[i] + 4 <= hi
  }

  /** Converting several fields. */
  function SwapAll(b: seq<nat>, fields: seq<nat>, little: bool): (r: seq<nat>)
    requires Within(fields, 0, |b|)
    ensures |r| == |b|
    decreases fields
  {
    if fields == [] then b else SwapAll(Swap4(b, fields[0], little), fields[1..], little)
  }

  ghost predicate Apart(fields: seq<nat>) {
    forall i, j :: 0 <= i < j < |fields| ==> fields[i] + 4 <= fields[j]
  }

  lemma {:induction false} SwapAllCommutes(b: seq<nat>, f: nat, fields: seq<nat>, little: bool)
    requires f + 4 <= |b| && Within(fields, f + 4, |b|)
    ensures SwapAll(Swap4(b, f, little), fields, little) == Swap4(SwapAll(b, fields, little), f, little)
    decreases fields
  {
    if fields != [] {
      hide Swap4;
      SwapsCommute(b, f, fields[0], little);
      SwapAllCommutes(Swap4(b, fields[0], little), f, fields[1..], little);
    }
  }

  lemma {:induction false} SwapAllTwice(b: seq<nat>, fields: seq<nat>, little: bool)
    requires Apart(fields) && Within(fields, 0, |b|)
    ensures SwapAll(SwapAll(b, fields, little), fields, little) == b
    decreases fields
  {
    if fields != [] {
      hide Swap4;
      var f, rest := fields[0], fields[1..];
      var once := SwapAll(Swap4(b, f, little), rest, little);
      assert Within(rest, f + 4, |b|);
      SwapAllCommutes(b, f, rest, little);
      SwapTwice(SwapAll(b, rest, little), f, little);
      assert Swap4(once, f, little) == SwapAll(b, rest, little);
      SwapAllTwice(b, rest, little);
    }
  }

  lemma {:induction false} SwapAllKeeps(b: seq<nat>, fields: seq<nat>, little: bool, i: nat)
    requires Within(fields, 0, |b|) && i < |b| && forall k :: 0 <= k < |fields| ==> !(fields[k] <= i < fields[k] + 4)
    ensures SwapAll(b, fields, little)[i] == b[i]
    decreases fields
  {
    if fields != [] { SwapAllKeeps(Swap4(b, fields[0], little), fields[1..], little, i); }
  }

  // ----- The fields of each type -----

  function Consecutive(at: nat, count: nat): (r: seq<nat>)
    ensures |r| == count && forall i :: 0 <= i < count ==> r[i] == at + 4 * i
  {
    seq(count, i => at + 4 * i)
  }

  /** rtr_aspa_provider_count. */
  function ProviderCount(len: nat): nat
    requires len >= 12
  {
    (len - 12) / 4
  }

  predicate Known(t: nat) {
    t <= ASPA && t != 5
  }

  /** The 32-bit fields after the header, but those of an error PDU. */
  function Fields(t: nat, version: nat, len: nat): seq<nat> {
    if t == SERIAL_QUERY || t == SERIAL_NOTIFY then [8]
    else if t == EOD then if version == 1 || version == 2 then [8, 12, 16, 20] else [8]
    else if t == IPV4_PREFIX then [12, 16]
    else if t == IPV6_PREFIX then [12, 16, 20, 24, 28]
    else if t == ROUTER_KEY then [28]
    else if t == ASPA && len >= 12 then [8] + Consecutive(12, ProviderCount(len))
    else []
  }

  /** The size each type must have. */
  predicate FixedSize(t: nat, version: nat, len: nat) {
    if t == SERIAL_NOTIFY || t == SERIAL_QUERY then len == 12
    else if t == CACHE_RESPONSE || t == CACHE_RESET || t == RESET_QUERY then len == 8
    else if t == IPV4_PREFIX then len == 20
    else if t == IPV6_PREFIX then len == 32
    else if t == EOD then (version == 0 && len == 12) || ((version == 1 || version == 2) && len == 24)
    else if t == ROUTER_KEY then len == 123
    else false
  }

  predicate AspaSize(flags: nat, len: nat) {
    len >= 12 && (flags % 2 == 0 ==> len == 12)
  }

  lemma FieldsFit(t: nat, version: nat, flags: nat, len: nat)
    requires FixedSize(t, version, len) || (t == ASPA && AspaSize(flags, len))
    ensures var fs := Fields(t, version, len); Apart(fs) && Within(fs, 8, len)
  {
    if t == ASPA {
      var n := ProviderCount(len);
      var fs := [8] + Consecutive(12, n);
      assert 12 + 4 * n <= len;
      forall i | 0 <= i < |fs| ensures fs[i] == 8 + 4 * i && fs[i] + 4 <= len {
        if i > 0 { assert fs[i] == Consecutive(12, n)[i - 1]; }
      }
    }
  }

  // ----- Converting whole PDUs -----

  /** Offset of the length of the error text. */
  const REST: nat := 12

  /** rtr_pdu_convert_header_byte_order. */
  function ConvertHeader(b: seq<nat>, little: bool): (r: seq<nat>)
    requires |b| >= HEADER
    ensures |r| == |b| && r[0] == b[0] && r[1] == b[1]
  {
    var r := if b[1] != ROUTER_KEY && b[1] != ASPA then Swap2(b, 2, little) else b;
    Swap4(r, 4, little)
  }

  lemma HeaderTwice(b: seq<nat>, little: bool)
    requires |b| >= HEADER
    ensures ConvertHeader(ConvertHeader(b, little), little) == b
    ensures Host(ConvertHeader(b, little), 4, little) == Big(b, 4)
    ensures Big(ConvertHeader(b, little), 4) == Host(b, 4, little)
    ensures forall i :: 8 <= i < |b| ==> ConvertHeader(b, little)[i] == b[i]
  {
  }

  /** The nested lengths of an error PDU, as numbers. */
  predicate ErrorSize(enc: nat, text: nat, len: nat) {
    REST + enc + 4 + text == len
  }

  /** A PDU in host byte order whose lengths are right. */
  predicate WellSized(b: seq<nat>, little: bool) {
    && |b| >= HEADER && Host(b, 4, little) == |b| <= MAX_PDU_LEN && Known(b[1])
    && if b[1] == ERROR then
         |b| >= REST + 4 && REST + Host(b, 8, little) + 4 <= |b|
         && ErrorSize(Host(b, 8, little), Host(b, REST + Host(b, 8, little), little), |b|)
       else if b[1] == ASPA then AspaSize(b[2], |b|)
       else FixedSize(b[1], b[0], |b|)
  }

  /** rtr_pdu_convert_footer_byte_order to network order: the length of the error text is
      found with the host's length of the encapsulated PDU. */
  function FooterToNetwork(b: seq<nat>, little: bool): (r: seq<nat>)
    requires WellSized(b, little)
    ensures |r| == |b|
  {
    if b[1] == ERROR then Swap4(Swap4(b, REST + Host(b, 8, little), little), 8, little)
    else
      FieldsFit(b[1], b[0], b[2], |b|);
      SwapAll(b, Fields(b[1], b[0], |b|), little)
  }

  function ToNetwork(b: seq<nat>, little: bool): (r: seq<nat>)
    requires WellSized(b, little)
    ensures |r| == |b|
  {
    ConvertHeader(FooterToNetwork(b, little), little)
  }

  /** rtr_pdu_check_size, on a PDU whose header is in host order and the rest is not. */
  predicate CheckSize(b: seq<nat>, little: bool) {
    && |b| >= HEADER && Host(b, 4, little) == |b| <= MAX_PDU_LEN
    && if b[1] == ERROR then
         |b| >= REST + 4 && REST + 4 + Big(b, 8) <= |b| && ErrorSize(Big(b, 8), Big(b, REST + Big(b, 8)), |b|)
       else if b[1] == ASPA then AspaSize(b[2], |b|)
       else FixedSize(b[1], b[0], |b|)
  }

  /** rtr_pdu_convert_footer_byte_order to host order. */
  function FooterToHost(b: seq<nat>, little: bool): (r: seq<nat>)
    requires CheckSize(b, little)
    ensures |r| == |b|
  {
    if b[1] == ERROR then
      var r := Swap4(b, 8, little);
      SwapTwice(b, 8, little);
      Swap4(r, REST + Host(r, 8, little), little)
    else
      FieldsFit(b[1], b[0], b[2], |b|);
      SwapAll(b, Fields(b[1], b[0], |b|), little)
  }

  // ----- What is sent is received -----

  /** The header is not touched by the rest of the conversion. */
  lemma {:induction false} SwapAllHeader(b: seq<nat>, fields: seq<nat>, little: bool)
    requires |b| >= HEADER && Within(fields, 8, |b|)
    ensures forall i :: 0 <= i < HEADER ==> SwapAll(b, fields, little)[i] == b[i]
  {
    forall i | 0 <= i < HEADER ensures SwapAll(b, fields, little)[i] == b[i] { SwapAllKeeps(b, fields, little, i); }
  }

  /** A receiver's size check accepts every well-sized PDU after its header is converted. */
  lemma WellSizedPasses(b: seq<nat>, little: bool)
    requires WellSized(b, little)
    ensures var net := FooterToNetwork(b, little);
            ConvertHeader(ToNetwork(b, little), little) == net && CheckSize(net, little)
  {
    var net := FooterToNetwork(b, little);
    HeaderTwice(net, little);
    if b[1] == ERROR {
      var at := REST + Host(b, 8, little);
      var once := Swap4(b, at, little);
      SwapTwice(b, at, little);
      SwapsCommute(b, at, 8, little);
      SwapTwice(once, 8, little);
      SwapsCommute(once, 8, at, little);
      assert forall i :: 0 <= i < HEADER ==> net[i] == b[i];
    } else {
      FieldsFit(b[1], b[0], b[2], |b|);
      SwapAllHeader(b, Fields(b[1], b[0], |b|), little);
    }
  }

  /** Main result: host to network and back is the identity, for every type. */
  lemma ByteOrderRoundTrip(b: seq<nat>, little: bool)
    requires WellSized(b, little)
    ensures var received := ConvertHeader(ToNetwork(b, little), little);
            CheckSize(received, little) && FooterToHost(received, little) == b
  {
    WellSizedPasses(b, little);
    var net := FooterToNetwork(b, little);
    if b[1] == ERROR {
      var at := REST + Host(b, 8, little);
      var once := Swap4(b, at, little);
      hide CheckSize, WellSized;
      SwapTwice(once, 8, little);
      SwapsCommute(b, at, 8, little);
      SwapTwice(b, at, little);
    } else {
      FieldsFit(b[1], b[0], b[2], |b|);
      SwapAllHeader(b, Fields(b[1], b[0], |b|), little);
      SwapAllTwice(b, Fields(b[1], b[0], |b|), little);
    }
  }

  /** Whatever passes the size check is a well-sized PDU once it is converted: its type is
      known and every nested length lies inside the PDU. */
  lemma PassedIsWellSized(b: seq<nat>, little: bool)
    requires CheckSize(b, little)
    ensures WellSized(FooterToHost(b, little), little)
  {
    var h := FooterToHost(b, little);
    if b[1] == ERROR {
      var once := Swap4(b, 8, little);
      SwapTwice(b, 8, little);
      var at := REST + Host(once, 8, little);
      SwapsCommute(b, 8, at, little);
      SwapTwice(once, at, little);
      SwapsCommute(once, at, 8, little);
      assert forall i :: 0 <= i < HEADER ==> h[i] == b[i];
    } else {
      FieldsFit(b[1], b[0], b[2], |b|);
      SwapAllHeader(b, Fields(b[1], b[0], |b|), little);
    }
  }

  // ----- rtr_send_error_pdu -----

  function Encode4(x: nat, little: bool): (r: seq<nat>)
    ensures |r| == 4
  {
    var big := [x / 0x100_0000 % 256, x / 0x1_0000 % 256, x / 0x100 % 256, x % 256];
    if little then [big[3], big[2], big[1], big[0]] else big
  }

  function Encode2(x: nat, little: bool): (r: seq<nat>)
    ensures |r| == 2
  {
    if little then [x % 256, x / 256 % 256] else [x / 256 % 256, x % 256]
  }

  lemma Encode4Reads(x: nat, little: bool, before: seq<nat>, after: seq<nat>)
    requires x < 0x1_0000_0000
    ensures Host(before + Encode4(x, little) + after, |before|, little) == x
  {
    var b := before + Encode4(x, little) + after;
    var e := Encode4(x, little);
    assert b[|before|] == e[0] && b[|before| + 1] == e[1] && b[|before| + 2] == e[2] && b[|before| + 3] == e[3];
    FourBytes(x);
  }

  lemma FourBytes(x: nat)
    requires x < 0x1_0000_0000
    ensures x == (x / 0x100_0000 % 256) * 0x100_0000 + (x / 0x1_0000 % 256) * 0x1_0000 + (x / 0x100 % 256) * 0x100 + x % 256
  {
    assert x / 0x100 / 0x100 == x / 0x1_0000 && x / 0x1_0000 / 0x100 == x / 0x100_0000;
  }

  /** How much of the erroneous PDU fits. */
  function Kept(pdu: nat, text: nat): nat
    requires text + REST + 4 + ERRONEOUS_PDU_MIN_LEN <= MAX_PDU_LEN
  {
    var size := REST + 4 + pdu + text;
    if size > MAX_PDU_LEN then pdu - (size - MAX_PDU_LEN) else pdu
  }

  /** The message, in host order. */
  function ErrorPdu(version: nat, code: nat, pdu: seq<nat>, text: seq<nat>, little: bool): seq<nat>
    requires |text| + REST + 4 + ERRONEOUS_PDU_MIN_LEN <= MAX_PDU_LEN
  {
    var kept := pdu[..Kept(|pdu|, |text|)];
    var size := REST + 4 + |kept| + |text|;
    [version, ERROR] + Encode2(code, little) + Encode4(size, little) + Encode4(|kept|, little)
      + kept + Encode4(|text|, little) + text
  }

  /** It carries the whole text and as much of the erroneous PDU as there is room for. */
  lemma ErrorPduContents(version: nat, code: nat, pdu: seq<nat>, text: seq<nat>, little: bool)
    requires |text| + REST + 4 + ERRONEOUS_PDU_MIN_LEN <= MAX_PDU_LEN
    ensures var m := ErrorPdu(version, code, pdu, text, little); var n := Kept(|pdu|, |text|);
            && |m| == REST + n + 4 + |text| <= MAX_PDU_LEN && m[1] == ERROR
            && m[REST..REST + n] == pdu[..n] && m[REST + n + 4..] == text
            && (n == |pdu| || (|m| == MAX_PDU_LEN && n >= ERRONEOUS_PDU_MIN_LEN))
  {
    hide Encode2, Encode4;
    var kept := pdu[..Kept(|pdu|, |text|)];
    var size := REST + 4 + |kept| + |text|;
    var m := ErrorPdu(version, code, pdu, text, little);
    var head := [version, ERROR] + Encode2(code, little) + Encode4(size, little) + Encode4(|kept|, little);
    assert |head| == REST;
    assert m == head + kept + Encode4(|text|, little) + text;
  }

  lemma ErrorPduLengths(version: nat, code: nat, pdu: seq<nat>, text: seq<nat>, little: bool)
    requires |text| + REST + 4 + ERRONEOUS_PDU_MIN_LEN <= MAX_PDU_LEN
    ensures var m := ErrorPdu(version, code, pdu, text, little); var n := Kept(|pdu|, |text|);
            && |m| == REST + n + 4 + |text|
            && Host(m, 4, little) == |m| && Host(m, 8, little) == n && Host(m, REST + n, little) == |text|
  {
    ErrorPduContents(version, code, pdu, text, little);
    var n := Kept(|pdu|, |text|);
    var kept := pdu[..n];
    var size := REST + 4 + |kept| + |text|;
    var m := ErrorPdu(version, code, pdu, text, little);
    hide Encode2, Encode4, Host;
    var head := [version, ERROR] + Encode2(code, little);
    var tail := Encode4(|text|, little) + text;
    var head8 := head + Encode4(size, little);
    var head12 := head8 + Encode4(|kept|, little) + kept;
    Encode4Reads(size, little, head, Encode4(|kept|, little) + kept + tail);
    Encode4Reads(|kept|, little, head8, kept + tail);
    Encode4Reads(|text|, little, head12, text);
    Regroup(head, Encode4(size, little), Encode4(|kept|, little), kept, Encode4(|text|, little), text);
  }

  lemma Regroup(a: seq<nat>, b: seq<nat>, c: seq<nat>, d: seq<nat>, e: seq<nat>, f: seq<nat>)
    ensures a + b + c + d + e + f == a + b + (c + d + (e + f))
    ensures a + b + c + d + e + f == (a + b) + c + (d + (e + f))
    ensures a + b + c + d + e + f == ((a + b) + c + d) + e + f
  {
  }

  /** Every error PDU, truncated or not, fits a PDU, is well-sized and so passes the check of
      whoever receives it. */
  lemma ErrorPduPasses(version: nat, code: nat, pdu: seq<nat>, text: seq<nat>, little: bool)
    requires |text| + REST + 4 + ERRONEOUS_PDU_MIN_LEN <= MAX_PDU_LEN
    ensures var m := ErrorPdu(version, code, pdu, text, little);
            && |m| <= MAX_PDU_LEN && WellSized(m, little)
            && CheckSize(ConvertHeader(ToNetwork(m, little), little), little)
  {
    hide ErrorPdu, Host;
    ErrorPduContents(version, code, pdu, text, little);
    ErrorPduLengths(version, code, pdu, text, little);
    WellSizedPasses(ErrorPdu(version, code, pdu, text, little), little);
  }

  datatype Reply = Silent | Message(bytes: seq<nat>)

  /** rtr_send_error_pdu: what is sent for an erroneous PDU. */
  function ReplyTo(version: nat, code: nat, pdu: seq<nat>, text: seq<nat>, little: bool): Reply
    requires |text| + REST + 4 + ERRONEOUS_PDU_MIN_LEN <= MAX_PDU_LEN
  {
    var kept := pdu[..Kept(|pdu|, |text|)];
    if |kept| >= 2 && kept[1] == ERROR then Silent else Message(ErrorPdu(version, code, pdu, text, little))
  }

  /** Nothing is sent if and only if the erroneous PDU is an error PDU, however much of it is
      cut off. What is sent is an error PDU that passes the receiver's check and is not
      answered in turn: no two peers keep exchanging error PDUs. */
  lemma ErrorsEnd(version: nat, code: nat, pdu: seq<nat>, text: seq<nat>, little: bool)
    requires |text| + REST + 4 + ERRONEOUS_PDU_MIN_LEN <= MAX_PDU_LEN
    ensures var r := ReplyTo(version, code, pdu, text, little);
            && (r.Silent? <==> |pdu| >= 2 && pdu[1] == ERROR)
            && (r.Message? ==>
                && |r.bytes| <= MAX_PDU_LEN && WellSized(r.bytes, little)
                && CheckSize(ConvertHeader(ToNetwork(r.bytes, little), little), little)
                && ReplyTo(version, code, r.bytes, text, little) == Silent)
  {
    hide ErrorPdu, Host, WellSized, CheckSize, ConvertHeader, ToNetwork;
    ErrorPduContents(version, code, pdu, text, little);
    ErrorPduPasses(version, code, pdu, text, little);
    ErrorPduContents(version, code, ErrorPdu(version, code, pdu, text, little), text, little);
  }

  // ----- In place, as the buffers are converted -----

  method SwapField(buf: array<nat>, at: nat, little: bool)
    requires at + 4 <= buf.Length
    modifies buf
    ensures buf[..] == Swap4(old(buf[..]), at, little)
  {
    if little {
      buf[at], buf[at + 1], buf[at + 2], buf[at + 3] := buf[at + 3], buf[at + 2], buf[at + 1], buf[at];
    }
  }

  method SwapFields(buf: array<nat>, fields: seq<nat>, little: bool)
    requires Within(fields, 0, buf.Length)
    modifies buf
    ensures buf[..] == SwapAll(old(buf[..]), fields, little)
  {
    hide Swap4;
    var i := 0;
    assert fields[0..] == fields;
    while i < |fields|
      invariant i <= |fields| && SwapAll(buf[..], fields[i..], little) == SwapAll(old(buf[..]), fields, little)
    {
      assert fields[i..][1..] == fields[i + 1..];
      SwapField(buf, fields[i], little);
      i := i + 1;
    }
    assert fields[i..] == [];
  }

  method ConvertHeaderOf(buf: array<nat>, little: bool)
    requires buf.Length >= HEADER
    modifies buf
    ensures buf[..] == ConvertHeader(old(buf[..]), little)
  {
    if buf[1] != ROUTER_KEY && buf[1] != ASPA && little {
      buf[2], buf[3] := buf[3], buf[2];
    }
    SwapField(buf, 4, little);
  }

  method ReadField(buf: array<nat>, at: nat, little: bool) returns (x: nat)
    requires at + 4 <= buf.Length
    ensures x == Host(buf[..], at, little)
  {
    x := if little then buf[at + 3] * 0x100_0000 + buf[at + 2] * 0x1_0000 + buf[at + 1] * 0x100 + buf[at]
         else buf[at] * 0x100_0000 + buf[at + 1] * 0x1_0000 + buf[at + 2] * 0x100 + buf[at + 3];
  }

  /** rtr_pdu_to_network_byte_order. */
  method SendConversion(buf: array<nat>, little: bool)
    requires WellSized(buf[..], little)
    modifies buf
    ensures buf[..] == ToNetwork(old(buf[..]), little)
  {
    hide Swap4, Host, SwapAll;
    ghost var b := buf[..];
    if buf[1] == ERROR {
      var enc := ReadField(buf, 8, little);
      SwapField(buf, REST + enc, little);
      SwapField(buf, 8, little);
    } else {
      FieldsFit(buf[1], buf[0], buf[2], buf.Length);
      SwapFields(buf, Fields(buf[1], buf[0], buf.Length), little);
    }
    assert buf[..] == FooterToNetwork(b, little);
    ConvertHeaderOf(buf, little);
  }

  /** rtr_pdu_footer_to_host_byte_order, after the header was converted and checked. */
  method ReceiveConversion(buf: array<nat>, little: bool)
    requires CheckSize(buf[..], little)
    modifies buf
    ensures buf[..] == FooterToHost(old(buf[..]), little) && WellSized(buf[..], little)
  {
    PassedIsWellSized(buf[..], little);
    hide Swap4, Host, SwapAll, WellSized;
    ghost var b := buf[..];
    if buf[1] == ERROR {
      SwapTwice(b, 8, little);
      SwapField(buf, 8, little);
      var enc := ReadField(buf, 8, little);
      SwapField(buf, REST + enc, little);
    } else {
      FieldsFit(buf[1], buf[0], buf[2], buf.Length);
      SwapFields(buf, Fields(buf[1], buf[0], buf.Length), little);
    }
  }
}
