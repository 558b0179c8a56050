/** What the PDUs of a response say, without regard to how a client stores them, and that
    what is stored is what was said (rtrlib/rtr/packets.c). */
module RtrResponse {
  import opened SyncUndo
  import opened SyncTables
  import opened RtrSync
  import opened Trie
  import opened LinearHashing
  import opened AspaUpdate

  // ----- What a response says -----

  /** The IPv4 prefixes announced and withdrawn for a socket, in the order of the PDUs. */
  function V4Said(pdus: seq<Pdu>, me: nat): seq<Change<Record>> {
    if pdus == [] then []
    else if !pdus[0].Ipv4Prefix? then V4Said(pdus[1..], me)
    else
      var c := pdus[0].prefix;
      [Change(c.flags, Record(c.record.prefix, c.record.minLen, c.record.maxLen, c.record.asn, me))] + V4Said(pdus[1..], me)
  }

  function V6Said(pdus: seq<Pdu>, me: nat): seq<Change<Record>> {
    if pdus == [] then []
    else if !pdus[0].Ipv6Prefix? then V6Said(pdus[1..], me)
    else
      var c := pdus[0].prefix;
      [Change(c.flags, Record(c.record.prefix, c.record.minLen, c.record.maxLen, c.record.asn, me))] + V6Said(pdus[1..], me)
  }

  function KeysSaid(pdus: seq<Pdu>, me: nat): seq<Change<KeyEntry>> {
    if pdus == [] then []
    else if !pdus[0].RouterKey? then KeysSaid(pdus[1..], me)
    else
      var c := pdus[0].key;
      [Change(c.flags, KeyEntry(c.record.asn, c.record.ski, c.record.spki, me))] + KeysSaid(pdus[1..], me)
  }

  /** The ASPA operations; a withdrawal names no providers. */
  function AspaSaid(pdus: seq<Pdu>): seq<Op> {
    if pdus == [] then []
    else if !pdus[0].Aspa? then AspaSaid(pdus[1..])
    else [Op(pdus[0].add, pdus[0].customer, if pdus[0].add then pdus[0].providers else [])] + AspaSaid(pdus[1..])
  }

  // ----- What is stored -----

  /** The data PDUs of a response, stored in their order. */
  function BatchOf(pdus: seq<Pdu>, me: nat): Batch
    requires forall p :: p in pdus ==> IsData(p)
  {
    if pdus == [] then NO_PDUS else StorePdu(BatchOf(pdus[..|pdus| - 1], me), pdus[|pdus| - 1], me)
  }

  lemma {:induction false} V4Snoc(pdus: seq<Pdu>, p: Pdu, me: nat)
    ensures V4Said(pdus + [p], me) == V4Said(pdus, me) + V4Said([p], me)
  {
    if pdus == [] {
      assert [] + [p] == [p];
    } else {
      V4Snoc(pdus[1..], p, me);
      assert (pdus + [p])[1..] == pdus[1..] + [p];
    }
  }

  lemma {:induction false} V6Snoc(pdus: seq<Pdu>, p: Pdu, me: nat)
    ensures V6Said(pdus + [p], me) == V6Said(pdus, me) + V6Said([p], me)
  {
    if pdus == [] {
      assert [] + [p] == [p];
    } else {
      V6Snoc(pdus[1..], p, me);
      assert (pdus + [p])[1..] == pdus[1..] + [p];
    }
  }

  lemma {:induction false} KeysSnoc(pdus: seq<Pdu>, p: Pdu, me: nat)
    ensures KeysSaid(pdus + [p], me) == KeysSaid(pdus, me) + KeysSaid([p], me)
  {
    if pdus == [] {
      assert [] + [p] == [p];
    } else {
      KeysSnoc(pdus[1..], p, me);
      assert (pdus + [p])[1..] == pdus[1..] + [p];
    }
  }

  lemma {:induction false} AspaSnoc(pdus: seq<Pdu>, p: Pdu)
    ensures AspaSaid(pdus + [p]) == AspaSaid(pdus) + AspaSaid([p])
  {
    if pdus == [] {
      assert [] + [p] == [p];
    } else {
      AspaSnoc(pdus[1..], p);
      assert (pdus + [p])[1..] == pdus[1..] + [p];
    }
  }

  /** Storing one PDU appends what it says to its own list, and leaves the other lists. */
  lemma StoredOne(b: Batch, p: Pdu, me: nat)
    requires IsData(p)
    ensures StorePdu(b, p, me)
         == Batch(b.v4 + V4Said([p], me), b.v6 + V6Said([p], me), b.keys + KeysSaid([p], me), b.aspa + AspaSaid([p]))
  {
    assert [p][1..] == [];
  }

  /** Main result: what is stored is exactly what was said, in order. */
  lemma {:induction false} StoredIsSaid(pdus: seq<Pdu>, me: nat)
    requires forall p :: p in pdus ==> IsData(p)
    ensures BatchOf(pdus, me) == Batch(V4Said(pdus, me), V6Said(pdus, me), KeysSaid(pdus, me), AspaSaid(pdus))
  {
    if pdus != [] {
      hide StorePdu, V4Said, V6Said, KeysSaid, AspaSaid;
      var before, last := pdus[..|pdus| - 1], pdus[|pdus| - 1];
      assert pdus == before + [last] && last in pdus;
      StoredIsSaid(before, me);
      V4Snoc(before, last, me);
      V6Snoc(before, last, me);
      KeysSnoc(before, last, me);
      AspaSnoc(before, last);
      StoredOne(BatchOf(before, me), last, me);
    }
  }

  /** Every change is in one of the lists: nothing of a response is lost, and nothing but the
      PDUs is in them. */
  lemma {:induction false} NothingLost(pdus: seq<Pdu>, me: nat)
    requires forall p :: p in pdus ==> IsData(p)
    ensures var b := BatchOf(pdus, me); |b.v4| + |b.v6| + |b.keys| + |b.aspa| == |pdus|
    ensures forall p :: p in pdus && p.Ipv4Prefix? ==> Change(p.prefix.flags, p.prefix.record.(socket := me)) in BatchOf(pdus, me).v4
    ensures forall p :: p in pdus && p.Ipv6Prefix? ==> Change(p.prefix.flags, p.prefix.record.(socket := me)) in BatchOf(pdus, me).v6
    ensures forall p :: p in pdus && p.RouterKey? ==> Change(p.key.flags, p.key.record.(socket := me)) in BatchOf(pdus, me).keys
    ensures forall p :: p in pdus && p.Aspa? ==> Op(p.add, p.customer, if p.add then p.providers else []) in BatchOf(pdus, me).aspa
  {
    if pdus != [] {
      var before, last := pdus[..|pdus| - 1], pdus[|pdus| - 1];
      assert pdus == before + [last] && last in pdus;
      NothingLost(before, me);
    }
  }
}
