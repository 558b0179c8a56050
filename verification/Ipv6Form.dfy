/** The form of the text that rtr_ipv6_addr_to_str writes (rtrlib/lib/ipv6.c): one text for
    each address, as section 4 of RFC 5952 recommends. */
module Ipv6Form {
  import opened Ipv6Text

  predicate LowerHex(c: char) {
    '0' <= c <= '9' || 'a' <= c <= 'f'
  }

  /** A double colon somewhere. */
  ghost predicate Doubled(s: string) {
    exists i :: 0 <= i < |s| - 1 && s[i] == ':' && s[i + 1] == ':'
  }

  ghost predicate Over(s: string, p: char -> bool) {
    forall i :: 0 <= i < |s| ==> p(s[i])
  }

  const HexOrColon: char -> bool := c => LowerHex(c) || c == ':'
  const DigitOrDot: char -> bool := c => IsDigit(c) || c == '.'

  /** No leading zeros, and lower-case digits. */
  lemma HexForm(w: nat)
    requires w < 65536
    ensures forall i :: 0 <= i < |Hex(w)| ==> LowerHex(Hex(w)[i])
    ensures Hex(w)[0] == '0' <==> w == 0
    ensures w == 0 ==> Hex(w) == "0"
  {
    HexDigits();
  }

  lemma HexDigits()
    ensures forall k: nat :: k < 16 ==> LowerHex(HexDigit(k)) && (HexDigit(k) == '0' <==> k == 0)
  {
  }

  lemma DecForm(n: nat)
    requires n < 256
    ensures forall i :: 0 <= i < |Dec(n)| ==> IsDigit(Dec(n)[i])
    ensures Dec(n)[0] == '0' <==> n == 0
  {
  }

  /** Words have single colons between them. */
  ghost predicate Plain(s: string) {
    Over(s, HexOrColon) && !Doubled(s) && (s != "" ==> s[0] != ':' && s[|s| - 1] != ':')
  }

  lemma PlainCons(w: string, rest: string)
    requires w != "" && rest != "" && (forall i :: 0 <= i < |w| ==> LowerHex(w[i])) && Plain(rest)
    ensures Plain(w + ":" + rest)
  {
    var s := w + ":" + rest;
    assert forall i :: 0 <= i < |rest| ==> s[|w| + 1 + i] == rest[i];
    forall i | 0 <= i < |s| - 1 && s[i] == ':' ensures s[i + 1] != ':' {
      if i > |w| { assert s[i] == rest[i - |w| - 1] && s[i + 1] == rest[i - |w|]; }
    }
  }

  lemma {:induction false} JoinForm(ws: seq<nat>)
    requires AreWords(ws)
    ensures Plain(Join(ws)) && (Join(ws) == "" <==> ws == [])
  {
    if |ws| == 1 {
      HexForm(ws[0]);
    } else if ws != [] {
      JoinForm(ws[1..]);
      HexForm(ws[0]);
      hide Hex, Plain;
      PlainCons(Hex(ws[0]), Join(ws[1..]));
    }
  }

  lemma {:induction false} DottedForm(os: seq<nat>)
    requires AreOctets(os) && os != []
    ensures Over(Dotted(os), DigitOrDot) && (|os| > 1 ==> '.' in Dotted(os)) && IsDigit(Dotted(os)[0])
  {
    DecForm(os[0]);
    hide Dec;
    if |os| > 1 {
      DottedForm(os[1..]);
      var s := Dec(os[0]) + "." + Dotted(os[1..]);
      assert s[|Dec(os[0])|] == '.';
    }
  }

  /** Two texts around a double colon. */
  lemma Around(a: string, b: string)
    ensures Doubled(a + "::" + b)
    ensures Over(a, HexOrColon) && Over(b, HexOrColon) ==> Over(a + "::" + b, HexOrColon)
  {
    var s := a + "::" + b;
    assert s[|a|] == ':' && s[|a| + 1] == ':';
  }

  lemma Written(s: string)
    ensures Over(s, HexOrColon) ==> '.' !in s && forall i :: 0 <= i < |s| ==> LowerHex(s[i]) || s[i] in ":."
  {
  }

  lemma Embedded(before: string, dotted: string)
    requires Over(before, HexOrColon) && Doubled(before) && Over(dotted, DigitOrDot) && '.' in dotted
    ensures var s := before + dotted;
            Doubled(s) && '.' in s && forall i :: 0 <= i < |s| ==> LowerHex(s[i]) || s[i] in ":."
  {
    var s := before + dotted;
    var i :| 0 <= i < |before| - 1 && before[i] == ':' && before[i + 1] == ':';
    assert s[i] == ':' && s[i + 1] == ':';
    var k :| 0 <= k < |dotted| && dotted[k] == '.';
    assert s[|before| + k] == '.';
  }

  lemma Beginnings()
    ensures Over("::", HexOrColon) && Doubled("::") && Over("::ffff:", HexOrColon) && Doubled("::ffff:")
  {
    assert "::"[0] == ':' && "::"[1] == ':' && "::ffff:"[0] == ':' && "::ffff:"[1] == ':';
  }

  /** The run is the whole zero part in front of an embedded IPv4 address. */
  predicate Embeds(ws: seq<nat>, pos: nat, len: nat) {
    |ws| == 8 && pos == 0 && (len == 6 || (len == 5 && ws[5] == 0xffff))
  }

  lemma TextForm(ws: seq<nat>, pos: nat, len: nat)
    requires |ws| == 8 && AreWords(ws) && pos + len <= 8
    ensures var s := Text(ws, pos, len);
            && (forall i :: 0 <= i < |s| ==> LowerHex(s[i]) || s[i] in ":.")
            && (Doubled(s) <==> 2 <= len) && ('.' in s <==> Embeds(ws, pos, len))
  {
    var dotted := Dotted(LowOctets(ws));
    JoinForm(ws);
    JoinForm(ws[..pos]);
    JoinForm(ws[pos + len..]);
    DottedForm(LowOctets(ws));
    Beginnings();
    hide Join, Dotted, Over, Doubled, LowOctets;
    Written(Join(ws));
    if Embeds(ws, pos, len) {
      Embedded(if len == 6 then "::" else "::ffff:", dotted);
    } else {
      Around(Join(ws[..pos]), Join(ws[pos + len..]));
      Written(Join(ws[..pos]) + "::" + Join(ws[pos + len..]));
    }
  }

  /** Two zero words next to each other. */
  ghost predicate ZeroPair(ws: seq<nat>) {
    exists i :: 0 <= i < |ws| - 1 && ws[i] == 0 && ws[i + 1] == 0
  }

  /** An IPv4-compatible or IPv4-mapped address; the unspecified address, the loopback address
      and others whose seventh word is zero as well are not written with dots. */
  predicate HoldsIpv4(ws: seq<nat>)
    requires |ws| == 8
  {
    ws[0] == ws[1] == ws[2] == ws[3] == ws[4] == 0 && ((ws[5] == 0 && ws[6] != 0) || ws[5] == 0xffff)
  }

  lemma RunIsPair(ws: seq<nat>, pos: nat, len: nat)
    requires |ws| == 8 && BestRun(ws, pos, len)
    ensures 2 <= len <==> ZeroPair(ws)
  {
    if 2 <= len { assert ws[pos] == 0 && ws[pos + 1] == 0; }
    if i :| 0 <= i < |ws| - 1 && ws[i] == 0 && ws[i + 1] == 0 { assert ZeroRun(ws, i, 2); }
  }

  lemma RunIsIpv4(ws: seq<nat>, pos: nat, len: nat)
    requires |ws| == 8 && BestRun(ws, pos, len)
    ensures Embeds(ws, pos, len) <==> HoldsIpv4(ws)
  {
    if Embeds(ws, pos, len) && len == 6 {
      assert ws[6] != 0 by { if ws[6] == 0 { assert ZeroRun(ws, 0, 7); } }
    }
    if HoldsIpv4(ws) {
      var n := if ws[5] == 0 then 6 else 5;
      assert ZeroRun(ws, 0, n);
      assert ws[n] != 0;
    }
  }

  /** The text of an address, whichever: lower-case digits, colons and dots only; a double colon
      if and only if two zero words are next to each other; dots if and only if it holds an
      IPv4 address. */
  lemma CanonicalForm(ws: seq<nat>, pos: nat, len: nat)
    requires |ws| == 8 && AreWords(ws) && BestRun(ws, pos, len)
    ensures var s := Text(ws, pos, len);
            && (forall i :: 0 <= i < |s| ==> LowerHex(s[i]) || s[i] in ":.")
            && (Doubled(s) <==> ZeroPair(ws)) && ('.' in s <==> HoldsIpv4(ws))
  {
    assert pos + len <= 8;
    TextForm(ws, pos, len);
    RunIsPair(ws, pos, len);
    RunIsIpv4(ws, pos, len);
  }

  /** Each address has one text. */
  lemma OneText(ws: seq<nat>, pos: nat, len: nat, pos': nat, len': nat)
    requires |ws| == 8 && AreWords(ws) && BestRun(ws, pos, len) && BestRun(ws, pos', len')
    ensures Text(ws, pos, len) == Text(ws, pos', len')
  {
    assert len == len';
    hide Join, Dotted;
  }
}
