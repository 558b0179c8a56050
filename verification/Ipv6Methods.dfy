/** The loops of rtrlib/lib/ipv6.c, over an address of four 32-bit numbers. */
module Ipv6Methods {
  import opened Ipv6Text

  // ----- Words -----

  ghost predicate IsAddress(a: seq<nat>) {
    |a| == 4 && forall i :: 0 <= i < 4 ==> a[i] < 0x1_0000_0000
  }

  function WordsOf(a: seq<nat>): (ws: seq<nat>)
    requires IsAddress(a)
    ensures |ws| == 8 && AreWords(ws)
  {
    [a[0] / 65536, a[0] % 65536, a[1] / 65536, a[1] % 65536, a[2] / 65536, a[2] % 65536, a[3] / 65536, a[3] % 65536]
  }

  /** The four numbers of struct rtr_ipv6_addr. */
  function AddrOf(ws: seq<nat>): seq<nat>
    requires |ws| == 8
  {
    [ws[0] * 65536 + ws[1], ws[2] * 65536 + ws[3], ws[4] * 65536 + ws[5], ws[6] * 65536 + ws[7]]
  }

  lemma AddrOfWords(a: seq<nat>)
    requires IsAddress(a)
    ensures AddrOf(WordsOf(a)) == a
  {
  }

  // ----- The longest run of zeros -----

  /** The run of zeros that ends just before `i`: it cannot be extended to the left. */
  ghost predicate EndingRun(ws: seq<nat>, i: nat, pos: nat, len: nat) {
    && len <= i <= |ws| && (0 < len ==> pos + len == i)
    && (forall k :: i - len <= k < i ==> ws[k] == 0)
    && (len < i ==> ws[i - len - 1] != 0)
  }

  /** The first longest run within the first `i` words. */
  ghost predicate BestBefore(ws: seq<nat>, i: nat, pos: nat, len: nat) {
    && pos + len <= i <= |ws| && ZeroRun(ws, pos, len)
    && (forall p: nat, l: nat :: p + l <= i && ZeroRun(ws, p, l) ==> l <= len)
    && (forall p: nat :: p + len <= i && ZeroRun(ws, p, len) && 0 < len ==> pos <= p)
  }

  method FindRun(ws: seq<nat>) returns (pos: nat, len: nat)
    ensures BestRun(ws, pos, len)
  {
    pos, len := 0, 0;
    var curpos: nat, curlen: nat := 0, 0;
    for i := 0 to |ws|
      invariant EndingRun(ws, i, curpos, curlen) && BestBefore(ws, i, pos, len) && curlen <= len
    {
      ghost var pos0, len0 := pos, len;
      if ws[i] != 0 {
        curlen := 0;
      } else {
        if curlen == 0 { curpos := i; }
        curlen := curlen + 1;
        if curlen > len { pos, len := curpos, curlen; }
      }
      BestNext(ws, i, pos0, len0, pos, len, curpos, curlen);
    }
  }

  lemma BestNext(ws: seq<nat>, i: nat, pos0: nat, len0: nat, pos: nat, len: nat, curpos: nat, curlen: nat)
    requires i < |ws| && BestBefore(ws, i, pos0, len0) && EndingRun(ws, i + 1, curpos, curlen)
    requires if curlen > len0 then pos == curpos && len == curlen else pos == pos0 && len == len0
    ensures BestBefore(ws, i + 1, pos, len)
  {
    forall p: nat, l: nat | p + l <= i + 1 && ZeroRun(ws, p, l)
      ensures l <= len && (l == len && 0 < len ==> pos <= p)
    {
      assert p + l == i + 1 ==> l <= curlen;
    }
  }

  // ----- rtr_ipv6_addr_to_str -----

  /** Words, each with a colon before it. */
  function Prefixed(xs: seq<nat>): string
    requires AreWords(xs)
  {
    if xs == [] then "" else Prefixed(xs[..|xs| - 1]) + ":" + Hex(xs[|xs| - 1])
  }

  lemma {:induction false} JoinSnoc(xs: seq<nat>, w: nat)
    requires AreWords(xs) && w < 65536 && xs != []
    ensures Join(xs + [w]) == Join(xs) + ":" + Hex(w)
  {
    hide Hex;
    if |xs| == 1 {
      assert (xs + [w])[1..] == [w];
    } else {
      JoinSnoc(xs[1..], w);
      assert (xs + [w])[1..] == xs[1..] + [w];
    }
  }

  lemma {:induction false} PrefixedJoin(xs: seq<nat>)
    requires AreWords(xs) && xs != []
    ensures Prefixed(xs) == ":" + Join(xs)
  {
    hide Hex;
    var init, last := xs[..|xs| - 1], xs[|xs| - 1];
    assert xs == init + [last];
    if init != [] {
      PrefixedJoin(init);
      JoinSnoc(init, last);
    }
  }

  /** What is written before word `i`, the run being at `pos`. */
  ghost predicate Written(b: string, ws: seq<nat>, pos: nat, len: nat, i: nat)
    requires |ws| == 8 && AreWords(ws) && pos + len <= 8
  {
    if len < 2 || i <= pos then i <= 8 && b == Join(ws[..i])
    else pos + len <= i <= 8 && b == Join(ws[..pos]) + ":" + (if pos + len == 8 then ":" else Prefixed(ws[pos + len..i]))
  }

  lemma WrittenAll(b: string, ws: seq<nat>, pos: nat, len: nat)
    requires |ws| == 8 && AreWords(ws) && pos + len <= 8 && Written(b, ws, pos, len, 8)
    ensures b == if len < 2 then Join(ws) else Join(ws[..pos]) + "::" + Join(ws[pos + len..])
  {
    hide Join, Prefixed;
    assert ws[..8] == ws;
    if len >= 2 {
      assert ws[pos + len..8] == ws[pos + len..];
      if pos + len < 8 {
        PrefixedJoin(ws[pos + len..]);
        Regroup3(Join(ws[..pos]), Join(ws[pos + len..]));
      } else {
        ScanEmpty([], 0);
        assert ws[8..] == [];
        assert Join(ws[..pos]) + ":" + ":" == Join(ws[..pos]) + "::" + "";
      }
    }
  }

  lemma Regroup3(a: string, b: string)
    ensures a + ":" + (":" + b) == a + "::" + b
  {
  }

  /** One word, with a colon before it unless it is the first. */
  lemma WriteWord(b: string, ws: seq<nat>, pos: nat, len: nat, i: nat)
    requires |ws| == 8 && AreWords(ws) && pos + len <= 8 && Written(b, ws, pos, len, i) && i < 8 && (len < 2 || i != pos)
    ensures Written((if i == 0 then b else b + ":") + Hex(ws[i]), ws, pos, len, i + 1)
  {
    hide Join, Prefixed, Hex;
    if len < 2 || i < pos {
      assert ws[..i + 1] == ws[..i] + [ws[i]];
      if i == 0 {
        ScanEmpty([], 0);
        JoinOne([ws[0]]);
        assert ws[..0] == [] && ws[..1] == [ws[0]];
        assert b + Hex(ws[0]) == Hex(ws[0]);
      } else {
        JoinSnoc(ws[..i], ws[i]);
      }
    } else {
      var start := pos + len;
      PrefixedSnoc(ws[start..i], ws[i]);
      assert ws[start..i + 1] == ws[start..i] + [ws[i]];
      assert b + ":" + Hex(ws[i]) == Join(ws[..pos]) + ":" + (Prefixed(ws[start..i]) + ":" + Hex(ws[i]));
    }
  }

  /** The run: one colon, and a second one if nothing follows. */
  lemma WriteGap(b: string, ws: seq<nat>, pos: nat, len: nat)
    requires |ws| == 8 && AreWords(ws) && pos + len <= 8 && Written(b, ws, pos, len, pos) && 2 <= len
    ensures Written(if pos + len == 8 then b + ":" + ":" else b + ":", ws, pos, len, pos + len)
  {
    hide Join;
    NothingPrefixed(ws[pos + len..pos + len]);
    assert b + ":" + "" == b + ":";
  }

  lemma PrefixedSnoc(xs: seq<nat>, w: nat)
    requires AreWords(xs) && w < 65536
    ensures Prefixed(xs + [w]) == Prefixed(xs) + ":" + Hex(w)
  {
    assert (xs + [w])[..|xs|] == xs;
  }

  /** The formatting loop, which jumps over the run. */
  method Format(ws: seq<nat>, pos: nat, len: nat) returns (b: string)
    requires |ws| == 8 && AreWords(ws) && pos + len <= 8
    ensures b == if len < 2 then Join(ws) else Join(ws[..pos]) + "::" + Join(ws[pos + len..])
  {
    b := "";
    var i := 0;
    assert ws[..0] == [];
    while i < 8
      invariant i <= 8 && Written(b, ws, pos, len, i)
    {
      hide Join, Prefixed, Hex;
      hide Written;
      if len >= 2 && i == pos {
        WriteGap(b, ws, pos, len);
        i := i + len - 1;
        b := b + ":";
        if i == 7 { b := b + ":"; }
        i := i + 1;
      } else {
        WriteWord(b, ws, pos, len, i);
        if i != 0 { b := b + ":"; }
        b := b + Hex(ws[i]);
        i := i + 1;
      }
    }
    WrittenAll(b, ws, pos, len);
  }

  lemma NothingPrefixed(xs: seq<nat>)
    requires xs == []
    ensures Prefixed(xs) == ""
  {
  }

  const INET6_ADDRSTRLEN: nat := 46

  lemma {:induction false} JoinLength(xs: seq<nat>)
    requires AreWords(xs)
    ensures |Join(xs)| <= 5 * |xs| && (xs != [] ==> |Join(xs)| < 5 * |xs|)
  {
    if |xs| > 1 { JoinLength(xs[1..]); }
  }

  lemma {:induction false} DottedLength(os: seq<nat>)
    requires AreOctets(os)
    ensures |Dotted(os)| <= 4 * |os|
  {
    if |os| > 1 { DottedLength(os[1..]); }
  }

  /** The text and its terminator fit the buffer that the caller must provide. */
  lemma TextFits(ws: seq<nat>, pos: nat, len: nat)
    requires |ws| == 8 && AreWords(ws) && pos + len <= 8
    ensures |Text(ws, pos, len)| + 1 <= INET6_ADDRSTRLEN
  {
    JoinLength(ws);
    JoinLength(ws[..pos]);
    JoinLength(ws[pos + len..]);
    DottedLength(LowOctets(ws));
    hide Join, Dotted;
  }

  /** rtr_ipv6_addr_to_str: the first longest run of at least two zero words is written as
      "::", an embedded IPv4 address with dots, and parsing gives the address back. */
  method AddrToStr(a: seq<nat>, len: nat) returns (ok: bool, b: string)
    requires IsAddress(a)
    ensures ok <==> INET6_ADDRSTRLEN <= len
    ensures ok ==> |b| + 1 <= len && Parse(b) == Address(WordsOf(a)) && AddrOf(Parse(b).words) == a
    ensures ok ==> exists pos, l :: BestRun(WordsOf(a), pos, l) && b == Text(WordsOf(a), pos, l)
  {
    hide BestRun, Join, Dotted, Parse, Text;
    if len < INET6_ADDRSTRLEN { return false, ""; }
    var ws := WordsOf(a);
    var bestpos, bestlen := FindRun(ws);
    RunFits(ws, bestpos, bestlen);
    TextFits(ws, bestpos, bestlen);
    RoundTrip(ws, bestpos, bestlen);
    AddrOfWords(a);
    if bestpos == 0 && ((bestlen == 5 && a[2] == 0xffff) || bestlen == 6) {
      var x := a[3];
      var dotted := Dec(x / 0x100_0000 % 256) + "." + Dec(x / 65536 % 256) + "." + Dec(x / 256 % 256) + "." + Dec(x % 256);
      DottedIs(ws, x, dotted);
      b := "::" + (if a[2] != 0 then "ffff:" else "") + dotted;
      EmbeddedText(ws, a, bestlen, dotted);
    } else {
      b := Format(ws, bestpos, bestlen);
      NormalText(ws, a, bestpos, bestlen);
    }
    ok := true;
  }

  lemma RunFits(ws: seq<nat>, pos: nat, len: nat)
    requires BestRun(ws, pos, len)
    ensures ZeroRun(ws, pos, len) && pos + len <= |ws|
  {
  }

  lemma DottedIs(ws: seq<nat>, x: nat, dotted: string)
    requires |ws| == 8 && AreWords(ws) && x == ws[6] * 65536 + ws[7]
    requires dotted == Dec(x / 0x100_0000 % 256) + "." + Dec(x / 65536 % 256) + "." + Dec(x / 256 % 256) + "." + Dec(x % 256)
    ensures dotted == Dotted(LowOctets(ws))
  {
    hide Dec;
    var os := LowOctets(ws);
    ByteOf(ws[6], ws[7], x);
    assert os[1..] == [os[1], os[2], os[3]] && os[1..][1..] == [os[2], os[3]] && os[1..][1..][1..] == [os[3]];
    var d := Dec(os[2]) + "." + Dec(os[3]);
    assert Dotted([os[2], os[3]]) == d;
    assert Dotted([os[1], os[2], os[3]]) == Dec(os[1]) + "." + d;
    assert Dotted(os) == Dec(os[0]) + "." + (Dec(os[1]) + "." + d);
  }

  lemma ByteOf(hi: nat, lo: nat, x: nat)
    requires hi < 65536 && lo < 65536 && x == hi * 65536 + lo
    ensures x / 0x100_0000 % 256 == hi / 256 && x / 65536 % 256 == hi % 256
    ensures x / 256 % 256 == lo / 256 && x % 256 == lo % 256
  {
    assert x / 65536 == hi;
    assert x / 65536 / 256 == x / 0x100_0000;
    assert x == 256 * (hi * 256 + lo / 256) + lo % 256;
    assert x / 256 == hi * 256 + lo / 256;
  }

  lemma EmbeddedText(ws: seq<nat>, a: seq<nat>, len: nat, dotted: string)
    requires IsAddress(a) && ws == WordsOf(a) && ZeroRun(ws, 0, len) && dotted == Dotted(LowOctets(ws))
    requires (len == 5 && a[2] == 0xffff) || len == 6
    ensures "::" + (if a[2] != 0 then "ffff:" else "") + dotted == Text(ws, 0, len)
  {
    hide Dotted, LowOctets;
    if len == 6 {
      assert ws[4] == 0 && ws[5] == 0;
      assert "::" + "" + dotted == "::" + dotted;
    } else {
      assert "::" + "ffff:" == "::ffff:";
    }
  }

  lemma NormalText(ws: seq<nat>, a: seq<nat>, pos: nat, len: nat)
    requires IsAddress(a) && ws == WordsOf(a) && ZeroRun(ws, pos, len)
    requires !(pos == 0 && ((len == 5 && a[2] == 0xffff) || len == 6))
    ensures Text(ws, pos, len) == if len < 2 then Join(ws) else Join(ws[..pos]) + "::" + Join(ws[pos + len..])
  {
    hide Join, Dotted, LowOctets;
    if pos == 0 && len == 5 { assert ws[4] == 0; }
  }

  // ----- rtr_ipv6_str_to_addr -----

  lemma {:induction false} HexSplit(s: string, n: nat)
    requires n <= |s| && forall c :: c in s[..n] ==> IsHex(c)
    ensures HexLength(s) == n + HexLength(s[n..])
    decreases n
  {
    if n == 0 {
      assert s[0..] == s;
    } else {
      assert s[0] == s[..n][0];
      assert s[1..][..n - 1] == s[..n][1..] && s[1..][n - 1..] == s[n..];
      HexSplit(s[1..], n - 1);
    }
  }

  lemma {:induction false} HexSnoc(s: string, c: char, j: nat)
    requires (forall x :: x in s ==> IsHex(x)) && IsHex(c)
    ensures (forall x :: x in s + [c] ==> IsHex(x)) && HexNumber(s + [c], j) == 16 * HexNumber(s, j) + HexValue(c)
  {
    if s == "" {
      assert (s + [c])[1..] == "";
    } else {
      assert (s + [c])[1..] == s[1..] + [c];
      HexSnoc(s[1..], c, 16 * j + HexValue(s[0]));
    }
  }

  /** The digits of a word: a fifth one is an error. */
  method ReadWord(s: string) returns (ok: bool, j: nat, n: nat)
    ensures ok <==> HexLength(s) <= 4
    ensures ok ==> n == HexLength(s) && (forall c :: c in s[..n] ==> IsHex(c)) && j == HexNumber(s[..n], 0)
  {
    j, n := 0, 0;
    while n < |s| && IsHex(s[n])
      invariant n <= |s| && n <= 4 && forall c :: c in s[..n] ==> IsHex(c)
      invariant j == HexNumber(s[..n], 0)
      invariant j < if n == 0 then 1 else if n == 1 then 16 else if n == 2 then 256 else if n == 3 then 4096 else 65536
    {
      HexSplit(s, n);
      HexSnoc(s[..n], s[n], 0);
      assert s[..n + 1] == s[..n] + [s[n]];
      assert s[n..][0] == s[n];
      j := 16 * j + HexValue(s[n]);
      n := n + 1;
      if j >= 0x10000 || n > 4 { return false, j, n; }
    }
    HexSplit(s, n);
    ok := true;
  }

  /** The loops that move the words behind "::" to the end and put zeros in. */
  method Fill(words: array<nat>, n: nat, fill: nat)
    requires words.Length == 8 && fill <= n <= 8
    modifies words
    ensures words[..] == old(words[..fill]) + Zeros(8 - n) + old(words[fill..n])
  {
    var j := 8 - n;
    var i: int := 7;
    while i - j >= fill
      invariant fill + j - 1 <= i <= 7
      invariant forall k :: 0 <= k <= i ==> words[k] == old(words[k])
      invariant forall k :: i < k < 8 ==> words[k] == old(words[k - j])
      decreases i
    {
      words[i] := words[i - j];
      i := i - 1;
    }
    while i >= fill
      invariant fill - 1 <= i <= fill + j - 1
      invariant forall k :: 0 <= k < fill ==> words[k] == old(words[k])
      invariant forall k :: i < k < fill + j ==> words[k] == 0
      invariant forall k :: fill + j <= k < 8 ==> words[k] == old(words[k - j])
      decreases i
    {
      words[i] := 0;
      i := i - 1;
    }
  }

  /** The loop over the text. */
  method ScanText(s: string, words: array<nat>) returns (ok: bool, n: nat, fill: int)
    requires words.Length == 8
    modifies words
    ensures ok <==> Scan(s, [], -1).Some?
    ensures ok ==> n <= 8 && Scan(s, [], -1) == Some(Read(words[..n], fill)) && -1 <= fill <= n
  {
    hide HexLength, HexNumber, Octets;
    n, fill := 0, -1;
    var a := s;
    assert words[..0] == [];
    while a != ""
      invariant n <= 8 && -1 <= fill <= n && Scan(s, [], -1) == Scan(a, words[..n], fill)
      decreases |a|
    {
      if a[0] == ':' {
        if fill >= 0 { return false, n, fill; }
        fill := n;
        a := a[1..];
        continue;
      }
      HexPrefix(a);
      var read, j, l := ReadWord(a);
      if !read { return false, n, fill; }
      var rest := a[l..];
      if |rest| > 1 && rest[0] == ':' {
        rest := rest[1..];
      } else if rest != "" && rest[0] == '.' && (n == 6 || (n < 6 && fill >= 0)) {
        var os := Octets(a, 4);
        if os.None? || |os.value| != 4 { return false, n, fill; }
        ghost var before := words[..n];
        words[n], words[n + 1] := os.value[0] * 256 + os.value[1], os.value[2] * 256 + os.value[3];
        n := n + 2;
        assert words[..n] == before + [os.value[0] * 256 + os.value[1], os.value[2] * 256 + os.value[3]];
        return true, n, fill;
      } else if rest != "" {
        return false, n, fill;
      }
      if n >= 8 { return false, n, fill; }
      ghost var before := words[..n];
      words[n] := j;
      n := n + 1;
      assert words[..n] == before + [j];
      a := rest;
    }
    ok := true;
  }

  /** rtr_ipv6_str_to_addr. */
  method StrToAddr(s: string) returns (p: Parsed, a: seq<nat>)
    ensures p == Parse(s)
    ensures p.Address? ==> |p.words| == 8 && a == AddrOf(p.words)
  {
    hide Scan;
    a := [];
    if s != "" && s[0] == ':' && (|s| == 1 || s[1] != ':') { return Malformed, a; }
    var words := new nat[8];
    var ok, n, fill := ScanText(if s != "" && s[0] == ':' then s[1..] else s, words);
    if !ok { return Malformed, a; }
    if fill >= 0 {
      ghost var read := words[..n];
      assert words[..fill] == read[..fill] && words[fill..n] == read[fill..];
      Fill(words, n, fill);
      return Address(words[..]), AddrOf(words[..]);
    }
    if n < 8 { return Unset, a; }
    assert words[..n] == words[..];
    return Address(words[..]), AddrOf(words[..]);
  }
}
