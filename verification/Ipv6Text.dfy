/** IPv6 addresses as text (rtrlib/lib/ipv6.c, rtrlib/lib/ipv4.c): what the printer writes,
    the parser reads back. */
module Ipv6Text {

  // ----- Digits -----

  function HexDigit(k: nat): char
    requires k < 16
  {
    if k < 10 then ('0' as int + k) as char else ('a' as int + k - 10) as char
  }

  predicate IsHex(c: char) {
    '0' <= c <= '9' || 'A' <= c <= 'F' || 'a' <= c <= 'f'
  }

  function HexValue(c: char): (k: nat)
    requires IsHex(c)
    ensures k < 16
  {
    if '0' <= c <= '9' then c as int - '0' as int
    else if 'A' <= c <= 'F' then c as int - 'A' as int + 10
    else c as int - 'a' as int + 10
  }

  lemma HexDigitValue(k: nat)
    requires k < 16
    ensures IsHex(HexDigit(k)) && HexValue(HexDigit(k)) == k && HexDigit(k) != ':' && HexDigit(k) != '.'
    ensures k < 10 ==> IsDigit(HexDigit(k))
  {
  }

  /** "%x" of a 16-bit word. */
  function Hex(w: nat): (s: string)
    requires w < 65536
    ensures 1 <= |s| <= 4
  {
    if w < 16 then [HexDigit(w)]
    else if w < 256 then [HexDigit(w / 16), HexDigit(w % 16)]
    else if w < 4096 then [HexDigit(w / 256), HexDigit(w / 16 % 16), HexDigit(w % 16)]
    else [HexDigit(w / 4096), HexDigit(w / 256 % 16), HexDigit(w / 16 % 16), HexDigit(w % 16)]
  }

  predicate IsDigit(c: char) {
    '0' <= c <= '9'
  }

  /** "%d" of an octet. */
  function Dec(n: nat): (s: string)
    requires n < 256
    ensures 1 <= |s| <= 3
  {
    if n < 10 then [HexDigit(n)]
    else if n < 100 then [HexDigit(n / 10), HexDigit(n % 10)]
    else [HexDigit(n / 100), HexDigit(n / 10 % 10), HexDigit(n % 10)]
  }

  // ----- Reading a word -----

  /** How many hexadecimal digits the text starts with. */
  function HexLength(s: string): (n: nat)
    ensures n <= |s|
  {
    if s != "" && IsHex(s[0]) then 1 + HexLength(s[1..]) else 0
  }

  function HexNumber(s: string, j: nat): nat
    requires forall c :: c in s ==> IsHex(c)
  {
    if s == "" then j else HexNumber(s[1..], 16 * j + HexValue(s[0]))
  }

  lemma {:induction false} HexPrefix(s: string)
    ensures forall c :: c in s[..HexLength(s)] ==> IsHex(c)
  {
    if HexLength(s) > 0 {
      HexPrefix(s[1..]);
      assert s[..HexLength(s)] == [s[0]] + s[1..][..HexLength(s) - 1];
    }
  }

  ghost predicate EndsWord(rest: string) {
    rest == "" || !IsHex(rest[0])
  }

  lemma {:induction false} HexLengthExact(w: string, rest: string)
    requires (forall c :: c in w ==> IsHex(c)) && EndsWord(rest)
    ensures HexLength(w + rest) == |w|
  {
    if w == "" {
      assert w + rest == rest;
    } else {
      assert (w + rest)[1..] == w[1..] + rest;
      HexLengthExact(w[1..], rest);
    }
  }

  lemma Digits(w: nat)
    requires w < 65536
    ensures w == 16 * (w / 16) + w % 16
    ensures w == 256 * (w / 256) + 16 * (w / 16 % 16) + w % 16
    ensures w == 4096 * (w / 4096) + 256 * (w / 256 % 16) + 16 * (w / 16 % 16) + w % 16
    ensures w / 4096 < 16 && (w < 256 ==> w / 16 < 16) && (w < 4096 ==> w / 256 < 16)
  {
    assert w / 16 / 16 == w / 256 && w / 256 / 16 == w / 4096;
  }

  lemma HexReads(w: nat)
    requires w < 65536
    ensures (forall c :: c in Hex(w) ==> IsHex(c)) && HexNumber(Hex(w), 0) == w
  {
    Digits(w);
    if w < 16 {
      HexDigitValue(w);
      assert [HexDigit(w)][1..] == "";
      assert HexNumber([HexDigit(w)], 0) == w;
    } else if w < 256 {
      HexReads2(w / 16, w % 16);
    } else if w < 4096 {
      HexReads3(w / 256, w / 16 % 16, w % 16);
    } else {
      HexReads4(w / 4096, w / 256 % 16, w / 16 % 16, w % 16);
    }
  }

  lemma HexReads2(a: nat, b: nat)
    requires a < 16 && b < 16
    ensures var s := [HexDigit(a), HexDigit(b)]; (forall c :: c in s ==> IsHex(c)) && HexNumber(s, 0) == 16 * a + b
  {
    HexDigitValue(a); HexDigitValue(b);
    hide HexNumber, HexDigit, HexValue;
    Numbers2(HexDigit(a), HexDigit(b));
  }

  lemma HexReads3(a: nat, b: nat, c: nat)
    requires a < 16 && b < 16 && c < 16
    ensures var s := [HexDigit(a), HexDigit(b), HexDigit(c)];
            (forall x :: x in s ==> IsHex(x)) && HexNumber(s, 0) == 256 * a + 16 * b + c
  {
    HexDigitValue(a); HexDigitValue(b); HexDigitValue(c);
    hide HexNumber, HexDigit, HexValue;
    Numbers3(HexDigit(a), HexDigit(b), HexDigit(c));
  }

  lemma HexReads4(a: nat, b: nat, c: nat, d: nat)
    requires a < 16 && b < 16 && c < 16 && d < 16
    ensures var s := [HexDigit(a), HexDigit(b), HexDigit(c), HexDigit(d)];
            (forall x :: x in s ==> IsHex(x)) && HexNumber(s, 0) == 4096 * a + 256 * b + 16 * c + d
  {
    HexDigitValue(a); HexDigitValue(b); HexDigitValue(c); HexDigitValue(d);
    hide HexNumber, HexDigit, HexValue;
    Numbers4(HexDigit(a), HexDigit(b), HexDigit(c), HexDigit(d));
  }

  lemma Numbers2(a: char, b: char)
    requires IsHex(a) && IsHex(b)
    ensures HexNumber([a, b], 0) == 16 * HexValue(a) + HexValue(b)
  {
    assert [a, b][1..] == [b] && [b][1..] == "";
    assert HexNumber([b], HexValue(a)) == 16 * HexValue(a) + HexValue(b);
  }

  lemma Numbers3(a: char, b: char, c: char)
    requires IsHex(a) && IsHex(b) && IsHex(c)
    ensures HexNumber([a, b, c], 0) == 256 * HexValue(a) + 16 * HexValue(b) + HexValue(c)
  {
    assert [a, b, c][1..] == [b, c] && [b, c][1..] == [c] && [c][1..] == "";
    var x := 16 * HexValue(a) + HexValue(b);
    assert HexNumber([b, c], HexValue(a)) == HexNumber([c], x) == 16 * x + HexValue(c);
  }

  lemma Numbers4(a: char, b: char, c: char, d: char)
    requires IsHex(a) && IsHex(b) && IsHex(c) && IsHex(d)
    ensures HexNumber([a, b, c, d], 0) == 4096 * HexValue(a) + 256 * HexValue(b) + 16 * HexValue(c) + HexValue(d)
  {
    assert [a, b, c, d][1..] == [b, c, d] && [b, c, d][1..] == [c, d] && [c, d][1..] == [d] && [d][1..] == "";
    var x := 16 * HexValue(a) + HexValue(b);
    var y := 16 * x + HexValue(c);
    assert HexNumber([b, c, d], HexValue(a)) == HexNumber([c, d], x) == HexNumber([d], y) == 16 * y + HexValue(d);
  }

  // ----- Dotted IPv4 -----

  /** One "%3hhu" of rtr_ipv4_str_to_addr: up to three digits, kept to eight bits. */
  function OctetLength(s: string, max: nat): (n: nat)
    ensures n <= |s| && n <= max
  {
    if max > 0 && s != "" && IsDigit(s[0]) then 1 + OctetLength(s[1..], max - 1) else 0
  }

  function DecNumber(s: string, j: nat): nat
    decreases s
  {
    if s == "" || !IsDigit(s[0]) then j else DecNumber(s[1..], 10 * j + (s[0] as int - '0' as int))
  }

  datatype Option<T> = None | Some(value: T)

  /** sscanf of `count` octets separated by dots. */
  function Octets(s: string, count: nat): Option<seq<nat>>
    decreases count
  {
    if count == 0 then Some([])
    else
      var n := OctetLength(s, 3);
      if n == 0 then None
      else
        var octet := DecNumber(s[..n], 0) % 256;
        if count == 1 then Some([octet])
        else if n == |s| || s[n] != '.' then None
        else
          var more := Octets(s[n + 1..], count - 1);
          if more.None? then None else Some([octet] + more.value)
  }

  lemma DecReads(n: nat, rest: string)
    requires n < 256 && (rest == "" || !IsDigit(rest[0]))
    ensures OctetLength(Dec(n) + rest, 3) == |Dec(n)| && DecNumber(Dec(n), 0) == n
    ensures forall c :: c in Dec(n) ==> IsDigit(c)
  {
    if n < 10 {
      HexDigitValue(n);
      DecReads1(HexDigit(n), rest);
    } else if n < 100 {
      HexDigitValue(n / 10); HexDigitValue(n % 10);
      DecReads2(HexDigit(n / 10), HexDigit(n % 10), rest);
    } else {
      HexDigitValue(n / 100); HexDigitValue(n / 10 % 10); HexDigitValue(n % 10);
      assert n / 10 / 10 == n / 100;
      DecReads3(HexDigit(n / 100), HexDigit(n / 10 % 10), HexDigit(n % 10), rest);
    }
  }

  function DigitValue(c: char): int {
    c as int - '0' as int
  }

  lemma DecReads1(a: char, rest: string)
    requires IsDigit(a) && (rest == "" || !IsDigit(rest[0]))
    ensures OctetLength([a] + rest, 3) == 1 && DecNumber([a], 0) == DigitValue(a)
  {
    assert ([a] + rest)[1..] == rest && [a][1..] == "";
  }

  lemma DecReads2(a: char, b: char, rest: string)
    requires IsDigit(a) && IsDigit(b) && (rest == "" || !IsDigit(rest[0]))
    ensures OctetLength([a, b] + rest, 3) == 2 && DecNumber([a, b], 0) == 10 * DigitValue(a) + DigitValue(b)
  {
    assert ([a, b] + rest)[1..] == [b] + rest && ([b] + rest)[1..] == rest;
    assert [a, b][1..] == [b] && [b][1..] == "";
    assert OctetLength([b] + rest, 2) == 1 + OctetLength(rest, 1);
    assert DecNumber([b], DigitValue(a)) == 10 * DigitValue(a) + DigitValue(b);
  }

  lemma DecReads3(a: char, b: char, c: char, rest: string)
    requires IsDigit(a) && IsDigit(b) && IsDigit(c) && (rest == "" || !IsDigit(rest[0]))
    ensures OctetLength([a, b, c] + rest, 3) == 3
    ensures DecNumber([a, b, c], 0) == 100 * DigitValue(a) + 10 * DigitValue(b) + DigitValue(c)
  {
    assert ([a, b, c] + rest)[1..] == [b, c] + rest && ([b, c] + rest)[1..] == [c] + rest && ([c] + rest)[1..] == rest;
    assert [a, b, c][1..] == [b, c] && [b, c][1..] == [c] && [c][1..] == "";
    assert OctetLength([c] + rest, 1) == 1 + OctetLength(rest, 0);
    assert OctetLength([b, c] + rest, 2) == 2;
    var x := 10 * DigitValue(a) + DigitValue(b);
    assert DecNumber([b, c], DigitValue(a)) == DecNumber([c], x) == 10 * x + DigitValue(c);
  }

  ghost predicate AreOctets(os: seq<nat>) {
    forall i :: 0 <= i < |os| ==> os[i] < 256
  }

  function Dotted(os: seq<nat>): string
    requires AreOctets(os)
  {
    if os == [] then "" else if |os| == 1 then Dec(os[0]) else Dec(os[0]) + "." + Dotted(os[1..])
  }

  lemma {:induction false} DottedReads(os: seq<nat>)
    requires AreOctets(os) && os != []
    ensures Octets(Dotted(os), |os|) == Some(os)
  {
    hide DecNumber, OctetLength, Dec, Dotted, Octets;
    if |os| == 1 {
      DottedOne(os);
      OctetsStep(os[0], "", 1);
      assert Dec(os[0]) + "" == Dec(os[0]);
      assert os == [os[0]];
    } else {
      DottedReads(os[1..]);
      DottedCons(os);
      OctetsStep(os[0], "." + Dotted(os[1..]), |os|);
      assert ("." + Dotted(os[1..]))[1..] == Dotted(os[1..]);
      assert os == [os[0]] + os[1..];
    }
  }

  lemma DottedOne(os: seq<nat>)
    requires AreOctets(os) && |os| == 1
    ensures Dotted(os) == Dec(os[0])
  {
  }

  lemma DottedCons(os: seq<nat>)
    requires AreOctets(os) && |os| > 1
    ensures Dotted(os) == Dec(os[0]) + ("." + Dotted(os[1..]))
  {
    hide Dec;
  }

  lemma OctetsStep(n: nat, rest: string, count: nat)
    requires n < 256 && 0 < count && (if count == 1 then rest == "" else rest != "" && rest[0] == '.')
    ensures Octets(Dec(n) + rest, count)
         == if count == 1 then Some([n])
            else var more := Octets(rest[1..], count - 1); if more.None? then None else Some([n] + more.value)
  {
    DecReads(n, rest);
    hide DecNumber, OctetLength, Dec;
    var d := Dec(n);
    var s := d + rest;
    assert s[..|d|] == d;
    if count > 1 { assert s[|d|] == '.' && s[|d| + 1..] == rest[1..]; }
  }

  // ----- The text of an address -----

  /** Eight 16-bit words. */
  ghost predicate AreWords(ws: seq<nat>) {
    forall i :: 0 <= i < |ws| ==> ws[i] < 65536
  }

  function Join(ws: seq<nat>): string
    requires AreWords(ws)
  {
    if ws == [] then "" else if |ws| == 1 then Hex(ws[0]) else Hex(ws[0]) + ":" + Join(ws[1..])
  }

  lemma {:induction false} JoinNonempty(ws: seq<nat>)
    requires AreWords(ws) && ws != []
    ensures Join(ws) != "" && IsHex(Join(ws)[0])
  {
    HexReads(ws[0]);
    assert Hex(ws[0])[0] in Hex(ws[0]);
    assert Join(ws)[0] == Hex(ws[0])[0];
  }

  predicate ZeroRun(ws: seq<nat>, pos: nat, len: nat) {
    pos + len <= |ws| && forall i :: pos <= i < pos + len ==> ws[i] == 0
  }

  /** The first of the longest runs of zero words. */
  ghost predicate BestRun(ws: seq<nat>, pos: nat, len: nat) {
    && ZeroRun(ws, pos, len)
    && (forall p: nat, l: nat :: ZeroRun(ws, p, l) ==> l <= len)
    && (forall p: nat :: ZeroRun(ws, p, len) && 0 < len ==> pos <= p)
  }

  /** The four octets of the last two words. */
  function LowOctets(ws: seq<nat>): (os: seq<nat>)
    requires |ws| == 8 && AreWords(ws)
    ensures AreOctets(os) && |os| == 4
  {
    [ws[6] / 256, ws[6] % 256, ws[7] / 256, ws[7] % 256]
  }

  /** The text for an address whose best run of zeros is known. */
  function Text(ws: seq<nat>, pos: nat, len: nat): string
    requires |ws| == 8 && AreWords(ws) && pos + len <= 8
  {
    if len < 2 then Join(ws)
    else if pos == 0 && len == 6 then "::" + Dotted(LowOctets(ws))
    else if pos == 0 && len == 5 && ws[5] == 0xffff then "::ffff:" + Dotted(LowOctets(ws))
    else Join(ws[..pos]) + "::" + Join(ws[pos + len..])
  }

  // ----- rtr_ipv6_str_to_addr -----

  /** The words read so far, and where "::" was. */
  datatype Read = Read(words: seq<nat>, fill: int)

  /** A failure, an address, or success with words that were never set. */
  datatype Parsed = Malformed | Address(words: seq<nat>) | Unset

  /** The loop over the text. */
  function Scan(s: string, ws: seq<nat>, fill: int): Option<Read>
    decreases |s|
  {
    if s == "" then Some(Read(ws, fill))
    else if s[0] == ':' then if fill >= 0 then None else Scan(s[1..], ws, |ws|)
    else
      var n := HexLength(s);
      HexPrefix(s);
      if n > 4 then None
      else
        var j, rest := HexNumber(s[..n], 0), s[n..];
        if |rest| > 1 && rest[0] == ':' then
          if |ws| >= 8 then None else Scan(rest[1..], ws + [j], fill)
        else if rest != "" && rest[0] == '.' && (|ws| == 6 || (|ws| < 6 && fill >= 0)) then
          var os := Octets(s, 4);
          if os.None? || |os.value| != 4 then None
          else Some(Read(ws + [os.value[0] * 256 + os.value[1], os.value[2] * 256 + os.value[3]], fill))
        else if rest != "" then None
        else if |ws| >= 8 then None
        else Some(Read(ws + [j], fill))
  }

  function Zeros(n: nat): (r: seq<nat>)
    ensures |r| == n && forall i :: 0 <= i < n ==> r[i] == 0
  {
    seq(n, _ => 0)
  }

  /** Replaces "::" with an appropriate quantity of zeros. */
  function Expand(r: Read): Parsed {
    if r.fill >= 0 && r.fill <= |r.words| <= 8 then Address(r.words[..r.fill] + Zeros(8 - |r.words|) + r.words[r.fill..])
    else if |r.words| == 8 then Address(r.words)
    else Unset
  }

  function Parse(s: string): Parsed {
    if s != "" && s[0] == ':' && (|s| == 1 || s[1] != ':') then Malformed
    else
      var r := Scan(if s != "" && s[0] == ':' then s[1..] else s, [], -1);
      if r.None? then Malformed else Expand(r.value)
  }

  // ----- Round trip -----

  /** A word and what follows it. */
  lemma ScanWord(w: nat, rest: string, ws: seq<nat>, fill: int)
    requires w < 65536 && |ws| < 8
    requires rest == "" || (|rest| > 1 && rest[0] == ':')
    ensures Scan(Hex(w) + rest, ws, fill) == if rest == "" then Some(Read(ws + [w], fill)) else Scan(rest[1..], ws + [w], fill)
  {
    HexReads(w);
    HexLengthExact(Hex(w), rest);
    hide Hex, HexNumber, HexLength;
    var s := Hex(w) + rest;
    assert s[..|Hex(w)|] == Hex(w) && s[|Hex(w)|..] == rest;
    assert s[0] == Hex(w)[0] && Hex(w)[0] in Hex(w);
  }

  lemma ScanEmpty(ws: seq<nat>, fill: int)
    ensures Scan("", ws, fill) == Some(Read(ws, fill)) && Join([]) == ""
  {
  }

  lemma ScanColon(tail: string, ws: seq<nat>)
    ensures Scan(":" + tail, ws, -1) == Scan(tail, ws, |ws|)
  {
    assert (":" + tail)[1..] == tail;
  }

  lemma JoinOne(xs: seq<nat>)
    requires AreWords(xs) && |xs| == 1
    ensures Join(xs) == Hex(xs[0])
  {
  }

  lemma {:induction false} ScanJoin(xs: seq<nat>, ws: seq<nat>, fill: int)
    requires AreWords(xs) && |ws| + |xs| <= 8
    ensures Scan(Join(xs), ws, fill) == Some(Read(ws + xs, fill))
  {
    hide Join, Scan, Hex;
    if xs == [] {
      assert ws + xs == ws;
      ScanEmpty(ws, fill);
    } else if |xs| == 1 {
      JoinOne(xs);
      ScanWord(xs[0], "", ws, fill);
      assert Hex(xs[0]) + "" == Hex(xs[0]) && xs == [xs[0]];
    } else {
      var rest := Join(xs[1..]);
      JoinNonempty(xs[1..]);
      ScanJoin(xs[1..], ws + [xs[0]], fill);
      ScanWord(xs[0], ":" + rest, ws, fill);
      JoinCons(xs);
      assert Hex(xs[0]) + ":" + rest == Hex(xs[0]) + (":" + rest) && (":" + rest)[1..] == rest;
      assert ws + [xs[0]] + xs[1..] == ws + xs;
    }
  }

  lemma JoinCons(xs: seq<nat>)
    requires AreWords(xs) && |xs| > 1
    ensures Join(xs) == Hex(xs[0]) + ":" + Join(xs[1..])
  {
  }

  /** Words before "::". */
  lemma {:induction false} ScanBefore(xs: seq<nat>, ws: seq<nat>, tail: string)
    requires AreWords(xs) && |ws| + |xs| <= 8 && xs != []
    ensures Scan(Join(xs) + "::" + tail, ws, -1) == Scan(tail, ws + xs, |ws + xs|)
    decreases |xs|
  {
    hide Join, Scan, Hex;
    if |xs| == 1 {
      JoinOne(xs);
      ScanColons(xs[0], ws, tail);
      assert xs == [xs[0]];
    } else {
      var rest := Join(xs[1..]) + "::" + tail;
      ScanBefore(xs[1..], ws + [xs[0]], tail);
      JoinNonempty(xs[1..]);
      JoinCons(xs);
      ScanWord(xs[0], ":" + rest, ws, -1);
      assert Join(xs) + "::" + tail == Hex(xs[0]) + (":" + rest);
      assert (":" + rest)[1..] == rest;
      assert ws + [xs[0]] + xs[1..] == ws + xs;
    }
  }

  lemma ScanColons(w: nat, ws: seq<nat>, tail: string)
    requires w < 65536 && |ws| < 8
    ensures Scan(Hex(w) + "::" + tail, ws, -1) == Scan(tail, ws + [w], |ws| + 1)
  {
    hide Scan, Hex;
    assert Hex(w) + "::" + tail == Hex(w) + ("::" + tail);
    assert ("::" + tail)[1..] == ":" + tail;
    ScanWord(w, "::" + tail, ws, -1);
    ScanColon(tail, ws + [w]);
  }

  /** Dotted octets at the end. */
  lemma ScanDotted(os: seq<nat>, ws: seq<nat>, fill: int)
    requires AreOctets(os) && |os| == 4 && |ws| < 6 && fill >= 0
    ensures Scan(Dotted(os), ws, fill) == Some(Read(ws + [os[0] * 256 + os[1], os[2] * 256 + os[3]], fill))
  {
    hide Octets, Dotted, HexLength, HexNumber, Dec, Scan;
    DottedReads(os);
    var d, rest := Dec(os[0]), "." + Dotted(os[1..]);
    DottedCons(os);
    DecReads(os[0], rest);
    HexLengthExact(d, rest);
    ScanOctets(d, rest, ws, fill, os);
  }

  lemma ScanOctets(d: string, rest: string, ws: seq<nat>, fill: int, os: seq<nat>)
    requires 1 <= |d| <= 4 && IsDigit(d[0]) && rest != "" && rest[0] == '.' && HexLength(d + rest) == |d|
    requires Octets(d + rest, 4) == Some(os) && |os| == 4 && |ws| < 6 && fill >= 0
    ensures Scan(d + rest, ws, fill) == Some(Read(ws + [os[0] * 256 + os[1], os[2] * 256 + os[3]], fill))
  {
    hide Octets, HexLength, HexNumber;
    var s := d + rest;
    assert s[|d|..] == rest && s[0] == d[0];
  }

  /** What was compressed comes back. */
  lemma ExpandZeros(ws: seq<nat>, pos: nat, len: nat)
    requires |ws| == 8 && ZeroRun(ws, pos, len)
    ensures Expand(Read(ws[..pos] + ws[pos + len..], pos)) == Address(ws)
  {
    var short := ws[..pos] + ws[pos + len..];
    assert short[..pos] == ws[..pos] && short[pos..] == ws[pos + len..];
    assert ws[..pos] + Zeros(len) + ws[pos + len..] == ws;
  }

  /** Parsing the text of an address gives the address, for every address and every run of
      zeros that could have been compressed. */
  lemma RoundTrip(ws: seq<nat>, pos: nat, len: nat)
    requires |ws| == 8 && AreWords(ws) && ZeroRun(ws, pos, len)
    ensures Parse(Text(ws, pos, len)) == Address(ws)
  {
    hide Scan, Join, Dotted;
    if len < 2 {
      ScanJoin(ws, [], -1);
      JoinNonempty(ws);
      assert [] + ws == ws;
    } else if pos == 0 && len == 6 {
      RoundTripCompatible(ws);
    } else if pos == 0 && len == 5 && ws[5] == 0xffff {
      RoundTripMapped(ws);
    } else {
      RoundTripCompressed(ws, pos, len);
    }
  }

  lemma RoundTripCompressed(ws: seq<nat>, pos: nat, len: nat)
    requires |ws| == 8 && AreWords(ws) && ZeroRun(ws, pos, len) && 2 <= len
    ensures Parse(Join(ws[..pos]) + "::" + Join(ws[pos + len..])) == Address(ws)
  {
    hide Scan, Join, Expand, Hex;
    var tail := Join(ws[pos + len..]);
    var s := Join(ws[..pos]) + "::" + tail;
    ScanJoin(ws[pos + len..], ws[..pos], pos);
    ExpandZeros(ws, pos, len);
    if pos == 0 {
      ScanEmpty([], 0);
      assert ws[..0] == [];
      assert s == "::" + tail && s[1..] == ":" + tail;
      ScanColon(tail, []);
    } else {
      JoinNonempty(ws[..pos]);
      ScanBefore(ws[..pos], [], tail);
      assert s[0] == Join(ws[..pos])[0];
      assert [] + ws[..pos] == ws[..pos];
    }
  }

  lemma OctetsMakeWords(ws: seq<nat>)
    requires |ws| == 8 && AreWords(ws)
    ensures var os := LowOctets(ws); [os[0] * 256 + os[1], os[2] * 256 + os[3]] == [ws[6], ws[7]]
  {
  }

  /** "::" and what is read after it. */
  lemma ParseAfterColons(tail: string, r: Option<Read>)
    requires Scan(tail, [], 0) == r
    ensures Parse("::" + tail) == if r.None? then Malformed else Expand(r.value)
  {
    hide Scan, Expand;
    var s := "::" + tail;
    assert s[1..] == ":" + tail;
    ScanColon(tail, []);
  }

  lemma RoundTripCompatible(ws: seq<nat>)
    requires |ws| == 8 && AreWords(ws) && ZeroRun(ws, 0, 6)
    ensures Parse("::" + Dotted(LowOctets(ws))) == Address(ws)
  {
    hide Dotted, Scan, Expand, LowOctets;
    ScanDotted(LowOctets(ws), [], 0);
    OctetsMakeWords(ws);
    ExpandZeros(ws, 0, 6);
    assert ws[..0] + ws[6..] == [] + [ws[6], ws[7]];
    ParseAfterColons(Dotted(LowOctets(ws)), Some(Read(ws[..0] + ws[6..], 0)));
  }

  lemma HexAllOnes()
    ensures Hex(0xffff) == "ffff"
  {
  }

  lemma ScanMapped(os: seq<nat>)
    requires AreOctets(os) && |os| == 4
    ensures Scan("ffff" + (":" + Dotted(os)), [], 0) == Some(Read([0xffff, os[0] * 256 + os[1], os[2] * 256 + os[3]], 0))
  {
    hide Dotted, Scan, Hex, AreOctets;
    HexAllOnes();
    var dotted := Dotted(os);
    ScanDotted(os, [0xffff], 0);
    DottedNonempty(os);
    ScanWord(0xffff, ":" + dotted, [], 0);
    assert (":" + dotted)[1..] == dotted;
    assert [] + [0xffff] == [0xffff];
    var a, b := os[0] * 256 + os[1], os[2] * 256 + os[3];
    assert [0xffff] + [a, b] == [0xffff, a, b];
  }

  lemma RoundTripMapped(ws: seq<nat>)
    requires |ws| == 8 && AreWords(ws) && ZeroRun(ws, 0, 5) && ws[5] == 0xffff
    ensures Parse("::ffff:" + Dotted(LowOctets(ws))) == Address(ws)
  {
    hide Dotted, Scan, Expand, LowOctets, Hex, Parse;
    var dotted := Dotted(LowOctets(ws));
    ScanMapped(LowOctets(ws));
    OctetsMakeWords(ws);
    var words := ws[..0] + ws[5..];
    assert words == [0xffff, ws[6], ws[7]];
    ExpandZeros(ws, 0, 5);
    ParseAfterColons("ffff" + (":" + dotted), Some(Read(words, 0)));
    Regroup(dotted);
  }

  lemma Regroup(s: string)
    ensures "::" + ("ffff" + (":" + s)) == "::ffff:" + s
  {
  }

  lemma DottedNonempty(os: seq<nat>)
    requires AreOctets(os) && os != []
    ensures Dotted(os) != ""
  {
  }
}
