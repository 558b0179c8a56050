/** Which texts rtr_ipv6_str_to_addr reads, and as what (rtrlib/lib/ipv6.c): the words of a text
    by their digits, the double colon, and the texts that are accepted without giving an
    address. */
module Ipv6Grammar {
  import opened Ipv6Text

  // ----- Words -----

  const LOWER: string := "0123456789abcdef"
  const UPPER: string := "0123456789ABCDEF"

  ghost predicate IsDigitOf(c: char, k: nat) {
    k < 16 && (LOWER[k] == c || UPPER[k] == c)
  }

  function Horner(ds: seq<nat>): nat {
    if ds == [] then 0 else 16 * Horner(ds[..|ds| - 1]) + ds[|ds| - 1]
  }

  ghost predicate SpelledBy(p: string, ds: seq<nat>) {
    |ds| == |p| && forall i :: 0 <= i < |p| ==> IsDigitOf(p[i], ds[i])
  }

  /** One to four hexadecimal digits of either case, and the number they are. */
  ghost predicate Spells(p: string, w: nat) {
    1 <= |p| <= 4 && exists ds :: SpelledBy(p, ds) && w == Horner(ds)
  }

  lemma DigitIs(c: char, k: nat)
    ensures IsDigitOf(c, k) <==> IsHex(c) && HexValue(c) == k
  {
    if IsHex(c) {
      var v := HexValue(c);
      assert LOWER[v] == c || UPPER[v] == c;
    }
  }

  lemma {:induction false} HexNumberFrom(p: string, j: nat, ds: seq<nat>, done: seq<nat>)
    requires SpelledBy(p, ds) && (forall c :: c in p ==> IsHex(c)) && j == Horner(done)
    ensures HexNumber(p, j) == Horner(done + ds)
  {
    hide Horner, IsDigitOf;
    if p == "" {
      assert done + ds == done;
    } else {
      DigitIs(p[0], ds[0]);
      hide HexValue;
      HornerSnoc(done, ds[0]);
      HexNumberFrom(p[1..], 16 * j + HexValue(p[0]), ds[1..], done + [ds[0]]);
      assert done + ds == done + [ds[0]] + ds[1..];
    }
  }

  lemma HornerSnoc(done: seq<nat>, d: nat)
    ensures Horner(done + [d]) == 16 * Horner(done) + d
  {
    assert (done + [d])[..|done|] == done;
  }

  /** What the loop computes for a word is the number its digits are. */
  lemma SpellsIs(p: string, w: nat)
    ensures Spells(p, w) <==> IsPiece(p) && w == HexNumber(p, 0)
  {
    if Spells(p, w) {
      var ds :| SpelledBy(p, ds) && w == Horner(ds);
      forall c | c in p ensures IsHex(c) {
        var i :| 0 <= i < |p| && p[i] == c;
        DigitIs(p[i], ds[i]);
      }
      HexNumberFrom(p, 0, ds, []);
      assert [] + ds == ds;
    }
    if IsPiece(p) {
      var ds := seq(|p|, i requires 0 <= i < |p| => assert p[i] in p; HexValue(p[i]));
      forall i | 0 <= i < |p| ensures IsDigitOf(p[i], ds[i]) { DigitIs(p[i], ds[i]); }
      assert SpelledBy(p, ds);
      HexNumberFrom(p, 0, ds, []);
      assert [] + ds == ds;
    }
  }

  // ----- Lists of words -----

  /** One to four hexadecimal digits. */
  predicate IsPiece(p: string) {
    1 <= |p| <= 4 && forall c :: c in p ==> IsHex(c)
  }

  /** The words with single colons between them. */
  function JoinPieces(ps: seq<string>): string {
    if ps == [] then "" else if |ps| == 1 then ps[0] else ps[0] + ":" + JoinPieces(ps[1..])
  }

  ghost predicate Pieces(ps: seq<string>) {
    forall i :: 0 <= i < |ps| ==> IsPiece(ps[i])
  }

  function Number(p: string): nat
    requires IsPiece(p)
  {
    HexNumber(p, 0)
  }

  function Numbers(ps: seq<string>): (ws: seq<nat>)
    requires Pieces(ps)
    ensures |ws| == |ps|
  {
    if ps == [] then [] else [Number(ps[0])] + Numbers(ps[1..])
  }

  lemma {:induction false} JoinStarts(ps: seq<string>)
    requires Pieces(ps) && ps != []
    ensures JoinPieces(ps) != "" && IsHex(JoinPieces(ps)[0])
  {
    assert ps[0][0] in ps[0];
  }

  /** A word and what follows it. */
  lemma ScanPiece(p: string, rest: string, ws: seq<nat>, fill: int)
    requires IsPiece(p) && |ws| < 8 && (rest == "" || (|rest| > 1 && rest[0] == ':'))
    ensures var r := Scan(p + rest, ws, fill); var j := Number(p);
            r == if rest == "" then Some(Read(ws + [j], fill)) else Scan(rest[1..], ws + [j], fill)
  {
    HexLengthExact(p, rest);
    hide HexNumber, HexLength;
    var s := p + rest;
    assert s[..|p|] == p && s[|p|..] == rest && s[0] == p[0] && p[0] in p;
  }

  lemma First(ps: seq<string>)
    requires Pieces(ps) && ps != []
    ensures IsPiece(ps[0]) && Pieces(ps[1..]) && Numbers(ps) == [Number(ps[0])] + Numbers(ps[1..])
    ensures JoinPieces(ps) == if |ps| == 1 then ps[0] else ps[0] + (":" + JoinPieces(ps[1..]))
  {
    hide Number, IsPiece;
    FirstJoin(ps);
  }

  lemma FirstJoin(ps: seq<string>)
    requires ps != []
    ensures JoinPieces(ps) == if |ps| == 1 then ps[0] else ps[0] + (":" + JoinPieces(ps[1..]))
  {
    if |ps| > 1 { Regroup2(ps[0], ":", JoinPieces(ps[1..])); }
  }

  lemma NoPieces()
    ensures Pieces([]) && JoinPieces([]) == "" && Numbers([]) == []
  {
  }

  lemma Regroup2(a: string, b: string, c: string)
    ensures a + b + c == a + (b + c)
  {
  }

  lemma ColonOff(s: string)
    ensures (":" + s)[1..] == s && |":" + s| == 1 + |s| && (":" + s)[0] == ':'
    ensures ("::" + s)[1..] == ":" + s && |"::" + s| == 2 + |s| && ("::" + s)[0] == ':' && ("::" + s)[1] == ':'
  {
  }

  lemma Append(ws: seq<nat>, j: nat, more: seq<nat>)
    ensures ws + ([j] + more) == ws + [j] + more
  {
  }

  lemma {:induction false} PiecesScan(ps: seq<string>, ws: seq<nat>, fill: int)
    requires Pieces(ps) && |ws| + |ps| <= 8
    ensures Scan(JoinPieces(ps), ws, fill) == Some(Read(ws + Numbers(ps), fill))
  {
    hide *;
    if ps == [] {
      NoPieces();
      ScanEmpty(ws, fill);
      assert ws + [] == ws;
    } else {
      First(ps);
      var p, j, more := ps[0], Number(ps[0]), JoinPieces(ps[1..]);
      Append(ws, j, Numbers(ps[1..]));
      if |ps| == 1 {
        assert p + "" == p && ps[1..] == [];
        NoPieces();
        ScanPiece(p, "", ws, fill);
        assert ws + [j] + [] == ws + [j];
      } else {
        JoinStarts(ps[1..]);
        ColonOff(more);
        PiecesScan(ps[1..], ws + [j], fill);
        ScanPiece(p, ":" + more, ws, fill);
      }
    }
  }

  /** Words, the double colon and more words. */
  lemma {:induction false} GapScan(l: seq<string>, r: seq<string>, ws: seq<nat>)
    requires Pieces(l) && Pieces(r) && l != [] && |ws| + |l| + |r| <= 8
    ensures Scan(JoinPieces(l) + "::" + JoinPieces(r), ws, -1) == Some(Read(ws + Numbers(l) + Numbers(r), |ws| + |l|))
  {
    hide *;
    First(l);
    var p, j, tail := l[0], Number(l[0]), JoinPieces(r);
    Append(ws, j, Numbers(l[1..]));
    if |l| == 1 {
      assert l[1..] == [];
      NoPieces();
      assert ws + [j] + [] == ws + [j];
      Regroup2(p, "::", tail);
      ColonOff(tail);
      ScanPiece(p, "::" + tail, ws, -1);
      ScanColon(tail, ws + [j]);
      PiecesScan(r, ws + [j], |ws| + 1);
    } else {
      var inner := JoinPieces(l[1..]) + "::" + tail;
      GapScan(l[1..], r, ws + [j]);
      Inside(p, JoinPieces(l[1..]), tail);
      ColonOff(inner);
      ScanPiece(p, ":" + inner, ws, -1);
    }
  }

  lemma Inside(p: string, a: string, tail: string)
    ensures p + (":" + a) + "::" + tail == p + (":" + (a + "::" + tail))
  {
  }

  // ----- What a text is read as -----

  /** A text of words, with a double colon behind the words of `l` if there is a gap. */
  function Written(l: seq<string>, r: seq<string>, gap: bool): string {
    if gap then JoinPieces(l) + "::" + JoinPieces(r) else JoinPieces(l)
  }

  /** Every text of at most eight words. With a double colon, the words in front of it are the
      first, those behind it the last, and zeros are between; without one, the text must have
      all eight words, and with fewer it is accepted though not all words are set. */
  lemma ReadAs(l: seq<string>, r: seq<string>, gap: bool)
    requires Pieces(l) && Pieces(r) && |l| + |r| <= 8 && (!gap ==> r == [])
    ensures Parse(Written(l, r, gap))
         == if gap then Address(Numbers(l) + Zeros(8 - |l| - |r|) + Numbers(r))
            else if |l| == 8 then Address(Numbers(l))
            else Unset
  {
    if !gap {
      ReadPlain(l);
    } else {
      ReadGap(l, r);
    }
  }

  lemma ReadPlain(l: seq<string>)
    requires Pieces(l) && |l| <= 8
    ensures Parse(JoinPieces(l)) == if |l| == 8 then Address(Numbers(l)) else Unset
  {
    hide *;
    PiecesScan(l, [], -1);
    assert [] + Numbers(l) == Numbers(l);
    if l == [] { NoPieces(); } else { JoinStarts(l); }
    SameLength(l);
    ParsePlain(JoinPieces(l), Numbers(l));
  }

  lemma SameLength(l: seq<string>)
    requires Pieces(l)
    ensures |Numbers(l)| == |l|
  {
  }

  lemma ParsePlain(s: string, ws: seq<nat>)
    requires (s == "" || IsHex(s[0])) && Scan(s, [], -1) == Some(Read(ws, -1)) && |ws| <= 8
    ensures Parse(s) == if |ws| == 8 then Address(ws) else Unset
  {
    hide Scan;
  }

  lemma ParseGap(s: string, a: seq<nat>, b: seq<nat>)
    requires if a == [] then |s| > 1 && s[0] == ':' && s[1] == ':' && Scan(s[1..], [], -1) == Some(Read(a + b, |a|))
             else s != "" && IsHex(s[0]) && Scan(s, [], -1) == Some(Read(a + b, |a|))
    requires |a| + |b| <= 8
    ensures Parse(s) == Address(a + Zeros(8 - |a| - |b|) + b)
  {
    hide Scan, Expand;
    ExpandGap(a, b);
  }

  lemma ReadGap(l: seq<string>, r: seq<string>)
    requires Pieces(l) && Pieces(r) && |l| + |r| <= 8
    ensures Parse(JoinPieces(l) + "::" + JoinPieces(r)) == Address(Numbers(l) + Zeros(8 - |l| - |r|) + Numbers(r))
  {
    hide *;
    SameLength(l);
    SameLength(r);
    if l == [] {
      NoPieces();
      GapFirst(r);
      EmptyInFront("::" + JoinPieces(r), "::", JoinPieces(r), Numbers(r));
      ParseGap("::" + JoinPieces(r), [], Numbers(r));
    } else {
      JoinStarts(l);
      GapScan(l, r, []);
      Nothing(Numbers(l), Numbers(r));
      SameStart(JoinPieces(l), "::", JoinPieces(r));
      ParseGap(JoinPieces(l) + "::" + JoinPieces(r), Numbers(l), Numbers(r));
    }
  }

  lemma GapFirst(r: seq<string>)
    requires Pieces(r) && |r| <= 8
    ensures var s := "::" + JoinPieces(r);
            |s| > 1 && s[0] == ':' && s[1] == ':' && Scan(s[1..], [], -1) == Some(Read([] + Numbers(r), 0))
  {
    hide *;
    ColonOff(JoinPieces(r));
    ScanColon(JoinPieces(r), []);
    PiecesScan(r, [], 0);
  }

  lemma EmptyInFront(s: string, a: string, b: string, ws: seq<nat>)
    requires s == a + b
    ensures "" + a + b == s && [] + ws == ws
  {
  }

  lemma Nothing(a: seq<nat>, b: seq<nat>)
    ensures [] + a + b == a + b
  {
  }

  lemma SameStart(a: string, b: string, c: string)
    requires a != ""
    ensures a + b + c != "" && (a + b + c)[0] == a[0]
  {
  }

  /** The numbers of the words, by their digits. */
  lemma {:induction false} NumbersAre(ps: seq<string>)
    requires Pieces(ps)
    ensures forall i :: 0 <= i < |ps| ==> Spells(ps[i], Numbers(ps)[i])
  {
    hide Spells, HexNumber;
    if ps != [] {
      SpellsIs(ps[0], Number(ps[0]));
      NumbersAre(ps[1..]);
      forall i | 0 <= i < |ps| ensures Spells(ps[i], Numbers(ps)[i]) {
        if i > 0 { assert ps[i] == ps[1..][i - 1] && Numbers(ps)[i] == Numbers(ps[1..])[i - 1]; }
      }
    }
  }

  lemma ExpandGap(a: seq<nat>, b: seq<nat>)
    requires |a| + |b| <= 8
    ensures Expand(Read(a + b, |a|)) == Address(a + Zeros(8 - |a| - |b|) + b)
  {
    assert (a + b)[..|a|] == a && (a + b)[|a|..] == b;
  }

  /** Nothing else is read, apart from embedded IPv4 addresses. */
  lemma ReadOnly(s: string) returns (l: seq<string>, r: seq<string>, gap: bool)
    requires '.' !in s && Parse(s) != Malformed
    ensures Pieces(l) && Pieces(r) && |l| + |r| <= 8 && (!gap ==> r == []) && s == Written(l, r, gap)
  {
    if s != "" && s[0] == ':' {
      assert s[1..] != "" && s[1..][0] == ':' && s[1..][1..] == s[2..];
      hide Scan, JoinPieces, HexNumber;
      var none;
      r, none, gap := ScanShape(s[2..], [], 0);
      l, gap := [], true;
      NoPieces();
      assert s == "" + "::" + s[2..];
    } else {
      assert Scan(s, [], -1).Some?;
      hide Scan, JoinPieces, HexNumber, Parse;
      l, r, gap := ScanShape(s, [], -1);
      if gap && l == [] { StartsWithColon(s, JoinPieces(r)); }
    }
  }

  lemma StartsWithColon(s: string, tail: string)
    requires s == ":" + tail
    ensures s != "" && s[0] == ':'
  {
  }

  /** What the loop reads: words, and at most one more colon. */
  lemma {:induction false} ScanShape(s: string, ws: seq<nat>, fill: int) returns (l: seq<string>, r: seq<string>, gap: bool)
    requires '.' !in s && Scan(s, ws, fill).Some? && |ws| <= 8
    ensures Pieces(l) && Pieces(r) && |ws| + |l| + |r| <= 8 && (gap ==> fill < 0) && (!gap ==> r == [])
    ensures !gap ==> s == JoinPieces(l)
    ensures gap ==> s == (if l == [] then ":" else JoinPieces(l) + "::") + JoinPieces(r)
    decreases |s|
  {
    l, r, gap := [], [], false;
    NoPieces();
    if s != "" {
      if s[0] == ':' {
        assert fill < 0 && Scan(s[1..], ws, |ws|).Some?;
        hide Scan, JoinPieces;
        var none;
        r, none, gap := ScanShape(s[1..], ws, |ws|);
        gap := true;
        assert s == ":" + s[1..];
      } else {
        ScanWordForm(s, ws, fill);
        hide Scan, JoinPieces, HexNumber, IsPiece;
        var n := HexLength(s);
        var p, rest := s[..n], s[n..];
        assert s == p + rest;
        if rest == "" {
          l := [p];
          FirstJoin(l);
        } else {
          var l1;
          l1, r, gap := ScanShape(rest[1..], ws + [HexNumber(p, 0)], fill);
          l := [p] + l1;
          WordInFront(s, p, rest, l1, r, gap);
        }
      }
    }
  }

  lemma ScanWordForm(s: string, ws: seq<nat>, fill: int)
    requires '.' !in s && s != "" && s[0] != ':' && Scan(s, ws, fill).Some?
    ensures var n := HexLength(s);
            && IsPiece(s[..n]) && |ws| < 8
            && (n == |s| || (|s| > n + 1 && s[n] == ':' && Scan(s[n..][1..], ws + [HexNumber(s[..n], 0)], fill).Some?))
  {
    var n := HexLength(s);
    HexPrefix(s);
    hide HexNumber;
    if n < |s| {
      assert s[n] in s;
      if s[n] == ':' { NoHexNoColon(s); }
    }
  }

  lemma WordInFront(s: string, p: string, rest: string, l1: seq<string>, r: seq<string>, gap: bool)
    requires IsPiece(p) && Pieces(l1) && Pieces(r) && |rest| > 1 && rest[0] == ':' && s == p + rest && (!gap ==> r == [])
    requires !gap ==> rest[1..] == JoinPieces(l1)
    requires gap ==> rest[1..] == (if l1 == [] then ":" else JoinPieces(l1) + "::") + JoinPieces(r)
    ensures !gap ==> s == JoinPieces([p] + l1)
    ensures gap ==> s == JoinPieces([p] + l1) + "::" + JoinPieces(r)
  {
    hide JoinPieces, IsPiece;
    FirstJoin([p] + l1);
    OneOff(p, l1, rest);
    NoPieces();
    if gap {
      if l1 == [] { DoubleColon(p, JoinPieces(r)); } else { Inside(p, JoinPieces(l1), JoinPieces(r)); }
    } else if l1 == [] {
      assert false;
    }
  }

  lemma OneOff(p: string, l1: seq<string>, rest: string)
    requires |rest| > 1 && rest[0] == ':'
    ensures ([p] + l1)[0] == p && ([p] + l1)[1..] == l1 && |[p] + l1| == 1 + |l1| && rest == ":" + rest[1..] && rest[1..] != ""
  {
  }

  lemma DoubleColon(p: string, tail: string)
    ensures p + (":" + (":" + tail)) == p + "::" + tail
  {
  }

  lemma NoHexNoColon(s: string)
    requires s != "" && s[0] != ':' && HexLength(s) < |s| && s[HexLength(s)] == ':'
    ensures 1 <= HexLength(s)
  {
  }

  /** A text is accepted without giving an address if and only if it is fewer than eight
      words with single colons between them: "" and "1:2", for example. */
  lemma UnsetIff(s: string)
    ensures Parse(s) == Unset <==> exists ps :: |ps| < 8 && Pieces(ps) && s == JoinPieces(ps)
  {
    if ps :| |ps| < 8 && Pieces(ps) && s == JoinPieces(ps) {
      ReadAs(ps, [], false);
    }
    if Parse(s) == Unset {
      ScanBounds(if s != "" && s[0] == ':' then s[1..] else s, [], -1);
      if s != "" && s[0] == ':' {
        ScanKeepsFill(s[2..], [], 0);
      } else {
        var ps := ScanPieces(s, []);
      }
    }
  }

  lemma {:induction false} ScanPieces(s: string, ws: seq<nat>) returns (ps: seq<string>)
    requires var r := Scan(s, ws, -1); r.Some? && r.value.fill < 0 && |r.value.words| < 8
    ensures Pieces(ps) && s == JoinPieces(ps) && |ws| + |ps| == |Scan(s, ws, -1).value.words| && (s != "" ==> ps != [])
    decreases |s|
  {
    if s == "" {
      ps := [];
    } else if s[0] == ':' {
      ScanKeepsFill(s[1..], ws, |ws|);
      ps := [];
    } else {
      var n := HexLength(s);
      HexPrefix(s);
      var p, rest := s[..n], s[n..];
      if rest == "" {
        assert p == s;
        ps := [p];
      } else {
        assert rest[0] == ':' && |rest| > 1;
        NoHexNoColon(s);
        var more := ScanPieces(rest[1..], ws + [HexNumber(p, 0)]);
        ps := [p] + more;
        assert ps[1..] == more && s == p + ":" + rest[1..];
      }
    }
  }

  lemma {:induction false} ScanKeepsFill(s: string, ws: seq<nat>, fill: int)
    requires fill >= 0
    ensures var r := Scan(s, ws, fill); r.Some? ==> r.value.fill == fill
    decreases |s|
  {
    if s != "" && s[0] != ':' {
      var n := HexLength(s);
      HexPrefix(s);
      var rest := s[n..];
      if n <= 4 && |rest| > 1 && rest[0] == ':' && |ws| < 8 {
        ScanKeepsFill(rest[1..], ws + [HexNumber(s[..n], 0)], fill);
      }
    }
  }

  lemma {:induction false} ScanBounds(s: string, ws: seq<nat>, fill: int)
    requires fill <= |ws| <= 8
    ensures var r := Scan(s, ws, fill); r.Some? ==> r.value.fill <= |r.value.words| <= 8
    decreases |s|
  {
    if s != "" {
      if s[0] == ':' {
        if fill < 0 { ScanBounds(s[1..], ws, |ws|); }
      } else {
        var n := HexLength(s);
        HexPrefix(s);
        var rest := s[n..];
        if n <= 4 && |rest| > 1 && rest[0] == ':' && |ws| < 8 {
          ScanBounds(rest[1..], ws + [HexNumber(s[..n], 0)], fill);
        }
      }
    }
  }

  lemma UnsetExample()
    ensures Parse("") == Unset && Parse("1:2") == Unset
  {
    NoPieces();
    ReadPlain([]);
    var ps := ["1", "2"];
    assert ps[1..] == ["2"] && JoinPieces(["2"]) == "2";
    assert "1" + ":" + "2" == "1:2" == JoinPieces(ps);
    hide Parse, JoinPieces;
    ReadPlain(ps);
  }

  // ----- Upper and lower case -----

  function LowerChar(c: char): char {
    if 'A' <= c <= 'F' then (c as int - 'A' as int + 'a' as int) as char else c
  }

  function Lower(s: string): (r: string)
    ensures |r| == |s| && forall i :: 0 <= i < |s| ==> r[i] == LowerChar(s[i])
  {
    seq(|s|, i requires 0 <= i < |s| => LowerChar(s[i]))
  }

  lemma {:induction false} LowerHex(s: string)
    ensures HexLength(Lower(s)) == HexLength(s)
  {
    if s != "" {
      LowerHex(s[1..]);
      assert Lower(s)[1..] == Lower(s[1..]);
    }
  }

  lemma {:induction false} LowerNumber(s: string, j: nat)
    requires forall c :: c in s ==> IsHex(c)
    ensures (forall c :: c in Lower(s) ==> IsHex(c)) && HexNumber(Lower(s), j) == HexNumber(s, j)
  {
    if s != "" {
      LowerNumber(s[1..], 16 * j + HexValue(s[0]));
      assert Lower(s) == [LowerChar(s[0])] + Lower(s[1..]);
    }
  }

  lemma {:induction false} LowerOctet(s: string, max: nat)
    ensures var n := OctetLength(s, max); OctetLength(Lower(s), max) == n && Lower(s)[..n] == s[..n]
  {
    if max > 0 && s != "" && IsDigit(s[0]) {
      LowerOctet(s[1..], max - 1);
      assert Lower(s)[1..] == Lower(s[1..]);
      var n := OctetLength(s, max);
      assert s[..n] == [s[0]] + s[1..][..n - 1] && Lower(s)[..n] == [s[0]] + Lower(s[1..])[..n - 1];
    }
  }

  /** Reading octets, by the digits of the first, its value, whether a dot follows, and the
      others. */
  function OctetThen(n: nat, octet: nat, count: nat, dot: bool, more: Option<seq<nat>>): Option<seq<nat>> {
    if n == 0 then None
    else if count == 1 then Some([octet])
    else if !dot || more.None? then None
    else Some([octet] + more.value)
  }

  lemma NoOctets(s: string)
    ensures Octets(s, 0) == Some([])
  {
  }

  lemma OctetsThen(s: string, count: nat)
    requires count > 0
    ensures var n := OctetLength(s, 3); var dot := n < |s| && s[n] == '.';
            Octets(s, count)
            == OctetThen(n, DecNumber(s[..n], 0) % 256, count, dot, if n < |s| then Octets(s[n + 1..], count - 1) else None)
  {
    hide OctetLength, DecNumber;
  }

  lemma {:induction false} LowerOctets(s: string, count: nat)
    ensures Octets(Lower(s), count) == Octets(s, count)
    decreases count
  {
    hide *;
    if count == 0 {
      NoOctets(s);
      NoOctets(Lower(s));
    } else {
      var n := OctetLength(s, 3);
      LowerOctet(s, 3);
      LowerSplit(s, 0);
      OctetsThen(s, count);
      OctetsThen(Lower(s), count);
      if n < |s| {
        LowerSplit(s, n + 1);
        LowerDot(s, n);
        LowerOctets(s[n + 1..], count - 1);
      }
    }
  }

  lemma LowerDot(s: string, n: nat)
    requires n < |s|
    ensures Lower(s)[n] == '.' <==> s[n] == '.'
  {
  }

  /** The loop at a word, by the number of its digits, its value, the octets from here on and
      what follows. */
  function AtWord(n: nat, j: nat, octets: Option<seq<nat>>, rest: string, ws: seq<nat>, fill: int, more: Option<Read>): Option<Read> {
    if n > 4 then None
    else if |rest| > 1 && rest[0] == ':' then if |ws| >= 8 then None else more
    else if rest != "" && rest[0] == '.' && (|ws| == 6 || (|ws| < 6 && fill >= 0)) then
      if octets.None? || |octets.value| != 4 then None
      else Some(Read(ws + [octets.value[0] * 256 + octets.value[1], octets.value[2] * 256 + octets.value[3]], fill))
    else if rest != "" || |ws| >= 8 then None
    else Some(Read(ws + [j], fill))
  }

  lemma ScanAtWord(s: string, ws: seq<nat>, fill: int)
    requires s != "" && s[0] != ':'
    ensures forall c :: c in s[..HexLength(s)] ==> IsHex(c)
    ensures var n := HexLength(s); var rest := s[n..]; var j := HexNumber(s[..n], 0);
            Scan(s, ws, fill)
            == AtWord(n, j, Octets(s, 4), rest, ws, fill, if |rest| > 0 then Scan(rest[1..], ws + [j], fill) else None)
  {
    HexPrefix(s);
    hide HexLength, HexNumber, Octets;
  }

  lemma LowerRest(rest: string)
    ensures |Lower(rest)| == |rest|
    ensures rest != "" ==> Lower(rest)[1..] == Lower(rest[1..]) && (Lower(rest)[0] == ':' <==> rest[0] == ':') && (Lower(rest)[0] == '.' <==> rest[0] == '.')
  {
  }

  /** Only the first character of what follows matters. */
  lemma AtWordSame(n: nat, j: nat, octets: Option<seq<nat>>, rest: string, ws: seq<nat>, fill: int, more: Option<Read>)
    ensures AtWord(n, j, octets, Lower(rest), ws, fill, more) == AtWord(n, j, octets, rest, ws, fill, more)
  {
    LowerRest(rest);
  }

  lemma {:induction false} LowerScan(s: string, ws: seq<nat>, fill: int)
    ensures Scan(Lower(s), ws, fill) == Scan(s, ws, fill)
    decreases |s|
  {
    if s != "" {
      assert Lower(s)[1..] == Lower(s[1..]);
      if s[0] == ':' {
        if fill < 0 { LowerScan(s[1..], ws, |ws|); }
      } else {
        LowerWord(s, ws, fill);
      }
    }
  }

  lemma LowerWord(s: string, ws: seq<nat>, fill: int)
    requires s != "" && s[0] != ':'
    ensures Scan(Lower(s), ws, fill) == Scan(s, ws, fill)
    decreases |s|, 0
  {
    var n := HexLength(s);
    LowerStart(s);
    LowerHex(s);
    HexPrefix(s);
    LowerSplit(s, n);
    hide *;
    ScanAtWord(s, ws, fill);
    ScanAtWord(Lower(s), ws, fill);
    LowerNumber(s[..n], 0);
    LowerOctets(s, 4);
    var rest, j := s[n..], HexNumber(s[..n], 0);
    LowerRest(rest);
    if rest != "" { LowerScan(rest[1..], ws + [j], fill); }
    AtWordSame(n, j, Octets(s, 4), rest, ws, fill, if |rest| > 0 then Scan(rest[1..], ws + [j], fill) else None);
  }

  lemma LowerStart(s: string)
    requires s != ""
    ensures Lower(s) != "" && (Lower(s)[0] == ':' <==> s[0] == ':')
  {
  }

  lemma LowerSplit(s: string, n: nat)
    requires n <= |s|
    ensures |Lower(s)| == |s| && Lower(s)[..n] == Lower(s[..n]) && Lower(s)[n..] == Lower(s[n..])
  {
  }

  /** Digits may be of either case, in every text. */
  lemma CaseIsIgnored(s: string)
    ensures Parse(Lower(s)) == Parse(s)
  {
    if s != "" { assert Lower(s)[1..] == Lower(s[1..]); }
    LowerScan(if s != "" && s[0] == ':' then s[1..] else s, [], -1);
  }
}
