/** No prefix-free code at all, tree or not, encodes the text in fewer bits. */
module HuffmanPrefix {
  import opened Common
  import opened HuffmanTree
  import opened HuffmanBuild
  import opened HuffmanCodec
  import opened HuffmanLength

  /** Bit strings of which none is a prefix of another. */
  ghost predicate IsPrefixCode(codes: map<byte, string>) {
    && (forall c :: c in codes ==> IsBits(codes[c]))
    && (forall c, d :: c in codes && d in codes && c != d ==> !(codes[c] <= codes[d]))
  }

  // ---------- from a code to a tree ----------

  /** The codes that begin with `bit`, without it. */
  function Part(codes: map<byte, string>, bit: char): map<byte, string> {
    map c | c in codes && codes[c] != "" && codes[c][0] == bit :: codes[c][1..]
  }

  /** `part` holds some of the characters, each with its code but for the first bit. */
  ghost predicate IsPart(part: map<byte, string>, codes: map<byte, string>) {
    forall c :: c in part ==> c in codes && |codes[c]| == |part[c]| + 1
  }

  lemma WithoutFirstBit(x: string, y: string)
    requires x != "" && y != "" && x[0] == y[0] && x[1..] <= y[1..]
    ensures x <= y
  {
    assert x == [x[0]] + x[1..] && y == [y[0]] + y[1..];
  }

  lemma PartIsPrefixCode(codes: map<byte, string>, bit: char)
    requires IsPrefixCode(codes)
    ensures IsPrefixCode(Part(codes, bit)) && IsPart(Part(codes, bit), codes)
  {
    var part := Part(codes, bit);
    forall c, d | c in part && d in part && c != d
      ensures !(part[c] <= part[d])
    {
      if part[c] <= part[d] {
        WithoutFirstBit(codes[c], codes[d]);
        assert false;
      }
    }
  }

  lemma AnotherKey(codes: map<byte, string>, c: byte) returns (d: byte)
    requires |codes| >= 2 && c in codes
    ensures d in codes && d != c
  {
    assert |codes.Keys - {c}| >= 1;
    d :| d in codes.Keys - {c};
  }

  /** With two codes or more none is empty, so each belongs to one of the parts. */
  lemma TwoParts(codes: map<byte, string>)
    requires IsPrefixCode(codes) && |codes| >= 2
    ensures codes.Keys == Part(codes, '0').Keys + Part(codes, '1').Keys
    ensures Part(codes, '0').Keys !! Part(codes, '1').Keys
    ensures forall c :: c in codes ==> codes[c] != ""
  {
    forall c | c in codes
      ensures codes[c] != "" && (c in Part(codes, '0') || c in Part(codes, '1'))
    {
      var d := AnotherKey(codes, c);
      assert !(codes[c] <= codes[d]);
    }
  }

  /** The tree has `c` at a leaf no deeper than `n`. */
  ghost predicate LeafWithin(s: Shape, c: byte, n: nat) {
    exists k :: 0 <= k < |Symbols(s)| && Symbols(s)[k] == c && |Path(s, k)| <= n
  }

  lemma LeafBelow(l: Shape, r: Shape, c: byte, n: nat)
    requires LeafWithin(l, c, n) || LeafWithin(r, c, n)
    ensures LeafWithin(Fork(l, r), c, n + 1)
  {
    var s := Fork(l, r);
    if LeafWithin(l, c, n) {
      var k :| 0 <= k < |Symbols(l)| && Symbols(l)[k] == c && |Path(l, k)| <= n;
      assert Symbols(s)[k] == c && |Path(s, k)| <= n + 1;
    } else {
      var k :| 0 <= k < |Symbols(r)| && Symbols(r)[k] == c && |Path(r, k)| <= n;
      assert Symbols(s)[|Symbols(l)| + k] == c && |Path(s, |Symbols(l)| + k)| <= n + 1;
    }
  }

  lemma LeafDeeper(s: Shape, c: byte, n: nat)
    requires LeafWithin(s, c, n)
    ensures LeafWithin(s, c, n + 1)
  {
  }

  /** The tree has exactly these characters, each no deeper than its code is long. */
  ghost predicate Realises(s: Shape, codes: map<byte, string>) {
    && multiset(Symbols(s)) == multiset(codes.Keys)
    && forall c :: c in codes ==> LeafWithin(s, c, |codes[c]|)
  }

  lemma OneCode(codes: map<byte, string>, c: byte)
    requires codes.Keys == {c}
    ensures Realises(Tip(c), codes)
  {
    assert Symbols(Tip(c))[0] == c && Path(Tip(c), 0) == "";
  }

  lemma SkipBit(s: Shape, codes: map<byte, string>, part: map<byte, string>)
    requires Realises(s, part) && IsPart(part, codes) && part.Keys == codes.Keys
    ensures Realises(s, codes)
  {
    forall c | c in codes
      ensures LeafWithin(s, c, |codes[c]|)
    {
      assert c in part.Keys;
      LeafDeeper(s, c, |part[c]|);
    }
  }

  lemma KeysAdd(a: set<byte>, b: set<byte>)
    requires a !! b
    ensures multiset(a + b) == multiset(a) + multiset(b)
  {
  }

  lemma ForkParts(l: Shape, r: Shape, codes: map<byte, string>, zero: map<byte, string>, one: map<byte, string>)
    requires Realises(l, zero) && Realises(r, one) && IsPart(zero, codes) && IsPart(one, codes)
    requires codes.Keys == zero.Keys + one.Keys && zero.Keys !! one.Keys
    ensures Realises(Fork(l, r), codes)
  {
    forall c | c in codes
      ensures LeafWithin(Fork(l, r), c, |codes[c]|)
    {
      assert c in zero.Keys || c in one.Keys;
      LeafBelow(l, r, c, if c in zero then |zero[c]| else |one[c]|);
    }
    KeysAdd(zero.Keys, one.Keys);
    assert Symbols(Fork(l, r)) == Symbols(l) + Symbols(r);
  }

  /** Two trees for the parts give one for the whole; an empty part needs none. */
  lemma JoinParts(codes: map<byte, string>, zero: map<byte, string>, one: map<byte, string>,
                  l: Option<Shape>, r: Option<Shape>)
    returns (s: Shape)
    requires codes != map[] && IsPart(zero, codes) && IsPart(one, codes)
    requires codes.Keys == zero.Keys + one.Keys && zero.Keys !! one.Keys
    requires if zero == map[] then l == None else l.Some? && Realises(l.value, zero)
    requires if one == map[] then r == None else r.Some? && Realises(r.value, one)
    ensures Realises(s, codes)
  {
    if l == None {
      assert one.Keys == codes.Keys;
      s := r.value;
      SkipBit(s, codes, one);
    } else if r == None {
      assert zero.Keys == codes.Keys;
      s := l.value;
      SkipBit(s, codes, zero);
    } else {
      s := Fork(l.value, r.value);
      ForkParts(l.value, r.value, codes, zero, one);
    }
  }

  ghost predicate NoLonger(codes: map<byte, string>, n: int) {
    forall c :: c in codes ==> |codes[c]| <= n
  }

  lemma Split(codes: map<byte, string>, n: nat) returns (zero: map<byte, string>, one: map<byte, string>)
    requires IsPrefixCode(codes) && |codes| >= 2 && NoLonger(codes, n)
    ensures n > 0 && NoLonger(zero, n - 1) && NoLonger(one, n - 1)
    ensures IsPrefixCode(zero) && IsPart(zero, codes) && IsPrefixCode(one) && IsPart(one, codes)
    ensures codes.Keys == zero.Keys + one.Keys && zero.Keys !! one.Keys
  {
    zero, one := Part(codes, '0'), Part(codes, '1');
    TwoParts(codes);
    PartIsPrefixCode(codes, '0');
    PartIsPrefixCode(codes, '1');
    var c :| c in codes;
  }

  /** Every prefix-free code has a tree that is at least as good; `n` bounds its code lengths. */
  lemma {:induction false} TreeOfCode(codes: map<byte, string>, n: nat) returns (s: Shape)
    requires codes != map[] && IsPrefixCode(codes) && NoLonger(codes, n)
    ensures Realises(s, codes)
    decreases n
  {
    var c :| c in codes;
    if codes.Keys == {c} {
      s := Tip(c);
      OneCode(codes, c);
    } else {
      TwoKeys(codes, c);
      var zero, one := Split(codes, n);
      var l, r := None, None;
      if zero != map[] {
        var tree := TreeOfCode(zero, n - 1);
        l := Some(tree);
      }
      if one != map[] {
        var tree := TreeOfCode(one, n - 1);
        r := Some(tree);
      }
      s := JoinParts(codes, zero, one, l, r);
    }
  }

  lemma TwoKeys(codes: map<byte, string>, c: byte)
    requires c in codes && codes.Keys != {c}
    ensures |codes| >= 2
  {
    var d :| d in codes.Keys && d != c;
    assert {c, d} <= codes.Keys;
    FewerInSubset({c, d}, codes.Keys);
    assert |codes| == |codes.Keys|;
  }

  lemma FewerInSubset<T>(a: set<T>, b: set<T>)
    requires a <= b
    ensures |a| <= |b|
  {
    assert b == a + (b - a);
  }

  lemma {:induction false} LongestCode(codes: map<byte, string>) returns (n: nat)
    ensures NoLonger(codes, n)
    decreases |codes|
  {
    n := 0;
    if codes != map[] {
      var c :| c in codes;
      var m := LongestCode(codes - {c});
      n := if m >= |codes[c]| then m else |codes[c]|;
      forall d | d in codes
        ensures |codes[d]| <= n
      {
        assert d == c || (d in codes - {c} && (codes - {c})[d] == codes[d]);
      }
    }
  }

  // ---------- the shortest code ----------

  lemma CodeWithin(s: Shape, c: byte, n: nat)
    requires Distinct(Symbols(s)) && LeafWithin(s, c, n)
    ensures c in Codes(s, "") && |Codes(s, "")[c]| <= n
  {
    var k :| 0 <= k < |Symbols(s)| && Symbols(s)[k] == c && |Path(s, k)| <= n;
    CodesArePaths(s, "", k);
  }

  /** Shorter codes give a shorter text. */
  lemma {:induction false} ShorterCodes(text: seq<byte>, a: map<byte, string>, b: map<byte, string>)
    requires forall c :: c in text ==> c in a && c in b && |a[c]| <= |b[c]|
    ensures |Encode(text, a)| <= |Encode(text, b)|
  {
    if text != [] {
      assert forall c :: c in text[1..] ==> c in text;
      ShorterCodes(text[1..], a, b);
    }
  }

  /** A sequence without repetition holds each of its elements once. */
  lemma OnceEach<T>(s: seq<T>, all: set<T>)
    requires Distinct(s) && forall x :: x in s <==> x in all
    ensures multiset(s) == multiset(all)
  {
    forall x
      ensures multiset(s)[x] == multiset(all)[x]
    {
      DistinctCounts(s, x);
      assert x in s <==> x in multiset(s);
    }
  }

  /** The codes of the characters that occur. */
  function Used(codes: map<byte, string>, text: seq<byte>): map<byte, string> {
    map c | c in codes && c in text :: codes[c]
  }

  lemma TreeHasUsed(t: Tree, text: seq<byte>, codes: map<byte, string>, s: Shape)
    requires IsTreeFor(t, text) && (forall c :: c in text ==> c in codes) && Realises(s, Used(codes, text))
    ensures SameCharacters(ShapeOf(t), s)
  {
    var symbols := Symbols(ShapeOf(t));
    forall c: byte
      ensures c in symbols <==> c in Used(codes, text).Keys
    {
      assert c in text <==> c in multiset(text);
    }
    OnceEach(symbols, Used(codes, text).Keys);
  }

  lemma UsedIsPrefixCode(text: seq<byte>, codes: map<byte, string>)
    requires text != [] && forall c :: c in text ==> c in codes && IsBits(codes[c])
    requires forall c, d :: c in text && d in text && c != d ==> !(codes[c] <= codes[d])
    ensures IsPrefixCode(Used(codes, text)) && Used(codes, text) != map[]
  {
    assert text[0] in Used(codes, text);
  }

  /**
   * Any bit strings for the characters of the text, none of them a prefix of another, take at least as many
   * bits as the codes of the Huffman tree.
   */
  lemma ShortestCode(t: Tree, text: seq<byte>, codes: map<byte, string>)
    requires IsTreeFor(t, text) && text != []
    requires forall c :: c in text ==> c in codes && IsBits(codes[c])
    requires forall c, d :: c in text && d in text && c != d ==> !(codes[c] <= codes[d])
    ensures forall c :: c in text ==> c in Codes(ShapeOf(t), "")
    ensures |Encode(text, Codes(ShapeOf(t), ""))| <= |Encode(text, codes)|
  {
    var used := Used(codes, text);
    UsedIsPrefixCode(text, codes);
    var n := LongestCode(used);
    var s := TreeOfCode(used, n);
    TreeHasUsed(t, text, codes, s);
    HuffmanTreeCovers(t, text);
    CoversCodes(ShapeOf(t), text);
    SameCharactersCover(ShapeOf(t), s, text);
    forall c | c in text
      ensures c in Codes(s, "") && |Codes(s, "")[c]| <= |codes[c]|
    {
      assert c in used;
      CodeWithin(s, c, |used[c]|);
    }
    ShortestEncoding(t, text, s);
    ShorterCodes(text, Codes(s, ""), codes);
  }
}
