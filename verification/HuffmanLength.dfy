/** The length of the encoded text, and why no other tree for the same characters gives a shorter one. */
module HuffmanLength {
  import opened Common
  import opened HuffmanTree
  import opened HuffmanOptimality
  import opened HuffmanBuild
  import opened HuffmanCodec

  /** How often each of `symbols` occurs in `m`. */
  function Counts(m: multiset<byte>, symbols: seq<byte>): (w: seq<nat>)
    ensures |w| == |symbols| && forall i :: 0 <= i < |symbols| ==> w[i] == m[symbols[i]]
  {
    if symbols == [] then [] else [m[symbols[0]]] + Counts(m, symbols[1..])
  }

  lemma OnlyThere(symbols: seq<byte>, i: nat, k: nat)
    requires Distinct(symbols) && i < |symbols| && k < |symbols|
    ensures symbols[k] == symbols[i] <==> k == i
  {
  }

  lemma CountOne(c: byte, m: multiset<byte>, symbols: seq<byte>, i: nat)
    requires Distinct(symbols) && i < |symbols| && symbols[i] == c
    ensures Counts(m + multiset{c}, symbols) == Counts(m, symbols)[i := Counts(m, symbols)[i] + 1]
  {
    var w, v := Counts(m + multiset{c}, symbols), Counts(m, symbols);
    forall k | 0 <= k < |symbols|
      ensures w[k] == if k == i then v[k] + 1 else v[k]
    {
      OnlyThere(symbols, i, k);
      assert w[k] == (m + multiset{c})[symbols[k]] && v[k] == m[symbols[k]];
    }
    assert w == v[i := v[i] + 1];
  }

  lemma TimesOne(n: nat)
    ensures Times(1, n) == n
  {
  }

  lemma DotZero(w: seq<nat>, d: seq<nat>)
    requires |w| == |d| && forall i :: 0 <= i < |w| ==> w[i] == 0
    ensures Dot(w, d) == 0 && Sum(w) == 0
  {
    if w != [] {
      TimesIsProduct(0, d[0]);
      DotZero(w[1..], d[1..]);
    }
  }

  lemma DotAddOne(w: seq<nat>, d: seq<nat>, i: nat)
    requires |w| == |d| && i < |w|
    ensures Dot(w[i := w[i] + 1], d) == Dot(w, d) + d[i]
  {
    DotUpdate(w, d, i, w[i] + 1);
    TimesAdds(w[i], 1, d[i]);
    TimesOne(d[i]);
  }

  lemma SumAddOne(w: seq<nat>, i: nat)
    requires i < |w|
    ensures Sum(w[i := w[i] + 1]) == Sum(w) + 1
  {
    if i == 0 {
      assert w[i := w[i] + 1][1..] == w[1..];
    } else {
      assert w[i := w[i] + 1][1..] == w[1..][i - 1 := w[1..][i - 1] + 1];
      SumAddOne(w[1..], i - 1);
    }
  }

  lemma AddOne(w: seq<nat>, d: seq<nat>, i: nat)
    requires |w| == |d| && i < |w|
    ensures Dot(w[i := w[i] + 1], d) == Dot(w, d) + d[i]
    ensures Sum(w[i := w[i] + 1]) == Sum(w) + 1
  {
    DotAddOne(w, d, i);
    SumAddOne(w, i);
  }

  lemma CodeLength(s: Shape, c: byte) returns (i: nat)
    requires Distinct(Symbols(s)) && c in Symbols(s)
    ensures i < |Symbols(s)| && Symbols(s)[i] == c
    ensures c in Codes(s, "") && |Codes(s, "")[c]| == Depths(s, 0)[i]
  {
    i := CodeOfCharacter(s, c);
    CodesArePaths(s, "", i);
  }

  /** One more character adds its code's length to the weighted path length. */
  lemma OneMore(s: Shape, m: multiset<byte>, c: byte)
    requires Distinct(Symbols(s)) && c in Symbols(s)
    ensures c in Codes(s, "")
    ensures Dot(Counts(m + multiset{c}, Symbols(s)), Depths(s, 0))
         == Dot(Counts(m, Symbols(s)), Depths(s, 0)) + |Codes(s, "")[c]|
    ensures Sum(Counts(m + multiset{c}, Symbols(s))) == Sum(Counts(m, Symbols(s))) + 1
  {
    var i := CodeLength(s, c);
    OneMoreAt(m, c, Symbols(s), Depths(s, 0), i);
  }

  lemma OneMoreAt(m: multiset<byte>, c: byte, symbols: seq<byte>, d: seq<nat>, i: nat)
    requires Distinct(symbols) && |d| == |symbols| && i < |symbols| && symbols[i] == c
    ensures Dot(Counts(m + multiset{c}, symbols), d) == Dot(Counts(m, symbols), d) + d[i]
    ensures Sum(Counts(m + multiset{c}, symbols)) == Sum(Counts(m, symbols)) + 1
  {
    CountOne(c, m, symbols, i);
    AddOne(Counts(m, symbols), d, i);
  }

  lemma MultisetHead(text: seq<byte>)
    requires text != []
    ensures multiset(text) == multiset(text[1..]) + multiset{text[0]}
  {
    assert text == [text[0]] + text[1..];
  }

  /** The encoded length is the sum of frequency times code length; the frequencies sum to the text's length. */
  lemma {:induction false} EncodedLength(s: Shape, text: seq<byte>)
    requires Covers(s, text) && forall c :: c in text ==> c in Codes(s, "")
    ensures |Encode(text, Codes(s, ""))| == Dot(Counts(multiset(text), Symbols(s)), Depths(s, 0))
    ensures Sum(Counts(multiset(text), Symbols(s))) == |text|
  {
    if text == [] {
      DotZero(Counts(multiset(text), Symbols(s)), Depths(s, 0));
    } else {
      EncodedLength(s, text[1..]);
      OneMore(s, multiset(text[1..]), text[0]);
      MultisetHead(text);
    }
  }

  lemma CountsAppend(m: multiset<byte>, a: seq<byte>, b: seq<byte>)
    ensures Counts(m, a + b) == Counts(m, a) + Counts(m, b)
  {
  }

  lemma CountsRotate(m: multiset<byte>, a: seq<byte>, c: byte, b: seq<byte>)
    ensures multiset(Counts(m, a + [c] + b)) == multiset{m[c]} + multiset(Counts(m, a + b))
  {
    CountsAppend(m, a, b);
    CountsAppend(m, a + [c], b);
    CountsAppend(m, a, [c]);
    assert Counts(m, [c]) == [m[c]];
  }

  lemma CountsHead(m: multiset<byte>, a: seq<byte>)
    requires |a| > 0
    ensures multiset(Counts(m, a)) == multiset{m[a[0]]} + multiset(Counts(m, a[1..]))
  {
  }

  lemma CountsRemove(m: multiset<byte>, b: seq<byte>, j: nat)
    requires j < |b|
    ensures multiset(Counts(m, b)) == multiset{m[b[j]]} + multiset(Counts(m, b[..j] + b[j + 1..]))
  {
    CountsRotate(m, b[..j], b[j], b[j + 1..]);
    assert b == b[..j] + [b[j]] + b[j + 1..];
  }

  lemma {:induction false} CountsPermute(m: multiset<byte>, a: seq<byte>, b: seq<byte>)
    requires multiset(a) == multiset(b)
    ensures multiset(Counts(m, a)) == multiset(Counts(m, b))
  {
    if a == [] {
      assert |multiset(a)| == |multiset(b)|;
    } else {
      var j := PermutationTail(a, b);
      CountsPermute(m, a[1..], b[..j] + b[j + 1..]);
      CountsHead(m, a);
      CountsRemove(m, b, j);
    }
  }

  /** `t` is an optimal tree for the frequencies of `text`. */
  ghost predicate IsTreeFor(t: Tree, text: seq<byte>) {
    IsHuffmanTreeOf(t, TableOf(text))
  }

  lemma HuffmanTreeCovers(t: Tree, text: seq<byte>)
    requires IsTreeFor(t, text)
    ensures Covers(ShapeOf(t), text)
    ensures Frequencies(t) == Counts(multiset(text), Symbols(ShapeOf(t)))
  {
    forall c | c in text
      ensures c in Symbols(ShapeOf(t))
    {
      assert c in multiset(text);
    }
  }

  /** `other` is a code tree for the same characters as `s`. */
  ghost predicate SameCharacters(s: Shape, other: Shape) {
    multiset(Symbols(other)) == multiset(Symbols(s))
  }

  lemma SameCharactersCover(s: Shape, other: Shape, text: seq<byte>)
    requires Covers(s, text) && SameCharacters(s, other)
    ensures Covers(other, text)
  {
    forall x
      ensures multiset(Symbols(s))[x] <= 1
    {
      DistinctCounts(Symbols(s), x);
    }
    DistinctFromCounts(Symbols(other));
    forall c | c in text
      ensures c in Symbols(other)
    {
      assert c in multiset(Symbols(s));
    }
  }

  lemma {:induction false} DistinctCounts<T>(s: seq<T>, x: T)
    requires Distinct(s)
    ensures multiset(s)[x] <= 1
  {
    if s != [] {
      assert s == [s[0]] + s[1..];
      DistinctCounts(s[1..], x);
      if x == s[0] {
        assert x !in s[1..];
      }
    }
  }

  /** The Huffman tree encodes the text in no more bits than any code tree for the same characters. */
  lemma ShortestEncoding(t: Tree, text: seq<byte>, other: Shape)
    requires IsTreeFor(t, text) && SameCharacters(ShapeOf(t), other)
    requires forall c :: c in text ==> c in Codes(ShapeOf(t), "") && c in Codes(other, "")
    ensures |Encode(text, Codes(ShapeOf(t), ""))| <= |Encode(text, Codes(other, ""))|
  {
    HuffmanTreeCovers(t, text);
    SameCharactersCover(ShapeOf(t), other, text);
    EncodedLength(ShapeOf(t), text);
    EncodedLength(other, text);
    CountsPermute(multiset(text), Symbols(ShapeOf(t)), Symbols(other));
    HuffmanIsOptimal(t, other, Counts(multiset(text), Symbols(other)));
  }

  /** The root carries the text's length, and the merged nodes sum to the encoded length. */
  lemma CostConservation(t: Tree, text: seq<byte>)
    requires IsTreeFor(t, text)
    requires forall c :: c in text ==> c in Codes(ShapeOf(t), "")
    ensures t.frequency == |text|
    ensures MergedSum(t) == |Encode(text, Codes(ShapeOf(t), ""))|
  {
    HuffmanTreeCovers(t, text);
    EncodedLength(ShapeOf(t), text);
    FrequencyIsSum(t);
    MergedSumIsPathLength(t, 0);
  }

  function BytesFrom(low: nat): (b: set<byte>)
    requires low <= BYTES
    ensures |b| == BYTES - low
    ensures forall c: byte :: c in b <==> low <= c
    decreases BYTES - low
  {
    if low == BYTES then {} else {low} + BytesFrom(low + 1)
  }

  lemma AtMost(symbols: seq<byte>, low: nat)
    requires low <= BYTES && Distinct(symbols) && forall c :: c in symbols ==> low <= c
    ensures |symbols| <= BYTES - low
  {
    Pigeonhole(symbols, BytesFrom(low));
  }

  lemma NoNulLeaf(t: Tree, text: seq<byte>)
    requires IsTreeFor(t, text) && 0 !in text
    ensures Distinct(Symbols(ShapeOf(t))) && forall c :: c in Symbols(ShapeOf(t)) ==> 1 <= c
  {
    assert multiset(text)[0] == 0;
    NoLeafForZero(Symbols(ShapeOf(t)), TableOf(text));
  }

  lemma NoLeafForZero(symbols: seq<byte>, table: seq<nat>)
    requires |table| == BYTES && OncePerPositive(symbols, table) && table[0] == 0
    ensures Distinct(symbols) && forall c :: c in symbols ==> 1 <= c
  {
  }

  /** Content without NUL has at most 255 leaves, so no code is longer than 254 bits. */
  lemma CodesFitBuffer(t: Tree, text: seq<byte>)
    requires IsTreeFor(t, text) && 0 !in text
    ensures |Symbols(ShapeOf(t))| <= 255 && Height(ShapeOf(t)) <= 254
  {
    NoNulLeaf(t, text);
    AtMost(Symbols(ShapeOf(t)), 1);
    HeightBelowLeaves(ShapeOf(t));
  }

  lemma {:induction false} PathWithinHeight(s: Shape, i: nat)
    requires i < |Symbols(s)|
    ensures |Path(s, i)| <= Height(s)
  {
    if s.Fork? {
      if i < |Symbols(s.zero)| {
        PathWithinHeight(s.zero, i);
      } else {
        PathWithinHeight(s.one, i - |Symbols(s.zero)|);
      }
    }
  }

  /** Every code is a string of '0' and '1' no longer than the tree is high. */
  lemma CodesAreShortBits(s: Shape, c: byte)
    requires Distinct(Symbols(s)) && c in Codes(s, "")
    ensures IsBits(Codes(s, "")[c]) && |Codes(s, "")[c]| <= Height(s)
  {
    CodesDomain(s, "");
    var i := CodeOfCharacter(s, c);
    PathIsBits(s, i);
    PathWithinHeight(s, i);
  }

  /** A character has a code exactly if it occurs in the text. */
  lemma CodesAreForText(t: Tree, text: seq<byte>)
    requires IsTreeFor(t, text)
    ensures forall c: byte :: c in Codes(ShapeOf(t), "") <==> c in text
  {
    CodesDomain(ShapeOf(t), "");
    forall c: byte
      ensures c in text <==> multiset(text)[c] > 0
    {
      assert c in text <==> c in multiset(text);
    }
  }

  /** The codes of two different characters are not prefixes of each other. */
  lemma CodesArePrefixFree(s: Shape, c: byte, d: byte)
    requires Distinct(Symbols(s)) && c in Codes(s, "") && d in Codes(s, "") && c != d
    ensures !(Codes(s, "")[c] <= Codes(s, "")[d])
  {
    CodesDomain(s, "");
    var i := CodeOfCharacter(s, c);
    var j := CodeOfCharacter(s, d);
    PrefixFree(s, i, j);
  }
}
