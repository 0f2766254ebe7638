/** The content "aab" from its bytes to the bytes of its file. */
module HuffmanExample {
  import opened Common
  import opened HuffmanTree
  import opened HuffmanBuild
  import opened HuffmanCodec
  import opened HuffmanLength
  import opened HuffmanCompress

  /** The only trees with these two characters. */
  lemma TreesOfTwo(s: Shape)
    requires Distinct(Symbols(s)) && forall c: byte :: c in Symbols(s) <==> c == 97 || c == 98
    ensures s == Fork(Tip(97), Tip(98)) || s == Fork(Tip(98), Tip(97))
  {
    AtMostTwo(Symbols(s));
    assert 97 in Symbols(s) && 98 in Symbols(s);
    OneSymbol(s);
    OneSymbol(s.zero);
    OneSymbol(s.one);
    assert Symbols(s)[0] in Symbols(s) && Symbols(s)[1] in Symbols(s);
  }

  lemma AtMostTwo(symbols: seq<byte>)
    requires Distinct(symbols) && forall c :: c in symbols ==> c == 97 || c == 98
    ensures |symbols| <= 2
  {
    Pigeonhole(symbols, {97, 98});
  }

  lemma OneSymbol(s: Shape)
    ensures |Symbols(s)| >= 2 || s == Tip(Symbols(s)[0])
  {
  }

  /** In every order that the sort may give, `b` is the left leaf: it occurs once, and `a` twice. */
  lemma TreeOfAab(t: Tree, text: seq<byte>)
    requires text == [97, 97, 98] && IsTreeFor(t, text)
    ensures t == Node(3, Leaf(98, 1), Leaf(97, 2))
  {
    assert multiset(text)[97] == 2 && multiset(text)[98] == 1;
    assert forall c: byte :: multiset(text)[c] > 0 <==> c == 97 || c == 98;
    TreesOfTwo(ShapeOf(t));
    LabelsOfTwo(t, text);
  }

  lemma LeafLabels(t: Tree, table: seq<nat>)
    requires |table| == BYTES && Labelled(t, table) && WellFormed(t)
    requires t.Node? && t.left.Leaf? && t.right.Leaf?
    ensures t.left.frequency == table[t.left.character] && t.right.frequency == table[t.right.character]
    ensures t.frequency == t.left.frequency + t.right.frequency
  {
    var symbols := Symbols(ShapeOf(t));
    assert symbols == [t.left.character, t.right.character];
    assert Frequencies(t) == [t.left.frequency, t.right.frequency];
    assert Frequencies(t)[0] == table[symbols[0]] && Frequencies(t)[1] == table[symbols[1]];
  }

  lemma LabelsOfTwo(t: Tree, text: seq<byte>)
    requires IsTreeFor(t, text) && multiset(text)[97] == 2 && multiset(text)[98] == 1
    requires ShapeOf(t) == Fork(Tip(97), Tip(98)) || ShapeOf(t) == Fork(Tip(98), Tip(97))
    ensures t == Node(3, Leaf(98, 1), Leaf(97, 2))
  {
    LeafLabels(t, TableOf(text));
  }

  lemma CodesOfAab(s: Shape)
    requires s == Fork(Tip(98), Tip(97))
    ensures Codes(s, "") == map[98 := "0", 97 := "1"]
    ensures TreeBytes(s) == [1, 0, 1, 98, 0, 0, 1, 97, 0, 0]
  {
    assert "" + "0" == "0" && "" + "1" == "1";
  }

  lemma EncodeAab(text: seq<byte>, codes: map<byte, string>)
    requires text == [97, 97, 98] && codes == map[98 := "0", 97 := "1"]
    ensures Encode(text, codes) == "110"
  {
    assert text[1..] == [97, 98] && text[1..][1..] == [98] && text[1..][1..][1..] == [];
    assert Encode([98], codes) == "0";
    assert Encode([97, 98], codes) == "10" by {
      assert [97, 98][1..] == [98];
    }
  }

  lemma ValueOneMore(bits: string, c: char, more: string)
    requires more == bits + [c]
    ensures Value(more) == 2 * Value(bits) + Bit(c)
  {
    assert more[..|more| - 1] == bits;
  }

  lemma Value110(bits: string)
    requires bits == "11000000"
    ensures Value(bits) == 192
  {
    ValueOneMore("", '1', "1");
    ValueOneMore("1", '1', "11");
    ValueOneMore("11", '0', "110");
    ValueOneMore("110", '0', "1100");
    ValueOneMore("1100", '0', "11000");
    ValueOneMore("11000", '0', "110000");
    ValueOneMore("110000", '0', "1100000");
    ValueOneMore("1100000", '0', "11000000");
  }

  lemma Pack110(bits: string)
    requires bits == "110"
    ensures Pack(bits) == [192]
  {
    var full := bits + Zeros(5);
    assert full == "11000000";
    PackShort(bits, full);
    Value110(full);
  }

  lemma BytesOfAab(bytes: seq<byte>, root: Tree, text: seq<byte>)
    requires text == [97, 97, 98] && Compresses(bytes, root, text)
    ensures bytes == [1, 0, 1, 98, 0, 0, 1, 97, 0, 0, 192]
  {
    TreeOfAab(root, text);
    CodesOfAab(ShapeOf(root));
    EncodeAab(text, Codes(ShapeOf(root), ""));
    Pack110("110");
  }

  /** The file written for "aab", byte by byte. */
  method CompressAab() returns (bytes: seq<byte>)
    ensures bytes == [1, 0, 1, 98, 0, 0, 1, 97, 0, 0, 192]
  {
    var file := [97, 97, 98];
    StringIsWholeFile(file);
    var root, out, inside := CompressFile(file);
    BytesOfAab(out.bytes, root.value, file);
    bytes := out.bytes;
  }
}
