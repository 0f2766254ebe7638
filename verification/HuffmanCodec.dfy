/** The compressed format: the tree in pre-order, then the code bits packed into bytes; and how to read it back. */
module HuffmanCodec {
  import opened Common
  import opened HuffmanTree

  // ---------- the tree ----------

  /** `writeTree`: 1 and the character for a node, 0 for an absent child. */
  function TreeBytes(s: Shape): seq<byte> {
    match s
    case Tip(c) => [1, c, 0, 0]
    case Fork(l, r) => [1, 0] + TreeBytes(l) + TreeBytes(r)
  }

  /** Reads one pre-order record: an absent child, a leaf, or a node with two children. */
  function ReadNode(b: seq<byte>): (r: Option<(Option<Shape>, seq<byte>)>)
    ensures r.Some? ==> |r.value.1| < |b|
    decreases |b|
  {
    if b == [] then None
    else if b[0] == 0 then Some((None, b[1..]))
    else if b[0] != 1 || |b| < 2 then None
    else
      match ReadNode(b[2..])
      case None => None
      case Some((left, more)) =>
        match ReadNode(more)
        case None => None
        case Some((right, rest)) =>
          if left.Some? && right.Some? && b[1] == 0 then Some((Some(Fork(left.value, right.value)), rest))
          else if left.None? && right.None? then Some((Some(Tip(b[1])), rest))
          else None
  }

  lemma ReadAbsent(rest: seq<byte>)
    ensures ReadNode([0] + rest) == Some((None, rest))
  {
    assert ([0] + rest)[1..] == rest;
  }

  /** The tree marks its own end: whatever follows it is returned untouched. */
  lemma {:induction false} ReadAfterWrite(s: Shape, rest: seq<byte>)
    ensures ReadNode(TreeBytes(s) + rest) == Some((Some(s), rest))
  {
    var b := TreeBytes(s) + rest;
    match s
    case Tip(c) =>
      ReadAbsent(rest);
      ReadAbsent([0] + rest);
      assert b[2..] == [0] + ([0] + rest);
    case Fork(l, r) =>
      assert b[2..] == TreeBytes(l) + (TreeBytes(r) + rest);
      ReadAfterWrite(l, TreeBytes(r) + rest);
      ReadAfterWrite(r, rest);
  }

  lemma Rebuild(b: seq<byte>, l: seq<byte>, r: seq<byte>, rest: seq<byte>)
    requires |b| >= 2 && b[2..] == l + (r + rest)
    ensures b == [b[0], b[1]] + l + r + rest
  {
    assert b == [b[0], b[1]] + b[2..];
  }

  /** Only what `writeTree` writes is accepted. */
  lemma {:induction false} WriteAfterRead(b: seq<byte>)
    requires ReadNode(b).Some?
    ensures var (node, rest) := ReadNode(b).value;
      b == (if node.Some? then TreeBytes(node.value) else [0]) + rest
    decreases |b|
  {
    if b[0] != 0 {
      WriteAfterRead(b[2..]);
      var (left, more) := ReadNode(b[2..]).value;
      WriteAfterRead(more);
      var (right, rest) := ReadNode(more).value;
      var l := if left.Some? then TreeBytes(left.value) else [0];
      var r := if right.Some? then TreeBytes(right.value) else [0];
      Rebuild(b, l, r, rest);
    }
  }

  /** `k` leaves take `6k - 2` bytes. */
  lemma {:induction false} TreeBytesLength(s: Shape)
    ensures |TreeBytes(s)| == 6 * |Symbols(s)| - 2
  {
    if s.Fork? {
      TreeBytesLength(s.zero);
      TreeBytesLength(s.one);
    }
  }

  // ---------- the bits ----------

  ghost predicate IsBits(s: string) {
    forall i :: 0 <= i < |s| ==> s[i] == '0' || s[i] == '1'
  }

  function Bit(c: char): nat {
    if c == '1' then 1 else 0
  }

  /** The number that a bit string denotes, most significant bit first. */
  function Value(bits: string): (v: nat)
    ensures v < Pow2(|bits|)
  {
    if bits == [] then 0 else 2 * Value(bits[..|bits| - 1]) + Bit(bits[|bits| - 1])
  }

  /** Groups of eight bits, the last one filled up with zeros at its low end. */
  function Pack(bits: string): seq<byte> {
    if bits == [] then []
    else if |bits| < 8 then [Octet(bits + Zeros(8 - |bits|))]
    else [Octet(bits[..8])] + Pack(bits[8..])
  }

  function Octet(bits: string): byte
    requires |bits| == 8
  {
    assert Pow2(8) == 256;
    Value(bits)
  }

  function Zeros(n: nat): (z: string)
    ensures |z| == n && forall i :: 0 <= i < n ==> z[i] == '0'
  {
    seq(n, _ => '0')
  }

  /** The `n` low bits of `v`, most significant first. */
  function BitsOf(v: nat, n: nat): (s: string)
    ensures |s| == n
  {
    if n == 0 then "" else BitsOf(v / 2, n - 1) + [if v % 2 == 1 then '1' else '0']
  }

  function Unpack(bytes: seq<byte>): string {
    if bytes == [] then "" else BitsOf(bytes[0], 8) + Unpack(bytes[1..])
  }

  lemma {:induction false} BitsOfValue(bits: string)
    requires IsBits(bits)
    ensures BitsOf(Value(bits), |bits|) == bits
  {
    if bits != [] {
      var init := bits[..|bits| - 1];
      BitsOfValue(init);
      assert bits == init + [bits[|bits| - 1]];
    }
  }

  /** How many zeros fill up the last byte. */
  function Padding(n: nat): nat {
    (8 - n % 8) % 8
  }

  lemma PackOctet(x: string, y: string)
    requires |x| == 8
    ensures Pack(x + y) == [Octet(x)] + Pack(y)
  {
    assert (x + y)[..8] == x && (x + y)[8..] == y;
  }

  lemma UnpackOctet(b: byte, more: seq<byte>)
    ensures Unpack([b] + more) == BitsOf(b, 8) + Unpack(more)
  {
    assert ([b] + more)[1..] == more;
  }

  lemma PaddingRepeats(n: nat)
    ensures Padding(n + 8) == Padding(n) < 8
  {
  }

  lemma UnpackWhole(x: string, y: string)
    requires |x| == 8 && IsBits(x)
    ensures Unpack(Pack(x + y)) == x + Unpack(Pack(y))
    ensures |Pack(x + y)| == 1 + |Pack(y)|
  {
    BitsOfValue(x);
    PackOctet(x, y);
    UnpackOctet(Octet(x), Pack(y));
  }

  /** Unpacking gives the bits back and fills up the last byte. */
  ghost predicate Unpacks(bits: string) {
    && Unpack(Pack(bits)) == bits + Zeros(Padding(|bits|))
    && 8 * |Pack(bits)| == |bits| + Padding(|bits|)
  }

  lemma UnpackStep(x: string, y: string, bits: string)
    requires |x| == 8 && IsBits(x) && Unpacks(y) && bits == x + y
    ensures Unpacks(bits)
  {
    UnpackWhole(x, y);
    PaddingRepeats(|y|);
    ConcatAssociates(x, y, Zeros(Padding(|y|)));
  }

  lemma UnpackPartial(bits: string)
    requires 0 < |bits| < 8 && IsBits(bits)
    ensures Unpack(Pack(bits)) == bits + Zeros(8 - |bits|) && |Pack(bits)| == 1
  {
    var full := bits + Zeros(8 - |bits|);
    BitsOfValue(full);
    UnpackOctet(Octet(full), []);
    assert [Octet(full)] + [] == [Octet(full)] && full + "" == full;
  }

  lemma PaddingOfShort(n: nat)
    requires n < 8
    ensures Padding(n) == if n == 0 then 0 else 8 - n
  {
  }

  lemma NothingUnpacks(bits: string)
    requires bits == ""
    ensures Unpacks(bits)
  {
    PaddingOfShort(0);
    assert Zeros(0) == "";
  }

  lemma ShortUnpacks(bits: string, n: nat)
    requires IsBits(bits) && 0 < |bits| == n < 8
    ensures Unpacks(bits)
  {
    PaddingOfShort(n);
    UnpackPartial(bits);
  }

  lemma FirstOctet(bits: string) returns (x: string, y: string)
    requires IsBits(bits) && |bits| >= 8
    ensures bits == x + y && |x| == 8 && |y| == |bits| - 8 && IsBits(x) && IsBits(y)
  {
    x, y := bits[..8], bits[8..];
  }

  lemma {:induction false} AlwaysUnpacks(bits: string)
    requires IsBits(bits)
    ensures Unpacks(bits)
    decreases |bits|
  {
    if bits == "" {
      NothingUnpacks(bits);
    } else if |bits| < 8 {
      ShortUnpacks(bits, |bits|);
    } else {
      var x, y := FirstOctet(bits);
      AlwaysUnpacks(y);
      UnpackStep(x, y, bits);
    }
  }

  /** Unpacking gives the bits back, followed by fewer than eight zeros. */
  lemma UnpackPack(bits: string)
    requires IsBits(bits)
    ensures Unpack(Pack(bits)) == bits + Zeros(Padding(|bits|)) && Padding(|bits|) < 8
    ensures 8 * |Pack(bits)| == |bits| + Padding(|bits|)
  {
    AlwaysUnpacks(bits);
  }

  lemma {:induction false} BitsOfAt(v: nat, n: nat, j: nat)
    requires j < n
    ensures BitsOf(v, n)[j] == if BitAt(v, n - 1 - j) == 1 then '1' else '0'
  {
    if j < n - 1 {
      BitsOfAt(v / 2, n - 1, j);
    }
  }

  lemma {:induction false} UnpackAt(bytes: seq<byte>, i: nat, j: nat)
    requires i < |bytes| && j < 8
    ensures 8 * i + j < |Unpack(bytes)| && Unpack(bytes)[8 * i + j] == BitsOf(bytes[i], 8)[j]
  {
    if i > 0 {
      UnpackAt(bytes[1..], i - 1, j);
    }
  }

  /** Bit number `8 * i + j` of the text is the `j`-th highest bit of byte `i`. */
  lemma PackedBit(bits: string, i: nat, j: nat)
    requires IsBits(bits) && j < 8 && 8 * i + j < |bits|
    ensures i < |Pack(bits)| && BitAt(Pack(bits)[i], 7 - j) == Bit(bits[8 * i + j])
  {
    UnpackPack(bits);
    UnpackAt(Pack(bits), i, j);
    BitsOfAt(Pack(bits)[i], 8, j);
  }

  // ---------- encoding and decoding ----------

  /** The concatenated codes of `text`. */
  function Encode(text: seq<byte>, codes: map<byte, string>): string
    requires forall c :: c in text ==> c in codes
  {
    if text == [] then "" else codes[text[0]] + Encode(text[1..], codes)
  }

  /** Follows the bits from the root to a leaf. */
  function Walk(s: Shape, bits: string): (r: Option<(byte, string)>)
    decreases s
  {
    match s
    case Tip(c) => Some((c, bits))
    case Fork(l, r) =>
      if bits == [] then None
      else if bits[0] == '0' then Walk(l, bits[1..])
      else Walk(r, bits[1..])
  }

  /** Reads `count` characters; the file does not hold the count, so the reader must know it. */
  function Decode(s: Shape, count: nat, bits: string): Option<seq<byte>> {
    if count == 0 then Some([])
    else
      match Walk(s, bits)
      case None => None
      case Some((c, rest)) =>
        match Decode(s, count - 1, rest)
        case None => None
        case Some(more) => Some([c] + more)
  }

  /** What a reader of the compressed file does. */
  function Decompress(file: seq<byte>, count: nat): Option<seq<byte>> {
    match ReadNode(file)
    case Some((Some(s), rest)) => Decode(s, count, Unpack(rest))
    case _ => None
  }

  lemma {:induction false} WalkPath(s: Shape, i: nat, rest: string)
    requires i < |Symbols(s)|
    ensures Walk(s, Path(s, i) + rest) == Some((Symbols(s)[i], rest))
    decreases s
  {
    match s
    case Tip(_) =>
      assert "" + rest == rest;
    case Fork(l, r) =>
      var n := |Symbols(l)|;
      if i < n {
        WalkPath(l, i, rest);
        assert (Path(s, i) + rest)[1..] == Path(l, i) + rest;
      } else {
        WalkPath(r, i - n, rest);
        assert (Path(s, i) + rest)[1..] == Path(r, i - n) + rest;
      }
  }

  /** `text` uses only characters of the tree, and the tree has each of them once. */
  ghost predicate Covers(s: Shape, text: seq<byte>) {
    Distinct(Symbols(s)) && forall c :: c in text ==> c in Symbols(s)
  }

  lemma CoversCodes(s: Shape, text: seq<byte>)
    requires Covers(s, text)
    ensures forall c :: c in text ==> c in Codes(s, "")
  {
    CodesDomain(s, "");
  }

  lemma CodeOfCharacter(s: Shape, c: byte) returns (i: nat)
    requires Distinct(Symbols(s)) && c in Symbols(s)
    ensures i < |Symbols(s)| && Symbols(s)[i] == c
    ensures c in Codes(s, "") && Codes(s, "")[c] == Path(s, i)
  {
    i :| 0 <= i < |Symbols(s)| && Symbols(s)[i] == c;
    CodesArePaths(s, "", i);
    assert "" + Path(s, i) == Path(s, i);
  }

  /** Decoding undoes encoding, whatever bits follow, even when every code is empty. */
  lemma {:induction false} DecodeEncode(s: Shape, text: seq<byte>, rest: string)
    requires Covers(s, text) && forall c :: c in text ==> c in Codes(s, "")
    ensures Decode(s, |text|, Encode(text, Codes(s, "")) + rest) == Some(text)
  {
    if text != [] {
      var codes, tail := Codes(s, ""), text[1..];
      var i := CodeOfCharacter(s, text[0]);
      var later := Encode(tail, codes) + rest;
      assert Encode(text, codes) + rest == Path(s, i) + later;
      WalkPath(s, i, later);
      DecodeEncode(s, tail, rest);
      assert text == [text[0]] + tail;
    }
  }

  lemma {:induction false} PathIsBits(s: Shape, i: nat)
    requires i < |Symbols(s)|
    ensures IsBits(Path(s, i))
  {
    if s.Fork? {
      if i < |Symbols(s.zero)| {
        PathIsBits(s.zero, i);
      } else {
        PathIsBits(s.one, i - |Symbols(s.zero)|);
      }
    }
  }

  lemma {:induction false} EncodeIsBits(s: Shape, text: seq<byte>)
    requires Covers(s, text) && forall c :: c in text ==> c in Codes(s, "")
    ensures IsBits(Encode(text, Codes(s, "")))
  {
    if text != [] {
      var i := CodeOfCharacter(s, text[0]);
      PathIsBits(s, i);
      EncodeIsBits(s, text[1..]);
    }
  }

  /** The whole round trip through the file format. */
  lemma RoundTrip(s: Shape, text: seq<byte>)
    requires Covers(s, text) && forall c :: c in text ==> c in Codes(s, "")
    ensures Decompress(TreeBytes(s) + Pack(Encode(text, Codes(s, ""))), |text|) == Some(text)
  {
    var bits := Encode(text, Codes(s, ""));
    ReadAfterWrite(s, Pack(bits));
    EncodeIsBits(s, text);
    UnpackPack(bits);
    DecodeEncode(s, text, Zeros(Padding(|bits|)));
  }
}
