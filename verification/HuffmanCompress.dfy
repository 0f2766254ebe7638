/** The compressor itself: code generation, encoding into a growing buffer, and writing the file. */
module HuffmanCompress {
  import opened Common
  import opened HuffmanTree
  import opened HuffmanBuild
  import opened HuffmanCodec
  import opened HuffmanLength

  /** The entries of the `codes` array that are set. */
  ghost function CodeMap(codes: seq<Option<string>>): map<byte, string> {
    map c: byte | c < |codes| && codes[c].Some? :: codes[c].value
  }

  // ---------- generateCodes ----------

  lemma SetCode(codes: seq<Option<string>>, c: byte, code: string)
    requires c < |codes|
    ensures CodeMap(codes[c := Some(code)]) == CodeMap(codes) + map[c := code]
  {
  }

  lemma PutTwo(m: map<byte, string>, a: map<byte, string>, b: map<byte, string>)
    ensures m + a + b == m + (a + b)
  {
  }

  /** At a leaf: terminate the code and keep a copy of it. */
  method StoreCode(c: byte, codes: array<Option<string>>, currentCode: array<char>, depth: nat)
    requires codes.Length == BYTES && depth < currentCode.Length && '\0' !in currentCode[..depth]
    modifies codes, currentCode
    ensures currentCode[..depth] == old(currentCode[..depth])
    ensures CodeMap(codes[..]) == old(CodeMap(codes[..])) + map[c := old(currentCode[..depth])]
  {
    ghost var prefix, before := currentCode[..depth], codes[..];
    currentCode[depth] := '\0';
    UntilNulUnique(currentCode[..], '\0', depth);
    codes[c] := Some(UntilNul(currentCode[..], '\0'));
    SetCode(before, c, prefix);
  }

  /** Every index into `currentCode` is in range because no path is longer than the height. */
  method GenerateCodes(root: Tree, codes: array<Option<string>>, currentCode: array<char>, depth: nat)
    requires codes.Length == BYTES && depth + Height(ShapeOf(root)) < currentCode.Length
    requires '\0' !in currentCode[..depth]
    modifies codes, currentCode
    ensures currentCode[..depth] == old(currentCode[..depth])
    ensures CodeMap(codes[..]) == old(CodeMap(codes[..])) + Codes(ShapeOf(root), old(currentCode[..depth]))
    decreases root
  {
    ghost var prefix, before := currentCode[..depth], CodeMap(codes[..]);
    match root
    case Leaf(c, _) =>
      StoreCode(c, codes, currentCode, depth);
    case Node(_, l, r) =>
      PutTwo(before, Codes(ShapeOf(l), prefix + "0"), Codes(ShapeOf(r), prefix + "1"));
      currentCode[depth] := '0';
      assert currentCode[..depth + 1] == prefix + "0";
      GenerateCodes(l, codes, currentCode, depth + 1);
      assert currentCode[..depth] == currentCode[..depth + 1][..depth] == prefix;
      currentCode[depth] := '1';
      assert currentCode[..depth + 1] == prefix + "1";
      GenerateCodes(r, codes, currentCode, depth + 1);
      assert currentCode[..depth] == currentCode[..depth + 1][..depth] == prefix;
  }

  // ---------- encodeString ----------

  lemma {:induction false} EncodeAppend(text: seq<byte>, c: byte, codes: map<byte, string>)
    requires forall x :: x in text + [c] ==> x in codes
    ensures Encode(text + [c], codes) == Encode(text, codes) + codes[c]
  {
    if text == [] {
      assert [c][1..] == [];
      assert text + [c] == [c] && codes[c] + "" == codes[c] == "" + codes[c];
    } else {
      assert (text + [c])[1..] == text[1..] + [c];
      assert forall x :: x in text[1..] + [c] ==> x in text + [c];
      EncodeAppend(text[1..], c, codes);
      ConcatAssociates(codes[text[0]], Encode(text[1..], codes), codes[c]);
    }
  }

  /** Codes that `strdup` can have produced and that one doubling of the buffer always has room for. */
  ghost predicate ShortCodes(codes: map<byte, string>) {
    forall c :: c in codes ==> |codes[c]| < 1024 && '\0' !in codes[c]
  }

  /** `realloc` to twice the size: the old contents, then arbitrary characters. */
  method Double(old_: array<char>) returns (larger: array<char>)
    ensures fresh(larger) && larger.Length == 2 * old_.Length
    ensures larger[..old_.Length] == old_[..]
  {
    larger := new char[2 * old_.Length];
    forall i | 0 <= i < old_.Length {
      larger[i] := old_[i];
    }
  }

  /** `strcpy`: the code and its terminator, from position `at` on. */
  method Copy(buffer: array<char>, at: nat, code: string)
    requires at + |code| < buffer.Length
    modifies buffer
    ensures buffer[..at] == old(buffer[..at])
    ensures buffer[at..at + |code|] == code && buffer[at + |code|] == '\0'
  {
    forall i | 0 <= i < |code| {
      buffer[at + i] := code[i];
    }
    buffer[at + |code|] := '\0';
  }

  /** For empty content the buffer is returned as `malloc` gave it, and nothing is known about what it holds. */
  method EncodeString(content: seq<byte>, codes: seq<Option<string>>) returns (encoded: array<char>)
    requires 0 in content && |codes| == BYTES
    requires ShortCodes(CodeMap(codes)) && forall c :: c in UntilNul(content, 0) ==> c in CodeMap(codes)
    ensures fresh(encoded)
    ensures UntilNul(content, 0) != [] ==>
      '\0' in encoded[..] && UntilNul(encoded[..], '\0') == Encode(UntilNul(content, 0), CodeMap(codes))
  {
    ghost var text, m := UntilNul(content, 0), CodeMap(codes);
    var bufferSize := 1024;
    encoded := new char[bufferSize];
    var length: nat, k := 0, 0;
    while content[k] != 0
      invariant 0 <= k <= |text|
      invariant fresh(encoded) && encoded.Length == bufferSize >= 1024 && length < bufferSize
      invariant encoded[..length] == Encode(text[..k], m) && '\0' !in encoded[..length]
      invariant k > 0 ==> encoded[length] == '\0'
      decreases |text| - k
    {
      var c := content[k];
      assert c == text[k] && c in m;
      var code := codes[c].value;
      assert code == m[c];
      k := k + 1;
      if length + |code| >= bufferSize {
        bufferSize := bufferSize * 2;
        ghost var before := encoded[..length];
        encoded := Double(encoded);
        assert encoded[..length] == before;
      }
      Copy(encoded, length, code);
      assert text[..k] == text[..k - 1] + [c];
      EncodeAppend(text[..k - 1], c, m);
      assert encoded[..length + |code|] == encoded[..length] + code;
      length := length + |code|;
    }
    assert text[..k] == text;
    if k > 0 {
      UntilNulUnique(encoded[..], '\0', length);
    }
  }

  // ---------- writeCompressedFile ----------

  /** The file being written; `fputc` appends to it. */
  class OutFile {
    var bytes: seq<byte>

    constructor ()
      ensures bytes == []
    {
      bytes := [];
    }

    method Fputc(b: byte)
      modifies this
      ensures bytes == old(bytes) + [b]
    {
      bytes := bytes + [b];
    }
  }

  function Written(node: Option<Tree>): seq<byte> {
    if node.Some? then TreeBytes(ShapeOf(node.value)) else [0]
  }

  lemma AppendFour(start: seq<byte>, a: byte, b: byte, c: byte, d: byte)
    ensures start + [a] + [b] + [c] + [d] == start + [a, b, c, d]
  {
  }

  lemma AppendParts(start: seq<byte>, a: byte, b: byte, l: seq<byte>, r: seq<byte>)
    ensures start + [a] + [b] + l + r == start + ([a, b] + l + r)
  {
  }

  method WriteTree(node: Option<Tree>, file: OutFile)
    modifies file
    ensures file.bytes == old(file.bytes) + Written(node)
    decreases |Written(node)|
  {
    ghost var start := file.bytes;
    match node
    case None =>
      file.Fputc(0);
    case Some(Leaf(c, _)) =>
      file.Fputc(1);
      file.Fputc(c);
      WriteTree(None, file);
      WriteTree(None, file);
      AppendFour(start, 1, c, 0, 0);
    case Some(Node(_, l, r)) =>
      file.Fputc(1);
      file.Fputc(0);
      WriteTree(Some(l), file);
      WriteTree(Some(r), file);
      AppendParts(start, 1, 0, Written(Some(l)), Written(Some(r)));
  }

  lemma PowersBelow256(n: nat)
    requires n < 8
    ensures 2 * Pow2(n) <= 256
  {
    assert Pow2(7) == 128 && Pow2(6) == 64 && Pow2(5) == 32 && Pow2(4) == 16 && Pow2(3) == 8;
  }

  /** Shifting one more bit into the buffer. */
  lemma ShiftIn(bits: string, j: nat, k: nat)
    requires j <= k < |bits|
    ensures Value(bits[j..k + 1]) == 2 * Value(bits[j..k]) + Bit(bits[k])
    ensures Value(bits[j..k]) < Pow2(k - j)
  {
    var full := bits[j..k + 1];
    assert full[..|full| - 1] == bits[j..k] && full[|full| - 1] == bits[k];
  }

  /** Shifting in `n` zeros multiplies by 2 to the power `n`. */
  lemma {:induction false} ValueShift(bits: string, n: nat)
    ensures Value(bits + Zeros(n)) == ShiftLeft(Value(bits), n)
  {
    var longer := bits + Zeros(n);
    if n == 0 {
      assert longer == bits;
    } else {
      ValueShift(bits, n - 1);
      assert longer[..|longer| - 1] == bits + Zeros(n - 1);
    }
  }

  function ShiftLeft(v: nat, n: nat): nat {
    if n == 0 then v else 2 * ShiftLeft(v, n - 1)
  }

  /** Inclusive or of the `n` low bits. */
  function OrBits(x: nat, y: nat, n: nat): (r: nat)
    ensures r < Pow2(n)
  {
    if n == 0 then 0
    else 2 * OrBits(x / 2, y / 2, n - 1) + if x % 2 == 1 || y % 2 == 1 then 1 else 0
  }

  /** `buffer << 1` in 8 bits. */
  function DoubleByte(buffer: byte): (x: byte)
    ensures x == 2 * buffer % 256 && x % 2 == 0
  {
    if buffer < 128 then 2 * buffer else 2 * buffer - 256
  }

  function OrByte(x: byte, y: byte): byte {
    assert Pow2(8) == 256;
    OrBits(x, y, 8)
  }

  /** `buffer = (buffer << 1) | (c - '0')` in 8 bits, for whatever character comes. */
  function ShiftInChar(buffer: byte, c: char): byte {
    OrByte(DoubleByte(buffer), (c as int - '0' as int) % 256)
  }

  /** Bit by bit, the inclusive or is set exactly where one of the numbers is. */
  lemma {:induction false} OrBitAt(x: nat, y: nat, n: nat, p: nat)
    requires p < n
    ensures BitAt(OrBits(x, y, n), p) == 1 <==> BitAt(x, p) == 1 || BitAt(y, p) == 1
  {
    Halves(OrBits(x / 2, y / 2, n - 1), if x % 2 == 1 || y % 2 == 1 then 1 else 0);
    if p > 0 {
      OrBitAt(x / 2, y / 2, n - 1, p - 1);
    }
  }

  lemma {:induction false} OrNothing(x: nat, n: nat)
    requires x < Pow2(n)
    ensures OrBits(x, 0, n) == x
  {
    if n > 0 {
      OrNothing(x / 2, n - 1);
    }
  }

  /** A bit goes into the place that the shift has cleared. */
  lemma OrBit(x: nat, bit: nat, n: nat)
    requires 0 < n && x < Pow2(n) && x % 2 == 0 && bit < 2
    ensures OrBits(x, bit, n) == x + bit
  {
    OrNothing(x / 2, n - 1);
  }

  lemma OrByteBit(x: byte, bit: byte)
    requires x % 2 == 0 && bit < 2
    ensures OrByte(x, bit) == x + bit
  {
    assert Pow2(8) == 256;
    OrBit(x, bit, 8);
  }

  lemma ShiftInBit(buffer: byte, c: char, bit: byte)
    requires (c == '0' || c == '1') && bit == Bit(c)
    ensures ShiftInChar(buffer, c) == DoubleByte(buffer) + bit
  {
    OrByteBit(DoubleByte(buffer), bit);
  }

  /** The bytes that the loop still writes after `k` characters, its arithmetic in 8 bits. */
  function PackFrom(bits: string, k: nat, buffer: byte, bitCount: nat): seq<byte>
    requires k <= |bits| && bitCount < 8
    decreases |bits| - k
  {
    if k == |bits| then
      if bitCount > 0 then [ShiftLeft(buffer, 8 - bitCount) % 256] else []
    else
      var b := ShiftInChar(buffer, bits[k]);
      if bitCount == 7 then [b] + PackFrom(bits, k + 1, 0, 0) else PackFrom(bits, k + 1, b, bitCount + 1)
  }

  /** `buffer` holds the bits from `j` to `k` and nothing else. */
  ghost predicate Buffered(bits: string, j: nat, k: nat, buffer: nat) {
    j <= k <= |bits| && k - j < 8 && buffer == Value(bits[j..k])
  }

  lemma BufferBound(bits: string, j: nat, k: nat, buffer: nat)
    requires Buffered(bits, j, k, buffer) && k < |bits|
    ensures buffer < Pow2(k - j) && 2 * buffer + Bit(bits[k]) < 256
    ensures Value(bits[j..k + 1]) == 2 * buffer + Bit(bits[k])
  {
    ShiftIn(bits, j, k);
    PowersBelow256(k - j);
  }

  lemma DoubleSmall(buffer: byte)
    requires 2 * buffer < 256
    ensures DoubleByte(buffer) == 2 * buffer
  {
  }

  /** So one more bit never reaches beyond the byte: the shift in 8 bits loses nothing. */
  lemma ShiftLosesNothing(bits: string, j: nat, k: nat, buffer: byte) returns (b: byte)
    requires IsBits(bits) && Buffered(bits, j, k, buffer) && k < |bits|
    ensures b == ShiftInChar(buffer, bits[k]) == Value(bits[j..k + 1])
    ensures buffer < Pow2(k - j)
  {
    BufferBound(bits, j, k, buffer);
    b := 2 * buffer + Bit(bits[k]);
    DoubleSmall(buffer);
    ShiftInBit(buffer, bits[k], Bit(bits[k]));
  }

  lemma OctetIsValue(bits: string)
    requires |bits| == 8
    ensures Octet(bits) == Value(bits)
  {
  }

  lemma PackShort(rest: string, full: string)
    requires 0 < |rest| < 8 && full == rest + Zeros(8 - |rest|)
    ensures Pack(rest) == [Octet(full)]
  {
  }

  lemma PackLast(rest: string, buffer: byte)
    requires 0 < |rest| < 8 && buffer == Value(rest)
    ensures Pack(rest) == [ShiftLeft(buffer, 8 - |rest|) % 256]
  {
    var full := rest + Zeros(8 - |rest|);
    PackShort(rest, full);
    ValueShift(rest, 8 - |rest|);
    OctetIsValue(full);
  }

  lemma PackRest(bits: string, j: nat, buffer: byte)
    requires Buffered(bits, j, |bits|, buffer)
    ensures PackFrom(bits, |bits|, buffer, |bits| - j) == Pack(bits[j..])
  {
    var rest := bits[j..];
    assert rest == bits[j..|bits|];
    PackFromEnd(bits, buffer, |bits| - j);
    if j < |bits| {
      PackLast(rest, buffer);
    }
  }

  lemma PackGroup(bits: string, j: nat, b: byte)
    requires j + 8 <= |bits| && b == Value(bits[j..j + 8])
    ensures Pack(bits[j..]) == [b] + Pack(bits[j + 8..])
  {
    assert bits[j..] == bits[j..j + 8] + bits[j + 8..];
    PackOctet(bits[j..j + 8], bits[j + 8..]);
  }

  lemma PackFromEnd(bits: string, buffer: byte, bitCount: nat)
    requires bitCount < 8
    ensures PackFrom(bits, |bits|, buffer, bitCount)
         == if bitCount > 0 then [ShiftLeft(buffer, 8 - bitCount) % 256] else []
  {
  }

  lemma PackFromFull(bits: string, k: nat, buffer: byte, b: byte)
    requires k < |bits| && b == ShiftInChar(buffer, bits[k])
    ensures PackFrom(bits, k, buffer, 7) == [b] + PackFrom(bits, k + 1, 0, 0)
  {
  }

  lemma PackFull(bits: string, j: nat, buffer: byte)
    requires IsBits(bits) && j + 8 <= |bits| && Buffered(bits, j, j + 7, buffer)
    requires PackFrom(bits, j + 8, 0, 0) == Pack(bits[j + 8..])
    ensures PackFrom(bits, j + 7, buffer, 7) == Pack(bits[j..])
  {
    var b := ShiftLosesNothing(bits, j, j + 7, buffer);
    PackGroup(bits, j, b);
    PackFromFull(bits, j + 7, buffer, b);
  }

  lemma PackFromMore(bits: string, k: nat, buffer: byte, bitCount: nat, b: byte)
    requires k < |bits| && bitCount < 7 && b == ShiftInChar(buffer, bits[k])
    ensures PackFrom(bits, k, buffer, bitCount) == PackFrom(bits, k + 1, b, bitCount + 1)
  {
  }

  lemma PackMore(bits: string, j: nat, k: nat, buffer: byte) returns (b: byte)
    requires IsBits(bits) && Buffered(bits, j, k, buffer) && k < |bits| && k - j < 7
    ensures Buffered(bits, j, k + 1, b)
    ensures PackFrom(bits, k, buffer, k - j) == PackFrom(bits, k + 1, b, k - j + 1)
  {
    b := ShiftLosesNothing(bits, j, k, buffer);
    PackFromMore(bits, k, buffer, k - j, b);
  }

  /** The 8-bit buffer never overflows, so the loop writes exactly the packed bits. */
  lemma {:induction false} PackFromIsPack(bits: string, j: nat, k: nat, buffer: byte)
    requires IsBits(bits) && Buffered(bits, j, k, buffer)
    ensures PackFrom(bits, k, buffer, k - j) == Pack(bits[j..])
    decreases |bits| - k
  {
    if k == |bits| {
      PackRest(bits, j, buffer);
    } else if k - j == 7 {
      EmptyGroup(bits, k + 1);
      PackFromIsPack(bits, k + 1, k + 1, 0);
      PackFull(bits, j, buffer);
    } else {
      var b := PackMore(bits, j, k, buffer);
      PackFromIsPack(bits, j, k + 1, b);
    }
  }

  lemma EmptyGroup(bits: string, k: nat)
    requires k <= |bits|
    ensures Buffered(bits, k, k, 0)
  {
  }

  lemma PackLoop(bits: string)
    requires IsBits(bits)
    ensures PackFrom(bits, 0, 0, 0) == Pack(bits)
  {
    EmptyGroup(bits, 0);
    PackFromIsPack(bits, 0, 0, 0);
    assert bits[0..] == bits;
  }

  /** The characters before the terminator, or the whole buffer if it has none. */
  function TextIn(buffer: seq<char>): (s: string)
    ensures |s| <= |buffer| && s == buffer[..|s|]
    ensures |s| < |buffer| <==> '\0' in buffer
    ensures |s| < |buffer| ==> buffer[|s|] == '\0'
    ensures '\0' !in s
  {
    if '\0' in buffer then UntilNul(buffer, '\0') else buffer
  }

  /** False when there is no terminator: the source then reads beyond the buffer, and the model stops at its end. */
  method PackBits(encodedText: seq<char>, file: OutFile) returns (inside: bool)
    modifies file
    ensures inside <==> '\0' in encodedText
    ensures file.bytes == old(file.bytes) + PackFrom(TextIn(encodedText), 0, 0, 0)
  {
    ghost var bits := TextIn(encodedText);
    var buffer: byte, bitCount, k := 0, 0, 0;
    while k < |encodedText| && encodedText[k] != '\0'
      invariant 0 <= k <= |bits| && 0 <= bitCount < 8
      invariant file.bytes + PackFrom(bits, k, buffer, bitCount) == old(file.bytes) + PackFrom(bits, 0, 0, 0)
      decreases |encodedText| - k
    {
      assert encodedText[k] == bits[k];
      buffer := ShiftInChar(buffer, encodedText[k]);
      k := k + 1;
      bitCount := bitCount + 1;
      if bitCount == 8 {
        file.Fputc(buffer);
        buffer := 0;
        bitCount := 0;
      }
    }
    if bitCount > 0 {
      buffer := ShiftLeft(buffer, 8 - bitCount) % 256;
      file.Fputc(buffer);
    }
    inside := k < |encodedText|;
  }

  method WriteCompressedFile(root: Option<Tree>, encodedText: seq<char>, file: OutFile) returns (inside: bool)
    modifies file
    ensures inside <==> '\0' in encodedText
    ensures file.bytes == old(file.bytes) + Written(root) + PackFrom(TextIn(encodedText), 0, 0, 0)
  {
    WriteTree(root, file);
    inside := PackBits(encodedText, file);
  }

  // ---------- compressFile ----------

  /** Everything the compressed bytes promise about `text`. */
  ghost predicate Compresses(bytes: seq<byte>, root: Tree, text: seq<byte>) {
    var s := ShapeOf(root);
    && IsTreeFor(root, text) && Covers(s, text)
    && (forall c :: c in text ==> c in Codes(s, ""))
    && bytes == TreeBytes(s) + Pack(Encode(text, Codes(s, "")))
  }

  /** The file can be read back, and its length is that of the tree and of the packed codes. */
  lemma CompressedReadsBack(bytes: seq<byte>, root: Tree, text: seq<byte>)
    requires Compresses(bytes, root, text)
    ensures Decompress(bytes, |text|) == Some(text)
    ensures |bytes| == 6 * |Symbols(ShapeOf(root))| - 2 + (MergedSum(root) + 7) / 8
  {
    var s := ShapeOf(root);
    RoundTrip(s, text);
    TreeBytesLength(s);
    EncodeIsBits(s, text);
    UnpackPack(Encode(text, Codes(s, "")));
    CostConservation(root, text);
  }

  /** No code tree for the same characters would have made the file shorter. */
  lemma CompressedIsShortest(bytes: seq<byte>, root: Tree, text: seq<byte>, other: Shape)
    requires Compresses(bytes, root, text) && SameCharacters(ShapeOf(root), other)
    ensures forall c :: c in text ==> c in Codes(other, "")
    ensures |bytes| <= |TreeBytes(other) + Pack(Encode(text, Codes(other, "")))|
  {
    var s := ShapeOf(root);
    SameCharactersCover(s, other, text);
    CoversCodes(other, text);
    ShortestEncoding(root, text, other);
    EncodeIsBits(s, text);
    EncodeIsBits(other, text);
    UnpackPack(Encode(text, Codes(s, "")));
    UnpackPack(Encode(text, Codes(other, "")));
    TreeBytesLength(s);
    TreeBytesLength(other);
    assert |multiset(Symbols(other))| == |multiset(Symbols(s))|;
  }

  /** The C string made of `file` is all of it exactly when it holds no NUL. */
  lemma StringIsWholeFile(file: seq<byte>)
    ensures UntilNul(file + [0], 0) == file <==> 0 !in file
  {
    if 0 !in file {
      assert (file + [0])[..|file|] == file;
      UntilNulUnique(file + [0], 0, |file|);
    }
  }

  /** The content ends at the first NUL, so the whole file comes back exactly when it has none. */
  lemma WholeFileComesBack(file: seq<byte>, text: seq<byte>, bytes: seq<byte>, root: Tree)
    requires text == UntilNul(file + [0], 0)
    ensures Compresses(bytes, root, text) ==> (Decompress(bytes, |text|) == Some(file) <==> 0 !in file)
  {
    if Compresses(bytes, root, text) {
      CompressedReadsBack(bytes, root, text);
      StringIsWholeFile(file);
    }
  }

  lemma CodesAreShort(s: Shape)
    requires Distinct(Symbols(s)) && Height(s) <= 254
    ensures ShortCodes(Codes(s, ""))
  {
    forall c | c in Codes(s, "")
      ensures |Codes(s, "")[c]| < 1024 && '\0' !in Codes(s, "")[c]
    {
      CodesAreShortBits(s, c);
    }
  }

  lemma TreeCodes(root: Tree, text: seq<byte>)
    requires IsTreeFor(root, text) && 0 !in text
    ensures Covers(ShapeOf(root), text) && forall c :: c in text ==> c in Codes(ShapeOf(root), "")
    ensures Height(ShapeOf(root)) <= 254 && ShortCodes(Codes(ShapeOf(root), ""))
  {
    var s := ShapeOf(root);
    HuffmanTreeCovers(root, text);
    CoversCodes(s, text);
    CodesFitBuffer(root, text);
    CodesAreShort(s);
  }

  lemma NoTreeForNothing(text: seq<byte>)
    ensures text == [] <==> forall c: byte :: TableOf(text)[c] == 0
  {
    if text != [] {
      assert text[0] in multiset(text);
      assert TableOf(text)[text[0]] > 0;
    }
  }

  /** The first half of `compressFile`: count, then build. */
  method TreeFor(content: seq<byte>) returns (root: Option<Tree>)
    requires 0 in content
    ensures root == None <==> UntilNul(content, 0) == []
    ensures root.Some? ==> IsTreeFor(root.value, UntilNul(content, 0))
  {
    var freqTable := new nat[BYTES];
    var uniqueChars := CalculateFrequencies(content, freqTable, 0);
    NoTreeForNothing(UntilNul(content, 0));
    root := BuildHuffmanTree(freqTable[..]);
  }

  /** The code table: `codes[c]` is set exactly for the characters of the tree. */
  method CodesFor(root: Option<Tree>) returns (codes: seq<Option<string>>)
    requires root.Some? ==> Height(ShapeOf(root.value)) <= 254
    ensures |codes| == BYTES
    ensures CodeMap(codes) == if root.Some? then Codes(ShapeOf(root.value), "") else map[]
  {
    var table := new Option<string>[BYTES](_ => None);
    assert CodeMap(table[..]) == map[];
    if root.Some? {
      var currentCode := new char[BYTES];
      GenerateCodes(root.value, table, currentCode, 0);
    }
    codes := table[..];
  }

  /** A file that begins with an absent tree cannot be read back. */
  lemma NothingToRead(bytes: seq<byte>)
    requires bytes != [] && bytes[0] == 0
    ensures Decompress(bytes, 0) == None
  {
  }

  /** What `compressFile` leaves behind for the content `text`. */
  ghost predicate Outcome(text: seq<byte>, root: Option<Tree>, bytes: seq<byte>, inside: bool) {
    if text == [] then root == None && bytes != [] && bytes[0] == 0
    else inside && root.Some? && Compresses(bytes, root.value, text)
  }

  /** A file comes back exactly when it is not empty and holds no NUL. */
  lemma OutcomeReadsBack(file: seq<byte>, text: seq<byte>, root: Option<Tree>, bytes: seq<byte>, inside: bool)
    requires text == UntilNul(file + [0], 0) && Outcome(text, root, bytes, inside)
    ensures Decompress(bytes, |text|) == Some(file) <==> file != [] && 0 !in file
  {
    StringIsWholeFile(file);
    if text == [] {
      NothingToRead(bytes);
    } else {
      WholeFileComesBack(file, text, bytes, root.value);
    }
  }

  /** The encoded text is the content's code, unless there is no content. */
  ghost predicate EncodedFor(text: seq<byte>, root: Option<Tree>, encoded: seq<char>) {
    if text == [] then root == None
    else
      && root.Some? && IsTreeFor(root.value, text)
      && Covers(ShapeOf(root.value), text) && (forall c :: c in text ==> c in Codes(ShapeOf(root.value), ""))
      && '\0' in encoded && UntilNul(encoded, '\0') == Encode(text, Codes(ShapeOf(root.value), ""))
  }

  lemma OutcomeOfWriting(text: seq<byte>, root: Option<Tree>, encoded: seq<char>, bytes: seq<byte>, inside: bool)
    requires EncodedFor(text, root, encoded)
    requires inside <==> '\0' in encoded
    requires bytes == Written(root) + PackFrom(TextIn(encoded), 0, 0, 0)
    ensures Outcome(text, root, bytes, inside)
  {
    if text != [] {
      EncodeIsBits(ShapeOf(root.value), text);
      PackLoop(TextIn(encoded));
    }
  }

  /** Codes for the tree, then the content in those codes. */
  method EncodedWith(content: seq<byte>, root: Option<Tree>) returns (encodedText: array<char>)
    requires 0 in content && (root == None <==> UntilNul(content, 0) == [])
    requires root.Some? ==> IsTreeFor(root.value, UntilNul(content, 0))
    ensures fresh(encodedText) && EncodedFor(UntilNul(content, 0), root, encodedText[..])
  {
    if root.Some? {
      TreeCodes(root.value, UntilNul(content, 0));
    }
    var codes := CodesFor(root);
    encodedText := EncodeString(content, codes);
  }

  /** `compressFile` from the content on. For empty content there is no tree, and what follows its mark is arbitrary. */
  method CompressContent(content: seq<byte>) returns (root: Option<Tree>, out: OutFile, inside: bool)
    requires 0 in content
    ensures fresh(out) && Outcome(UntilNul(content, 0), root, out.bytes, inside)
  {
    root := TreeFor(content);
    var encodedText := EncodedWith(content, root);
    out := new OutFile();
    inside := WriteCompressedFile(root, encodedText[..], out);
    assert [] + Written(root) == Written(root);
    OutcomeOfWriting(UntilNul(content, 0), root, encodedText[..], out.bytes, inside);
  }

  method CompressFile(file: seq<byte>) returns (root: Option<Tree>, out: OutFile, inside: bool)
    ensures fresh(out) && Outcome(UntilNul(file + [0], 0), root, out.bytes, inside)
    ensures Decompress(out.bytes, |UntilNul(file + [0], 0)|) == Some(file) <==> file != [] && 0 !in file
  {
    root, out, inside := CompressContent(file + [0]);
    OutcomeReadsBack(file, UntilNul(file + [0], 0), root, out.bytes, inside);
  }

  /** The file of the two bytes 1 and 0 is compressed without its second byte. */
  lemma SecondByteIsLost(file: seq<byte>, text: seq<byte>)
    requires file == [1, 0] && text == UntilNul(file + [0], 0)
    ensures text == [1] && Compresses([1, 1, 0, 0], Leaf(1, 1), text)
    ensures forall bytes, root :: Compresses(bytes, root, text) ==> Decompress(bytes, |text|) == Some([1])
  {
    UntilNulUnique(file + [0], 0, 1);
    OneCharacter(text, Leaf(1, 1));
    forall bytes, root | Compresses(bytes, root, text)
      ensures Decompress(bytes, |text|) == Some([1])
    {
      CompressedReadsBack(bytes, root, text);
    }
  }

  lemma OneCharacter(text: seq<byte>, t: Tree)
    requires text == [1] && t == Leaf(1, 1)
    ensures Compresses([1, 1, 0, 0], t, text)
  {
    var s := ShapeOf(t);
    assert Symbols(s) == [1] && Frequencies(t) == [1];
    assert forall c: byte :: c in Symbols(s) <==> c == 1;
    assert forall c: byte :: multiset(text)[c] == if c == 1 then 1 else 0;
    assert |multiset(Frequencies(t))| == 1;
    CodesDomain(s, "");
    assert text[1..] == [] && Encode(text, Codes(s, "")) == "";
  }
}
