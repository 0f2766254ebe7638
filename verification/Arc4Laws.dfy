/** Laws of the cipher over whole runs: decryption, splitting, the table, the key schedule, unreachable states. */
module Arc4Laws {
  import opened Common
  import opened Arc4

  // ---------- the key stream ----------

  /** Bit by bit, the exclusive or is set exactly where the two numbers differ. */
  lemma {:induction false} XorBitAt(x: nat, y: nat, n: nat, p: nat)
    requires p < n
    ensures BitAt(XorBits(x, y, n), p) == 1 <==> BitAt(x, p) != BitAt(y, p)
  {
    Halves(XorBits(x / 2, y / 2, n - 1), if x % 2 != y % 2 then 1 else 0);
    if p > 0 {
      XorBitAt(x / 2, y / 2, n - 1, p - 1);
    }
  }

  lemma XorByteAt(x: byte, y: byte, p: nat)
    requires p < 8
    ensures BitAt(Xor(x, y), p) == 1 <==> BitAt(x, p) != BitAt(y, p)
  {
    XorBitAt(x, y, 8, p);
  }

  lemma {:induction false} XorBitsZero(x: nat, n: nat)
    requires x < Pow2(n)
    ensures XorBits(0, x, n) == x
  {
    if n > 0 {
      XorBitsZero(x / 2, n - 1);
    }
  }

  lemma XorZero(x: byte)
    ensures Xor(0, x) == x
  {
    assert Pow2(8) == 256;
    XorBitsZero(x, 8);
  }

  lemma {:induction false} XorBitsTwice(x: nat, y: nat, n: nat)
    requires x < Pow2(n)
    ensures XorBits(XorBits(x, y, n), y, n) == x
  {
    if n > 0 {
      Halves(XorBits(x / 2, y / 2, n - 1), if x % 2 != y % 2 then 1 else 0);
      XorBitsTwice(x / 2, y / 2, n - 1);
    }
  }

  lemma XorTwice(x: byte, y: byte)
    ensures Xor(Xor(x, y), y) == x
  {
    assert Pow2(8) == 256;
    XorBitsTwice(x, y, 8);
  }

  /** Running again from the same saved state restores any buffer. */
  lemma {:induction false} DecryptByRerun(s: State, data: seq<byte>)
    ensures CryptText(s, CryptText(s, data)) == data
    decreases |data|
  {
    if data != [] {
      var x, rest := data[0], data[1..];
      XorTwice(x, Output(Step(s)));
      DecryptByRerun(Step(s), rest);
      assert CryptText(s, data)[1..] == CryptText(Step(s), rest);
      assert data == [x] + rest;
    }
  }

  /** Byte `k` is combined with the output of round `k + 1`, counted from the state before. */
  lemma {:induction false} CryptByteAt(s: State, data: seq<byte>, k: nat)
    requires k < |data|
    ensures CryptText(s, data)[k] == Xor(data[k], Output(After(s, k + 1)))
    decreases k
  {
    assert CryptText(s, data) == [Xor(data[0], Output(Step(s)))] + CryptText(Step(s), data[1..]);
    if k == 0 {
      assert After(s, 1) == After(Step(s), 0);
    } else {
      CryptByteAt(Step(s), data[1..], k - 1);
    }
  }

  /** Processing zeros yields the key stream itself. */
  lemma CryptZeros(s: State, data: seq<byte>, k: nat)
    requires k < |data| && data[k] == 0
    ensures CryptText(s, data)[k] == Output(After(s, k + 1))
  {
    CryptByteAt(s, data, k);
    XorZero(Output(After(s, k + 1)));
  }

  lemma {:induction false} AfterSum(s: State, m: nat, n: nat)
    ensures After(s, m + n) == After(After(s, m), n)
    decreases m
  {
    if m > 0 {
      AfterSum(Step(s), m - 1, n);
    }
  }

  /** Two consecutive pieces give the same bytes as the whole. */
  lemma {:induction false} CryptPieces(s: State, a: seq<byte>, b: seq<byte>)
    ensures CryptText(s, a + b) == CryptText(s, a) + CryptText(After(s, |a|), b)
    decreases |a|
  {
    if a == [] {
      assert a + b == b;
    } else {
      assert (a + b)[1..] == a[1..] + b;
      CryptPieces(Step(s), a[1..], b);
    }
  }

  // ---------- the table stays a permutation ----------

  ghost predicate IsPermutation(t: Table) {
    multiset(t) == multiset(Identity())
  }

  lemma SwapPermutes(t: Table, a: byte, b: byte)
    ensures multiset(Swap(t, a, b)) == multiset(t)
  {
  }

  /** Each of the 256 values occurs exactly once. */
  lemma {:induction false} PermutationMeaning(t: Table)
    requires IsPermutation(t)
    ensures forall v: byte :: multiset(t)[v] == 1
    ensures Distinct(t)
  {
    forall v: byte
      ensures multiset(t)[v] == 1
    {
      var id := Identity();
      assert id == id[..v] + [v] + id[v + 1..];
      assert v !in id[..v] && v !in id[v + 1..];
      assert multiset(id) == multiset(id[..v]) + multiset{v} + multiset(id[v + 1..]);
    }
    forall i, j | 0 <= i < j < 256
      ensures t[i] != t[j]
    {
      assert t == t[..j] + [t[j]] + t[j + 1..];
      assert t[..j][i] in multiset(t[..j]);
      assert multiset(t)[t[j]] == 1;
    }
  }

  lemma {:induction false} SchedulePermutes(t: Table, i: nat, k: byte, key: seq<byte>)
    requires i <= 256 && |key| > 0
    ensures multiset(ScheduleFrom(t, i, k, key).0) == multiset(t)
    decreases 256 - i
  {
    if i < 256 {
      var k' := (k + t[i] + KeyByte(key, i)) % 256;
      SwapPermutes(t, i, k');
      SchedulePermutes(Swap(t, i, k'), i + 1, k', key);
    }
  }

  lemma {:induction false} KeyPermutes(s: State, str: seq<byte>)
    ensures multiset(KeyPasses(s, str).table) == multiset(s.table)
    decreases |str|
  {
    if str != [] {
      SchedulePermutes(s.table, s.i, s.k, str);
      KeyPermutes(AfterPass(s, str), LaterBlocks(str));
    }
  }

  lemma {:induction false} AfterPermutes(s: State, n: nat)
    ensures multiset(After(s, n).table) == multiset(s.table)
    decreases n
  {
    if n > 0 {
      SwapPermutes(s.table, Step(s).i, Step(s).j);
      AfterPermutes(Step(s), n - 1);
    }
  }

  datatype Op = Reset | Key(str: seq<byte>) | Crypt(length: nat)

  function Apply(s: State, op: Op): State {
    match op
    case Reset => State(Identity(), 0, 0, 0)
    case Key(str) => KeyPasses(s, str)
    case Crypt(n) => After(s, n)
  }

  function Run(s: State, ops: seq<Op>): State
    decreases |ops|
  {
    if ops == [] then s else Run(Apply(s, ops[0]), ops[1..])
  }

  /** Once initialised, the table is a permutation after every sequence of calls. */
  lemma {:induction false} TableStaysPermutation(s: State, ops: seq<Op>)
    requires IsPermutation(s.table)
    ensures IsPermutation(Run(s, ops).table)
    decreases |ops|
  {
    if ops != [] {
      match ops[0] {
        case Reset =>
        case Key(str) => KeyPermutes(s, str);
        case Crypt(n) => AfterPermutes(s, n);
      }
      TableStaysPermutation(Apply(s, ops[0]), ops[1..]);
    }
  }

  // ---------- the key schedule ----------

  /** The key cut into blocks of 256 bytes; only the last may be shorter. */
  function Blocks(str: seq<byte>): (b: seq<seq<byte>>)
    ensures forall i :: 0 <= i < |b| ==> 0 < |b[i]| <= 256
  {
    if str == [] then []
    else if |str| <= 256 then [str]
    else [str[..256]] + Blocks(str[256..])
  }

  function Joined(b: seq<seq<byte>>): seq<byte> {
    if b == [] then [] else b[0] + Joined(b[1..])
  }

  /** The blocks hold every byte of the key, and there are as few as possible. */
  lemma {:induction false} BlocksCoverKey(str: seq<byte>)
    ensures Joined(Blocks(str)) == str && |Blocks(str)| == (|str| + 255) / 256
    decreases |str|
  {
    if |str| > 256 {
      BlocksCoverKey(str[256..]);
      assert Blocks(str)[1..] == Blocks(str[256..]);
    } else if str != [] {
      assert Blocks(str)[1..] == [] && str + [] == str;
    }
  }

  /** The textbook schedule of each block in turn, the index carried over. */
  function ScheduleBlocks(t: Table, k: byte, b: seq<seq<byte>>): (Table, byte)
    requires forall i :: 0 <= i < |b| ==> |b[i]| > 0
    decreases |b|
  {
    if b == [] then (t, k)
    else
      var (t', k') := ScheduleFrom(t, 0, k, b[0]);
      ScheduleBlocks(t', k', b[1..])
  }

  lemma KeyByteInside(key: seq<byte>, i: nat)
    requires i < |key|
    ensures KeyByte(key, i) == key[i]
  {
  }

  /** Keys that agree on the bytes still to be read give the same schedule. */
  lemma {:induction false} ScheduleSameBytes(t: Table, i: nat, k: byte, a: seq<byte>, b: seq<byte>)
    requires i <= 256 && |a| > 0 && |b| > 0
    requires forall n :: i <= n < 256 ==> KeyByte(a, n) == KeyByte(b, n)
    ensures ScheduleFrom(t, i, k, a) == ScheduleFrom(t, i, k, b)
    decreases 256 - i
  {
    if i < 256 {
      var k' := (k + t[i] + KeyByte(a, i)) % 256;
      ScheduleSameBytes(Swap(t, i, k'), i + 1, k', a, b);
    }
  }

  lemma ScheduleReads256(t: Table, k: byte, str: seq<byte>)
    requires 256 <= |str|
    ensures ScheduleFrom(t, 0, k, str) == ScheduleFrom(t, 0, k, str[..256])
  {
    forall n | 0 <= n < 256
      ensures KeyByte(str, n) == KeyByte(str[..256], n)
    {
      KeyByteInside(str, n);
      KeyByteInside(str[..256], n);
    }
    ScheduleSameBytes(t, 0, k, str, str[..256]);
  }

  /** From index 0, `key` performs one textbook schedule per block and ends with index 0 again. */
  lemma {:induction false} KeyIsScheduleOfBlocks(s: State, str: seq<byte>)
    requires s.i == 0
    ensures var (t, k) := ScheduleBlocks(s.table, s.k, Blocks(str)); KeyPasses(s, str) == State(t, 0, s.j, k)
    decreases |str|
  {
    if |str| > 256 {
      ScheduleReads256(s.table, s.k, str);
      var (t, k) := ScheduleFrom(s.table, 0, s.k, str);
      KeyIsScheduleOfBlocks(State(t, 0, s.j, k), str[256..]);
      assert Blocks(str)[1..] == Blocks(str[256..]);
    } else if str != [] {
      assert Blocks(str)[1..] == [];
    }
  }

  /** After `stte_0`, a key of 1 to 256 bytes gets exactly the textbook key schedule. */
  lemma KeyIsTextbook(str: seq<byte>)
    requires 1 <= |str| <= 256
    ensures var s := Run(State(Identity(), 0, 0, 0), [Key(str)]); s.table == Schedule(str) && s.i == s.j == 0
  {
    assert Run(State(Identity(), 0, 0, 0), [Key(str)]) == KeyPasses(State(Identity(), 0, 0, 0), str);
  }

  // ---------- states that the generator never reaches ----------

  /** The states on the short cycles: the index pair is adjacent and the table holds 1 there. */
  predicate Short(s: State) {
    s.j == Add(s.i, 1) && s.table[s.j] == 1
  }

  lemma ShortIsClosed(s: State)
    ensures Short(Step(s)) <==> Short(s)
  {
  }

  lemma {:induction false} ShortForever(s: State, n: nat)
    ensures Short(After(s, n)) <==> Short(s)
    decreases n
  {
    if n > 0 {
      ShortIsClosed(s);
      ShortForever(Step(s), n - 1);
    }
  }

  lemma {:induction false} KeyingKeepsIndices(s: State, keys: seq<seq<byte>>)
    requires s.i == s.j == 0
    ensures Keyed(s, keys).i == Keyed(s, keys).j == 0
    decreases |keys|
  {
    if keys != [] {
      KeyIsScheduleOfBlocks(s, keys[0]);
      KeyingKeepsIndices(KeyPasses(s, keys[0]), keys[1..]);
    }
  }

  function Keyed(s: State, keys: seq<seq<byte>>): State
    decreases |keys|
  {
    if keys == [] then s else Keyed(KeyPasses(s, keys[0]), keys[1..])
  }

  /** From `stte_0` and any number of keys, no generator run reaches a short-cycle state. */
  lemma NeverShort(keys: seq<seq<byte>>, n: nat)
    ensures !Short(After(Keyed(State(Identity(), 0, 0, 0), keys), n))
  {
    var s := Keyed(State(Identity(), 0, 0, 0), keys);
    KeyingKeepsIndices(State(Identity(), 0, 0, 0), keys);
    ShortForever(s, n);
  }
}
