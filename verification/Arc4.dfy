/** The `Alleged RC4' state machine: one 256-byte table and three wrapping indices. */
module Arc4 {
  import opened Common

  type Table = t: seq<byte> | |t| == 256 witness seq(256, _ => 0)

  /** The four globals `stte`, `indx`, `jndx` and `kndx`. */
  datatype State = State(table: Table, i: byte, j: byte, k: byte)

  /** Addition of `unsigned char`s. */
  function Add(x: int, y: int): byte {
    (x + y) % 256
  }

  lemma AddTwice(x: byte, y: byte, z: byte)
    ensures Add(Add(x, y), z) == (x + y + z) % 256
  {
  }

  lemma Wraps(x: byte)
    ensures Add(x, 1) == if x == 255 then 0 else x + 1
  {
  }

  // ---------- the textbook cipher ----------

  function Swap(t: Table, a: byte, b: byte): Table {
    t[a := t[b]][b := t[a]]
  }

  function Identity(): Table {
    seq(256, i requires 0 <= i < 256 => i)
  }

  /** Byte `i` of the key repeated for ever. */
  function KeyByte(key: seq<byte>, i: nat): byte
    requires |key| > 0
    decreases i
  {
    if i < |key| then key[i] else KeyByte(key, i - |key|)
  }

  lemma {:induction false} KeyByteIsModulo(key: seq<byte>, i: nat)
    requires |key| > 0
    ensures KeyByte(key, i) == key[i % |key|]
    decreases i
  {
    var n := |key|;
    if i < n {
      Quotient(i, n, 0, i);
    } else {
      KeyByteIsModulo(key, i - n);
      var q, r := (i - n) / n, (i - n) % n;
      assert i - n == q * n + r && (q + 1) * n == q * n + n;
      Quotient(i, n, q + 1, r);
    }
  }

  /** Rounds `i` to 255 of the key schedule: the table and the schedule's own index. */
  function ScheduleFrom(t: Table, i: nat, k: byte, key: seq<byte>): (Table, byte)
    requires i <= 256 && |key| > 0
    decreases 256 - i
  {
    if i == 256 then (t, k)
    else
      var k' := (k + t[i] + KeyByte(key, i)) % 256;
      ScheduleFrom(Swap(t, i, k'), i + 1, k', key)
  }

  /** The textbook key schedule: 256 rounds from the identity table. */
  function Schedule(key: seq<byte>): Table
    requires |key| > 0
  {
    ScheduleFrom(Identity(), 0, 0, key).0
  }

  /** One round of the generator. */
  function Step(s: State): State {
    var i := Add(s.i, 1);
    var j := Add(s.j, s.table[i]);
    State(Swap(s.table, i, j), i, j, s.k)
  }

  /** The key byte that a round leaves behind. */
  function Output(s: State): byte {
    s.table[Add(s.table[s.i], s.table[s.j])]
  }

  /** Exclusive or of the `n` low bits. */
  function XorBits(x: nat, y: nat, n: nat): (r: nat)
    ensures r < Pow2(n)
  {
    if n == 0 then 0
    else 2 * XorBits(x / 2, y / 2, n - 1) + if x % 2 != y % 2 then 1 else 0
  }

  function Xor(x: byte, y: byte): byte {
    assert Pow2(8) == 256;
    XorBits(x, y, 8)
  }

  function After(s: State, n: nat): State
    decreases n
  {
    if n == 0 then s else After(Step(s), n - 1)
  }

  function CryptText(s: State, data: seq<byte>): (r: seq<byte>)
    ensures |r| == |data|
    decreases |data|
  {
    if data == [] then []
    else [Xor(data[0], Output(Step(s)))] + CryptText(Step(s), data[1..])
  }

  /** The state after one pass of `key`, which starts at the current index. */
  function AfterPass(s: State, str: seq<byte>): State
    requires str != []
  {
    var (t, k) := ScheduleFrom(s.table, s.i, s.k, str);
    State(t, 0, s.j, k)
  }

  /** The key bytes behind the first 256. */
  function LaterBlocks(str: seq<byte>): seq<byte> {
    if |str| > 256 then str[256..] else []
  }

  /** All passes of `key`: each starts at the current index, and the next key bytes are 256 further on. */
  function KeyPasses(s: State, str: seq<byte>): State
    decreases |str|
  {
    if str == [] then s else KeyPasses(AfterPass(s, str), LaterBlocks(str))
  }

  lemma ScheduleRound(t: Table, i: nat, k: byte, key: seq<byte>, t': Table, k': byte)
    requires i < 256 && |key| > 0
    requires k' == (k + t[i] + KeyByte(key, i)) % 256 && t' == Swap(t, i, k')
    ensures ScheduleFrom(t, i, k, key) == ScheduleFrom(t', i + 1, k', key)
  {
  }

  /** The buffer when the bytes from `ptr` on have been combined with the key stream. */
  function CryptFrom(s: State, buffer: seq<byte>, ptr: nat): seq<byte>
    requires ptr <= |buffer|
    decreases |buffer| - ptr
  {
    if ptr == |buffer| then buffer
    else CryptFrom(Step(s), buffer[ptr := Xor(buffer[ptr], Output(Step(s)))], ptr + 1)
  }

  lemma {:induction false} CryptFromIsText(s: State, buffer: seq<byte>, ptr: nat)
    requires ptr <= |buffer|
    ensures CryptFrom(s, buffer, ptr) == buffer[..ptr] + CryptText(s, buffer[ptr..])
    decreases |buffer| - ptr
  {
    if ptr < |buffer| {
      var x := Xor(buffer[ptr], Output(Step(s)));
      var next := buffer[ptr := x];
      CryptFromIsText(Step(s), next, ptr + 1);
      assert next[ptr + 1..] == buffer[ptr..][1..] && next[..ptr + 1] == buffer[..ptr] + [x];
      ConcatAssociates(buffer[..ptr], [x], CryptText(Step(s), buffer[ptr..][1..]));
    }
  }

  // ---------- the implementation ----------

  class Cipher {
    var stte: array<byte>
    var indx: byte
    var jndx: byte
    var kndx: byte

    ghost predicate Valid()
      reads this
    {
      stte.Length == 256
    }

    ghost function View(): State
      requires Valid()
      reads this, stte
    {
      State(stte[..], indx, jndx, kndx)
    }

    /** `stte_0`. */
    method Reset()
      requires Valid()
      modifies this, stte
      ensures Valid() && stte == old(stte) && View() == State(Identity(), 0, 0, 0)
      ensures forall v: byte :: stte[v] == v
    {
      indx, jndx, kndx := 0, 0, 0;
      ghost var done := 0;
      while true
        invariant Valid() && stte == old(stte) && jndx == kndx == 0
        invariant 0 <= done < 256 && indx == done
        invariant forall n :: 0 <= n < done ==> stte[n] == n
        decreases 256 - done
      {
        stte[indx] := indx;
        indx := Add(indx, 1);
        done := done + 1;
        if indx == 0 {
          break;
        }
      }
      assert stte[..] == Identity();
    }

    /** The body of `key`'s inner loop, up to the increment of `indx`. */
    method Mix(str: seq<byte>)
      requires Valid() && |str| > 0
      modifies `kndx, stte
      ensures ScheduleFrom(old(stte[..]), indx, old(kndx), str) == ScheduleFrom(stte[..], indx + 1, kndx, str)
    {
      var tmp, b := stte[indx], str[indx % |str|];
      KeyByteIsModulo(str, indx);
      kndx := Add(kndx, tmp);
      AddTwice(old(kndx), tmp, b);
      kndx := Add(kndx, b);
      stte[indx] := stte[kndx];
      stte[kndx] := tmp;
      ScheduleRound(old(stte[..]), indx, old(kndx), str, stte[..], kndx);
    }

    /** The inner loop of `key`: from the current index until it wraps. */
    method Pass(str: seq<byte>)
      requires Valid() && |str| > 0
      modifies this, stte
      ensures Valid() && stte == old(stte) && indx == 0 && jndx == old(jndx)
      ensures (stte[..], kndx) == ScheduleFrom(old(stte[..]), old(indx), old(kndx), str)
    {
      ghost var r := ScheduleFrom(stte[..], indx, kndx, str);
      ghost var round: nat := indx;
      while true
        invariant Valid() && stte == old(stte) && jndx == old(jndx)
        invariant 0 <= round < 256 && indx == round
        invariant ScheduleFrom(stte[..], round, kndx, str) == r
        decreases 256 - round
      {
        Mix(str);
        Wraps(indx);
        indx := Add(indx, 1);
        round := round + 1;
        if indx == 0 {
          break;
        }
      }
    }

    method Key(str: seq<byte>)
      requires Valid()
      modifies this, stte
      ensures Valid() && stte == old(stte) && View() == KeyPasses(old(View()), str)
    {
      var ptr, len := str, |str|;
      while len > 0
        invariant Valid() && stte == old(stte)
        invariant len > 0 ==> |ptr| == len
        invariant KeyPasses(View(), if len > 0 then ptr else []) == KeyPasses(old(View()), str)
        decreases len
      {
        Pass(ptr);
        ptr := if len > 256 then ptr[256..] else [];
        len := len - 256;
      }
    }

    /** The body of `arc4`'s loop, up to the byte that is combined with the buffer. */
    method Advance() returns (keyByte: byte)
      requires Valid()
      modifies this, stte
      ensures Valid() && stte == old(stte)
      ensures View() == Step(old(View())) && keyByte == Output(View())
    {
      indx := Add(indx, 1);
      var tmp := stte[indx];
      jndx := Add(jndx, tmp);
      stte[indx] := stte[jndx];
      stte[jndx] := tmp;
      tmp := Add(tmp, stte[indx]);
      keyByte := stte[tmp];
      assert stte[..] == Swap(old(stte[..]), indx, jndx);
    }

    /** The body of `arc4`'s loop. */
    method CryptByte(buffer: array<byte>, ptr: nat)
      requires Valid() && buffer != stte && ptr < buffer.Length
      modifies this, stte, buffer
      ensures Valid() && stte == old(stte) && View() == Step(old(View()))
      ensures buffer[..] == old(buffer[..])[ptr := Xor(old(buffer[ptr]), Output(View()))]
    {
      var keyByte := Advance();
      buffer[ptr] := Xor(buffer[ptr], keyByte);
    }

    /** `arc4`: the buffer is combined in place with the key stream. */
    method Crypt(buffer: array<byte>)
      requires Valid() && buffer != stte
      modifies this, stte, buffer
      ensures Valid() && stte == old(stte)
      ensures View() == After(old(View()), buffer.Length)
      ensures buffer[..] == CryptText(old(View()), old(buffer[..]))
    {
      var ptr := 0;
      ghost var start, data := View(), buffer[..];
      while ptr < buffer.Length
        invariant 0 <= ptr <= buffer.Length && Valid() && stte == old(stte)
        invariant After(View(), buffer.Length - ptr) == After(start, buffer.Length)
        invariant CryptFrom(View(), buffer[..], ptr) == CryptFrom(start, data, 0)
      {
        CryptByte(buffer, ptr);
        ptr := ptr + 1;
      }
      CryptFromIsText(start, data, 0);
      assert data[0..] == data && data[..0] == [];
    }
  }
}
