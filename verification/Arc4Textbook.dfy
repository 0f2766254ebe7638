/** The cipher as textbooks state it, round by round from the beginning, and its agreement with the implementation. */
module Arc4Textbook {
  import opened Common
  import opened Arc4
  import opened Arc4Laws
  import opened Arc4Rekey

  /** The table with what lies at `a` and at `b` exchanged. */
  function Exchanged(t: Table, a: byte, b: byte): Table {
    seq(256, x requires 0 <= x < 256 => if x == a then t[b] else if x == b then t[a] else t[x])
  }

  lemma ExchangedIsSwap(t: Table, a: byte, b: byte)
    ensures Exchanged(t, a, b) == Swap(t, a, b)
  {
  }

  // ---------- key scheduling ----------

  /** The second index after `n` rounds. */
  function KsaIndex(key: seq<byte>, n: nat): byte
    requires |key| > 0 && n <= 256
    decreases n, 0
  {
    if n == 0 then 0
    else (KsaIndex(key, n - 1) + KsaTable(key, n - 1)[n - 1] + key[(n - 1) % |key|]) % 256
  }

  /** The table after `n` rounds. */
  function KsaTable(key: seq<byte>, n: nat): Table
    requires |key| > 0 && n <= 256
    decreases n, 1
  {
    if n == 0 then seq(256, x requires 0 <= x < 256 => x)
    else Exchanged(KsaTable(key, n - 1), n - 1, KsaIndex(key, n))
  }

  lemma KsaRound(key: seq<byte>, n: nat, t: Table, k: byte)
    requires |key| > 0 && 0 < n <= 256 && t == KsaTable(key, n - 1) && k == KsaIndex(key, n - 1)
    ensures KsaIndex(key, n) == (k + t[n - 1] + KeyByte(key, n - 1)) % 256
    ensures KsaTable(key, n) == Swap(t, n - 1, KsaIndex(key, n))
  {
    KeyByteIsModulo(key, n - 1);
    ExchangedIsSwap(t, n - 1, KsaIndex(key, n));
  }

  /** Tables and indices that follow each other round by round. */
  ghost predicate Rounds(key: seq<byte>, tables: nat -> Table, indices: nat -> byte)
    requires |key| > 0
  {
    forall n: byte :: FollowsIn(key, n, tables(n), indices(n), tables(n + 1), indices(n + 1))
  }

  predicate FollowsIn(key: seq<byte>, n: byte, t: Table, k: byte, t': Table, k': byte)
    requires |key| > 0
  {
    k' == (k + t[n] + KeyByte(key, n)) % 256 && t' == Swap(t, n, k')
  }

  lemma {:induction false} ScheduleAlong(key: seq<byte>, tables: nat -> Table, indices: nat -> byte, n: nat)
    requires |key| > 0 && n <= 256 && Rounds(key, tables, indices)
    ensures ScheduleFrom(tables(n), n, indices(n), key) == (tables(256), indices(256))
    decreases 256 - n
  {
    if n < 256 {
      assert FollowsIn(key, n, tables(n), indices(n), tables(n + 1), indices(n + 1));
      ScheduleAlong(key, tables, indices, n + 1);
      ScheduleRound(tables(n), n, indices(n), key, tables(n + 1), indices(n + 1));
    }
  }

  lemma KsaStart(key: seq<byte>)
    requires |key| > 0
    ensures KsaTable(key, 0) == Identity() && KsaIndex(key, 0) == 0
  {
  }

  function TableOrAny(key: seq<byte>, n: nat): Table
    requires |key| > 0
  {
    if n <= 256 then KsaTable(key, n) else Identity()
  }

  function Tables(key: seq<byte>): nat -> Table
    requires |key| > 0
  {
    (n: nat) => TableOrAny(key, n)
  }

  function Indices(key: seq<byte>): nat -> byte
    requires |key| > 0
  {
    (n: nat) => if n <= 256 then KsaIndex(key, n) else 0
  }

  lemma KsaRounds(key: seq<byte>)
    requires |key| > 0
    ensures Rounds(key, Tables(key), Indices(key))
  {
    var tables, indices := Tables(key), Indices(key);
    forall n: byte
      ensures FollowsIn(key, n, tables(n), indices(n), tables(n + 1), indices(n + 1))
    {
      KsaRound(key, n + 1, tables(n), indices(n));
    }
  }

  lemma ScheduleIsKsa(key: seq<byte>, first: nat, last: nat)
    requires |key| > 0 && first == 0 && last == 256
    ensures ScheduleFrom(Identity(), first, 0, key) == (KsaTable(key, last), KsaIndex(key, last))
  {
    KsaRounds(key);
    KsaStart(key);
    ScheduleAlong(key, Tables(key), Indices(key), first);
  }

  /** After `stte_0`, a key of 1 to 256 bytes leaves the table of the textbook's 256 rounds. */
  lemma KeyIsKsa(key: seq<byte>, rounds: nat)
    requires 1 <= |key| <= 256 && rounds == 256
    ensures Run(State(Identity(), 0, 0, 0), [Key(key)]).table == KsaTable(key, rounds)
  {
    KeyIsTextbook(key);
    ScheduleIsKsa(key, 0, rounds);
  }

  // ---------- generation ----------

  /** The second index after `n` rounds of the generator. */
  function PrgaIndex(s: State, n: nat): byte
    decreases n, 0
  {
    if n == 0 then s.j else (PrgaIndex(s, n - 1) + PrgaTable(s, n - 1)[(s.i + n) % 256]) % 256
  }

  function PrgaTable(s: State, n: nat): Table
    decreases n, 1
  {
    if n == 0 then s.table else Exchanged(PrgaTable(s, n - 1), (s.i + n) % 256, PrgaIndex(s, n))
  }

  /** The byte that round `n` puts out. */
  function PrgaByte(s: State, n: nat): byte {
    var t := PrgaTable(s, n);
    t[(t[(s.i + n) % 256] as int + t[PrgaIndex(s, n)] as int) % 256]
  }

  lemma AfterNext(s: State, n: nat)
    ensures After(s, n + 1) == Step(After(s, n))
  {
    AfterSum(s, n, 1);
    assert After(After(s, n), 1) == After(Step(After(s, n)), 0);
  }

  lemma NextIndexIsSum(i: byte, n: nat)
    ensures Add((i + n) % 256, 1) == (i + (n + 1)) % 256
  {
  }

  lemma StepExchanges(s: State, i: byte, j: byte)
    requires i == Add(s.i, 1) && j == Add(s.j, s.table[i])
    ensures Step(s) == State(Exchanged(s.table, i, j), i, j, s.k)
  {
    ExchangedIsSwap(s.table, i, j);
  }

  lemma {:induction false} AfterIsPrga(s: State, n: nat)
    ensures After(s, n) == State(PrgaTable(s, n), (s.i + n) % 256, PrgaIndex(s, n), s.k)
  {
    if n > 0 {
      AfterIsPrga(s, n - 1);
      AfterNext(s, n - 1);
      PrgaRound(s, n, After(s, n - 1), (s.i + n) % 256);
    }
  }

  lemma PrgaRound(s: State, n: nat, before: State, i: byte)
    requires n > 0 && i == (s.i + n) % 256
    requires before == State(PrgaTable(s, n - 1), (s.i + (n - 1)) % 256, PrgaIndex(s, n - 1), s.k)
    ensures Step(before) == State(PrgaTable(s, n), i, PrgaIndex(s, n), s.k)
  {
    NextIndexIsSum(s.i, n - 1);
    StepExchanges(before, i, PrgaIndex(s, n));
  }

  lemma OutputIsPrga(s: State, n: nat)
    ensures Output(After(s, n)) == PrgaByte(s, n)
  {
    AfterIsPrga(s, n);
  }

  /** Byte number `k` of a buffer is combined with the textbook's output byte number `k + 1`. */
  lemma CryptIsPrga(s: State, data: seq<byte>, k: nat)
    requires k < |data|
    ensures CryptText(s, data)[k] == Xor(data[k], PrgaByte(s, k + 1))
  {
    CryptByteAt(s, data, k);
    OutputIsPrga(s, k + 1);
  }

  // ---------- by numbers ----------

  lemma SwapAt(t: Table, a: byte, b: byte, x: byte)
    ensures Swap(t, a, b)[x] == if x == b then t[a] else if x == a then t[b] else t[x]
  {
  }

  /** From the identity table the key stream begins with 2, 5 and 7. */
  lemma IdentityStream(s: State, data: seq<byte>)
    requires s == State(Identity(), 0, 0, 0) && data == [0, 0, 0]
    ensures CryptText(s, data) == [2, 5, 7]
  {
    var s1 := Step(s);
    var s2 := Step(s1);
    var s3 := Step(s2);
    assert s1.i == 1 && s1.j == 1 && Output(s1) == 2;
    assert s2.i == 2 && s2.j == 3 && Output(s2) == 5;
    assert s3.i == 3 && s3.j == 5 && Output(s3) == 7;
    assert After(s, 1) == s1 && After(s, 2) == s2 by {
      AfterNext(s, 0);
      AfterNext(s, 1);
    }
    AfterNext(s, 2);
    CryptZeros(s, data, 0);
    CryptZeros(s, data, 1);
    CryptZeros(s, data, 2);
  }

  /** The last two rounds of a schedule with the key byte 7, from the identity table and index 0. */
  lemma TwoRounds(key: seq<byte>, i: nat)
    requires key == [7] && i == 254
    ensures var (t, k) := ScheduleFrom(Identity(), i, 0, key);
      k == 11 && t[254] == 5 && t[5] == 254 && t[255] == 11 && t[11] == 255
  {
    KeyByteIsModulo(key, 254);
    KeyByteIsModulo(key, 255);
    var t1 := Swap(Identity(), 254, 5);
    var t2 := Swap(t1, 255, 11);
    ScheduleRound(Identity(), 254, 0, key, t1, 5);
    ScheduleRound(t1, 255, 5, key, t2, 11);
    assert ScheduleFrom(t2, 256, 11, key) == (t2, 11);
  }
}
