/** What a `key` call reads when `arc4` has moved the index before it. */
module Arc4Rekey {
  import opened Common
  import opened Arc4
  import opened Arc4Laws
  import opened Arc4Period

  // ---------- where the call starts ----------

  function IndexAfter(i: byte, n: nat): byte
    decreases n
  {
    if n == 0 then i else IndexAfter(Add(i, 1), n - 1)
  }

  lemma {:induction false} IndexIsSum(i: byte, n: nat)
    ensures IndexAfter(i, n) == (i + n) % 256
    decreases n
  {
    if n > 0 {
      IndexIsSum(Add(i, 1), n - 1);
      Wraps(i);
    }
  }

  lemma {:induction false} AfterMovesIndex(s: State, n: nat)
    ensures After(s, n).i == IndexAfter(s.i, n)
    decreases n
  {
    if n > 0 {
      AfterMovesIndex(Step(s), n - 1);
    }
  }

  /** Every byte that `arc4` processes moves the index on by one. */
  lemma AfterIndex(s: State, n: nat)
    ensures After(s, n).i == (s.i + n) % 256
  {
    AfterMovesIndex(s, n);
    IndexIsSum(s.i, n);
  }

  // ---------- which bytes the first pass reads ----------

  /** Key position `b` is read in the first pass when that starts at index `start`. */
  ghost predicate ReadInFirstPass(start: byte, length: nat, b: nat)
    requires length > 0
  {
    exists i: byte :: start <= i && i % length == b
  }

  /**
   * A `key` call after `arc4` starts wherever `indx` stands. The first pass reads its whole block
   * exactly when enough rounds are left before the index wraps.
   */
  lemma FirstPassReadsBlock(start: byte, length: nat)
    requires length > 0
    ensures (forall b: byte :: b < length ==> ReadInFirstPass(start, length, b))
       <==> 256 - start >= if length < 256 then length else 256
  {
    if length <= 256 - start {
      forall b: byte | b < length
        ensures ReadInFirstPass(start, length, b)
      {
        var r := start % length;
        var i := if b >= r then start + (b - r) else start + (b - r) + length;
        SameRemainder(start, i, length, b);
      }
    } else if start > 0 {
      var b := (start - 1) % length;
      if ReadInFirstPass(start, length, b) {
        var i: byte :| start <= i && i % length == b;
        NoRepeat(start - 1, i, length);
        assert false;
      }
      assert b < 256;
    } else {
      forall b: byte | b < length
        ensures ReadInFirstPass(start, length, b)
      {
        assert b % length == b;
      }
    }
  }

  lemma SameRemainder(start: nat, i: nat, length: nat, b: nat)
    requires length > 0 && b < length
    requires i == start - start % length + b || i == start - start % length + b + length
    ensures i % length == b
  {
    var q := start / length;
    assert start - start % length == q * length;
    if i == start - start % length + b {
      Quotient(i, length, q, b);
    } else {
      assert q * length + length == (q + 1) * length;
      Quotient(i, length, q + 1, b);
    }
  }

  lemma NoRepeat(a: nat, i: nat, length: nat)
    requires a < i < a + length
    ensures i % length != a % length
  {
    if i % length == a % length {
      var p, q := i / length, a / length;
      assert i - a == p * length - q * length == (p - q) * length;
      if p > q {
        MultipleAtLeast(p - q, length);
      } else {
        MultipleAtLeast(q - p + 1, length);
      }
      assert false;
    }
  }

  // ---------- what the bytes do ----------

  /** One round of the key schedule can be undone when its key byte is known. */
  lemma RoundInjective(t: Table, k: byte, u: Table, l: byte, i: byte, b: byte, k': byte)
    requires k' == (k + t[i] + b) % 256 && k' == (l + u[i] + b) % 256
    requires Swap(t, i, k') == Swap(u, i, k')
    ensures t == u && k == l
  {
    SwapTwice(t, i, k');
    SwapTwice(u, i, k');
  }

  /** With the same key, different states stay different. */
  lemma {:induction false} ScheduleInjective(t: Table, k: byte, u: Table, l: byte, i: nat, key: seq<byte>)
    requires i <= 256 && |key| > 0
    requires ScheduleFrom(t, i, k, key) == ScheduleFrom(u, i, l, key)
    ensures t == u && k == l
    decreases 256 - i
  {
    if i < 256 {
      var b := KeyByte(key, i);
      var k', l' := (k + t[i] + b) % 256, (l + u[i] + b) % 256;
      ScheduleInjective(Swap(t, i, k'), k', Swap(u, i, l'), l', i + 1, key);
      RoundInjective(t, k, u, l, i, b, k');
    }
  }

  lemma {:induction false} KeyPassesInjective(s: State, r: State, str: seq<byte>)
    requires s.i == r.i && s.j == r.j
    ensures KeyPasses(s, str) == KeyPasses(r, str) <==> s == r
    decreases |str|
  {
    if str != [] && KeyPasses(s, str) == KeyPasses(r, str) {
      KeyPassesInjective(AfterPass(s, str), AfterPass(r, str), LaterBlocks(str));
      ScheduleInjective(s.table, s.k, r.table, r.k, s.i, str);
    }
  }

  /** From round `i` on the two keys give the same bytes, except in round `r`. */
  ghost predicate DifferOnlyInRound(a: seq<byte>, b: seq<byte>, i: nat, r: nat)
    requires |a| > 0 && |b| > 0
  {
    forall n :: i <= n < 256 ==> (KeyByte(a, n) == KeyByte(b, n) <==> n != r)
  }

  lemma {:induction false} ScheduleDiffers(t: Table, i: nat, k: byte, a: seq<byte>, b: seq<byte>, r: nat)
    requires i <= r < 256 && |a| > 0 && |b| > 0 && DifferOnlyInRound(a, b, i, r)
    ensures ScheduleFrom(t, i, k, a) != ScheduleFrom(t, i, k, b)
    decreases 256 - i
  {
    var k', l' := (k + t[i] + KeyByte(a, i)) % 256, (k + t[i] + KeyByte(b, i)) % 256;
    if i < r {
      ScheduleDiffers(Swap(t, i, k'), i + 1, k', a, b, r);
    } else {
      OtherSum(k + t[i], KeyByte(a, i), KeyByte(b, i));
      ScheduleSameBytes(Swap(t, i, l'), i + 1, l', a, b);
      if ScheduleFrom(t, i, k, a) == ScheduleFrom(t, i, k, b) {
        ScheduleInjective(Swap(t, i, k'), k', Swap(t, i, l'), l', i + 1, a);
        assert false;
      }
    }
  }

  lemma OtherSum(x: nat, a: byte, b: byte)
    requires a != b
    ensures (x + a) % 256 != (x + b) % 256
  {
  }

  /** `b` is `a` with another byte at position `p`. */
  ghost predicate DifferOnlyAt(a: seq<byte>, b: seq<byte>, p: nat) {
    |a| == |b| && p < |a| && a[p] != b[p] && b == a[p := b[p]]
  }

  lemma BytesOfRound(a: seq<byte>, b: seq<byte>, p: nat, n: nat)
    requires DifferOnlyAt(a, b, p)
    ensures KeyByte(a, n) == KeyByte(b, n) <==> n % |a| != p
  {
    KeyByteIsModulo(a, n);
    KeyByteIsModulo(b, n);
  }

  lemma ReadByteChangesPass(t: Table, i: byte, k: byte, a: seq<byte>, b: seq<byte>, p: nat)
    requires DifferOnlyAt(a, b, p) && 256 - i <= |a| && ReadInFirstPass(i, |a|, p)
    ensures ScheduleFrom(t, i, k, a) != ScheduleFrom(t, i, k, b)
  {
    var r: byte :| i <= r && r % |a| == p;
    forall n | i <= n < 256
      ensures KeyByte(a, n) == KeyByte(b, n) <==> n != r
    {
      BytesOfRound(a, b, p, n);
      if n < r {
        NoRepeat(n, r, |a|);
      } else if n > r {
        NoRepeat(r, n, |a|);
      }
    }
    ScheduleDiffers(t, i, k, a, b, r);
  }

  /** Keys that agree wherever the first pass reads give the same pass. */
  lemma UnreadBytesIgnored(t: Table, i: byte, k: byte, a: seq<byte>, b: seq<byte>)
    requires |a| == |b| > 0 && forall p :: 0 <= p < |a| && ReadInFirstPass(i, |a|, p) ==> a[p] == b[p]
    ensures ScheduleFrom(t, i, k, a) == ScheduleFrom(t, i, k, b)
  {
    forall n | i <= n < 256
      ensures KeyByte(a, n) == KeyByte(b, n)
    {
      KeyByteIsModulo(a, n);
      KeyByteIsModulo(b, n);
      assert ReadInFirstPass(i, |a|, n % |a|);
    }
    ScheduleSameBytes(t, i, k, a, b);
  }

  /** A key of one block has no effect on `key` but through the bytes that its first pass reads. */
  lemma KeyIgnoresUnread(s: State, a: seq<byte>, b: seq<byte>)
    requires 0 < |a| == |b| <= 256
    requires forall p :: 0 <= p < |a| && ReadInFirstPass(s.i, |a|, p) ==> a[p] == b[p]
    ensures KeyPasses(s, a) == KeyPasses(s, b)
  {
    UnreadBytesIgnored(s.table, s.i, s.k, a, b);
  }

  lemma PassThenRest(s: State, str: seq<byte>, rest: seq<byte>)
    requires str != [] && rest == LaterBlocks(str)
    ensures KeyPasses(s, str) == KeyPasses(AfterPass(s, str), rest)
  {
  }

  lemma LaterBlocksAgree(a: seq<byte>, b: seq<byte>, p: nat)
    requires DifferOnlyAt(a, b, p) && p < 256
    ensures LaterBlocks(a) == LaterBlocks(b)
  {
  }

  /** The first passes of two keys decide, if nothing else differs. */
  lemma FirstPassDecides(s: State, a: seq<byte>, b: seq<byte>)
    requires a != [] && b != [] && LaterBlocks(a) == LaterBlocks(b)
    ensures KeyPasses(s, a) == KeyPasses(s, b) <==> AfterPass(s, a) == AfterPass(s, b)
  {
    var rest := LaterBlocks(a);
    PassThenRest(s, a, rest);
    PassThenRest(s, b, rest);
    if KeyPasses(AfterPass(s, a), rest) == KeyPasses(AfterPass(s, b), rest) {
      KeyPassesInjective(AfterPass(s, a), AfterPass(s, b), rest);
    }
  }

  /**
   * With a key at least as long as the rounds left before the index wraps, changing one byte of its first
   * block leaves the whole outcome of `key` as it was exactly when the first pass does not read that byte.
   */
  lemma ByteIsLost(s: State, a: seq<byte>, b: seq<byte>, p: byte)
    requires DifferOnlyAt(a, b, p) && 256 - s.i <= |a|
    ensures KeyPasses(s, a) == KeyPasses(s, b) <==> !ReadInFirstPass(s.i, |a|, p)
  {
    LaterBlocksAgree(a, b, p);
    FirstPassDecides(s, a, b);
    if ReadInFirstPass(s.i, |a|, p) {
      ReadByteChangesPass(s.table, s.i, s.k, a, b, p);
    } else {
      UnreadBytesIgnored(s.table, s.i, s.k, a, b);
    }
  }

  lemma AnotherByte(a: seq<byte>, p: nat) returns (b: seq<byte>)
    requires p < |a|
    ensures DifferOnlyAt(a, b, p)
  {
    b := a[p := Add(a[p], 1)];
  }

  /** So every byte of the first block counts exactly when enough rounds are left to read them all. */
  lemma EveryByteCounts(s: State, a: seq<byte>)
    requires 256 - s.i <= |a|
    ensures (forall b, p: byte :: DifferOnlyAt(a, b, p) ==> KeyPasses(s, a) != KeyPasses(s, b))
       <==> 256 - s.i >= if |a| < 256 then |a| else 256
  {
    FirstPassReadsBlock(s.i, |a|);
    if p: byte :| p < |a| && !ReadInFirstPass(s.i, |a|, p) {
      var b := AnotherByte(a, p);
      ByteIsLost(s, a, b, p);
    } else {
      forall b, p: byte | DifferOnlyAt(a, b, p)
        ensures KeyPasses(s, a) != KeyPasses(s, b)
      {
        ByteIsLost(s, a, b, p);
      }
    }
  }

  // ---------- short cycles after a later key ----------

  lemma {:induction false} KeyEndsAtZero(s: State, str: seq<byte>)
    ensures KeyPasses(s, str).j == s.j && (KeyPasses(s, str).i == if str == [] then s.i else 0)
    decreases |str|
  {
    if str != [] {
      KeyEndsAtZero(AfterPass(s, str), LaterBlocks(str));
      PassThenRest(s, str, LaterBlocks(str));
    }
  }

  /**
   * A run after a later `key` call is on a short cycle from beginning to end or nowhere: it is on one exactly
   * if `jndx` was left at 1 and the new table holds 1 at index 1.
   */
  lemma ShortAfterKey(s: State, str: seq<byte>, n: nat)
    requires str != []
    ensures Short(After(KeyPasses(s, str), n)) <==> s.j == 1 && KeyPasses(s, str).table[1] == 1
  {
    KeyEndsAtZero(s, str);
    ShortForever(KeyPasses(s, str), n);
  }

  // ---------- a run in which this happens ----------

  lemma RunOfTwo(s: State, x: Op, y: Op)
    ensures Run(s, [x, y]) == Apply(Apply(s, x), y)
  {
    var t := Apply(s, x);
    assert [x, y][1..] == [y] && [y][1..] == [];
    assert Run(t, [y]) == Run(Apply(t, y), []);
  }

  lemma KeyThenCrypt(s: State, first: seq<byte>, n: nat)
    requires s.i == 0
    ensures Run(s, [Key(first), Crypt(n)]).i == n % 256
  {
    RunOfTwo(s, Key(first), Crypt(n));
    KeyIsScheduleOfBlocks(s, first);
    AfterIndex(KeyPasses(s, first), n);
  }

  /** After one byte has been processed, `key` does not see the first byte of a key of 256 bytes or more. */
  lemma FirstByteIsLost(first: seq<byte>, a: seq<byte>, b: seq<byte>)
    requires DifferOnlyAt(a, b, 0) && |a| >= 256
    ensures var s := Run(State(Identity(), 0, 0, 0), [Key(first), Crypt(1)]); KeyPasses(s, a) == KeyPasses(s, b)
  {
    var s := Run(State(Identity(), 0, 0, 0), [Key(first), Crypt(1)]);
    KeyThenCrypt(State(Identity(), 0, 0, 0), first, 1);
    forall i: byte | 1 <= i
      ensures i % |a| != 0
    {
      Quotient(i, |a|, 0, i);
    }
    ByteIsLost(s, a, b, 0);
  }
}
