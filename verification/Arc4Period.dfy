/** One generator round can be undone, so every key stream run returns to its starting state. */
module Arc4Period {
  import opened Common
  import opened Arc4
  import opened Arc4Laws

  /** Subtraction of `unsigned char`s. */
  function Sub(x: byte, y: byte): byte {
    (x - y + 256) % 256
  }

  /** The round backwards: swap back, then take the swapped-in value off the second index. */
  function Unstep(s: State): State {
    var t := Swap(s.table, s.i, s.j);
    State(t, Sub(s.i, 1), Sub(s.j, t[s.i]), s.k)
  }

  lemma AddCancels(x: byte, y: byte)
    ensures Sub(Add(x, y), y) == x && Add(Sub(x, y), y) == x
  {
    assert Add(x, y) == if x + y < 256 then x + y else x + y - 256;
    assert Sub(x, y) == if y <= x then x - y else x - y + 256;
  }

  lemma SwapTwice(t: Table, a: byte, b: byte)
    ensures Swap(Swap(t, a, b), a, b) == t
  {
  }

  lemma UnstepStep(s: State)
    ensures Unstep(Step(s)) == s
  {
    var i := Add(s.i, 1);
    AddCancels(s.i, 1);
    AddCancels(s.j, s.table[i]);
    SwapTwice(s.table, i, Add(s.j, s.table[i]));
  }

  lemma StepUnstep(s: State)
    ensures Step(Unstep(s)) == s
  {
    AddCancels(s.i, 1);
    SwapTwice(s.table, s.i, s.j);
    AddCancels(s.j, Swap(s.table, s.i, s.j)[s.i]);
  }

  /** Equal states after equally many rounds were equal before them. */
  lemma {:induction false} AfterInjective(s: State, t: State, n: nat)
    requires After(s, n) == After(t, n)
    ensures s == t
    decreases n
  {
    if n > 0 {
      AfterInjective(Step(s), Step(t), n - 1);
      UnstepStep(s);
      UnstepStep(t);
    }
  }

  // ---------- there are finitely many states ----------

  function AllSequences(n: nat): (r: set<seq<byte>>)
    ensures forall t: seq<byte> :: t in r <==> |t| == n
  {
    if n == 0 then {[]}
    else
      var shorter := AllSequences(n - 1);
      var r := set t, b: byte | t in shorter && 0 <= b < 256 :: [b] + t;
      assert forall t: seq<byte> :: |t| == n ==> t == [t[0]] + t[1..] && t[1..] in shorter;
      r
  }

  /** A state, apart from the key index that no round touches, as one string of 258 bytes. */
  function Flat(s: State): (r: seq<byte>)
    ensures |r| == 258
  {
    s.table + [s.i, s.j]
  }

  lemma FlatInjective(s: State, t: State)
    requires Flat(s) == Flat(t) && s.k == t.k
    ensures s == t
  {
    assert s.table == Flat(s)[..256] == t.table;
    assert s.i == Flat(s)[256] && s.j == Flat(s)[257];
    assert t.i == Flat(t)[256] && t.j == Flat(t)[257];
  }

  /** The states after 0 to `n - 1` rounds. */
  function Trace(s: State, n: nat): (r: seq<seq<byte>>)
    ensures |r| == n && forall i :: 0 <= i < n ==> r[i] == Flat(After(s, i))
  {
    seq(n, i requires 0 <= i < n => Flat(After(s, i)))
  }

  lemma {:induction false} AfterKeepsK(s: State, n: nat)
    ensures After(s, n).k == s.k
    decreases n
  {
    if n > 0 {
      AfterKeepsK(Step(s), n - 1);
    }
  }

  lemma TraceIsFlat(s: State, n: nat, size: nat)
    requires size == 258
    ensures forall x :: x in Trace(s, n) ==> x in AllSequences(size)
  {
  }

  lemma FlatRepeats(s: State, size: nat) returns (a: nat, b: nat)
    requires size == 258
    ensures a < b && Flat(After(s, a)) == Flat(After(s, b))
  {
    var n := |AllSequences(size)| + 1;
    TraceIsFlat(s, n, size);
    a, b := Repetition(Trace(s, n), AllSequences(size));
  }

  /** More rounds than there are states repeat a state. */
  lemma Recurrence(s: State) returns (a: nat, b: nat)
    ensures a < b && After(s, a) == After(s, b)
  {
    a, b := FlatRepeats(s, 258);
    AfterKeepsK(s, a);
    AfterKeepsK(s, b);
    FlatInjective(After(s, a), After(s, b));
  }

  /** Every run returns to its own starting state: there is no run-in. */
  lemma PurelyPeriodic(s: State) returns (period: nat)
    ensures period > 0 && After(s, period) == s
    ensures forall n: nat :: After(s, n + period) == After(s, n)
  {
    var a, b := Recurrence(s);
    period := b - a;
    AfterSum(s, period, a);
    AfterInjective(After(s, period), s, a);
    forall n: nat
      ensures After(s, n + period) == After(s, n)
    {
      AfterSum(s, period, n);
    }
  }
}
