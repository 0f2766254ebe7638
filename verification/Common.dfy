/** Vocabulary shared by the component models. */
module Common {

  /** An `unsigned char`. */
  type byte = x: int | 0 <= x < 256

  /** An `int` of 32 bits. */
  type int32 = x: int | -0x8000_0000 <= x < 0x8000_0000

  datatype Option<+T> = None | Some(value: T)

  /** The C string that starts at `mem[0]`: everything before the first terminator. */
  function UntilNul<T(==)>(mem: seq<T>, nul: T): (s: seq<T>)
    requires nul in mem
    ensures |s| < |mem| && s == mem[..|s|]
    ensures mem[|s|] == nul && nul !in s
  {
    if mem[0] == nul then [] else [mem[0]] + UntilNul(mem[1..], nul)
  }

  /** The two clauses above determine the string. */
  lemma {:induction false} UntilNulUnique<T>(mem: seq<T>, nul: T, n: nat)
    requires n < |mem| && mem[n] == nul && nul !in mem[..n]
    ensures UntilNul(mem, nul) == mem[..n]
  {
    if n > 0 {
      assert mem[0] == mem[..n][0] != nul;
      assert mem[1..][..n - 1] == mem[..n][1..];
      UntilNulUnique(mem[1..], nul, n - 1);
    }
  }

  lemma ConcatAssociates<T>(a: seq<T>, b: seq<T>, c: seq<T>)
    ensures a + b + c == a + (b + c)
  {
  }

  function Pow2(n: nat): (p: nat)
    ensures p >= 1
  {
    if n == 0 then 1 else 2 * Pow2(n - 1)
  }

  /** Bit number `p` of `x`, bit 0 being the lowest. */
  function BitAt(x: nat, p: nat): (b: nat)
    ensures b < 2
  {
    if p == 0 then x % 2 else BitAt(x / 2, p - 1)
  }

  lemma Halves(q: nat, bit: nat)
    requires bit < 2
    ensures (2 * q + bit) / 2 == q && (2 * q + bit) % 2 == bit
  {
  }

  lemma MultipleAtLeast(d: int, n: nat)
    requires d >= 1
    ensures d * n >= n
  {
  }

  /** Quotient and remainder are unique. */
  lemma Quotient(x: nat, n: nat, q: nat, b: nat)
    requires b < n && x == q * n + b
    ensures x / n == q && x % n == b
  {
    var p, r := x / n, x % n;
    assert x == p * n + r;
    if p > q {
      MultipleAtLeast(p - q, n);
    } else if p < q {
      MultipleAtLeast(q - p, n);
    }
  }

  predicate Distinct<T(==)>(s: seq<T>) {
    forall i, j :: 0 <= i < j < |s| ==> s[i] != s[j]
  }

  lemma {:induction false} Pigeonhole<T>(r: seq<T>, all: set<T>)
    requires Distinct(r) && forall x :: x in r ==> x in all
    ensures |r| <= |all|
  {
    if r != [] {
      assert forall x :: x in r[1..] ==> x in r && x != r[0];
      Pigeonhole(r[1..], all - {r[0]});
    }
  }

  lemma Repetition<T>(r: seq<T>, all: set<T>) returns (a: nat, b: nat)
    requires |r| > |all| && forall x :: x in r ==> x in all
    ensures a < b < |r| && r[a] == r[b]
  {
    if Distinct(r) {
      Pigeonhole(r, all);
      assert false;
    }
    a, b :| 0 <= a < b < |r| && r[a] == r[b];
  }

  /** Removing one occurrence of the head of `a` from a permutation `b` leaves a permutation of the tail. */
  lemma PermutationTail<T>(a: seq<T>, b: seq<T>) returns (j: nat)
    requires |a| > 0 && multiset(a) == multiset(b)
    ensures j < |b| && b[j] == a[0]
    ensures multiset(a[1..]) == multiset(b[..j] + b[j + 1..])
  {
    assert a[0] in multiset(b);
    j :| 0 <= j < |b| && b[j] == a[0];
    assert a == [a[0]] + a[1..];
    assert multiset(a) == multiset(a[1..]) + multiset{a[0]};
    assert b == b[..j] + [b[j]] + b[j + 1..];
    assert multiset(b) == multiset(b[..j] + b[j + 1..]) + multiset{a[0]};
    assert multiset(a[1..]) == multiset(a) - multiset{a[0]};
  }
}
