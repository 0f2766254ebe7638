/** Huffman trees, the bit strings they assign to characters, and what makes those strings a code. */
module HuffmanTree {
  import opened Common

  /** A `TreeNode`; `createTreeNode` gives every merged node the character 0. */
  datatype Tree =
    | Leaf(character: byte, frequency: nat)
    | Node(frequency: nat, left: Tree, right: Tree)

  /** A tree without its frequencies: all that the output file keeps of it. */
  datatype Shape = Tip(symbol: byte) | Fork(zero: Shape, one: Shape)

  function ShapeOf(t: Tree): Shape {
    match t
    case Leaf(c, _) => Tip(c)
    case Node(_, l, r) => Fork(ShapeOf(l), ShapeOf(r))
  }

  /** The characters at the leaves, left to right. */
  function Symbols(s: Shape): (r: seq<byte>)
    ensures |r| >= 1
  {
    match s
    case Tip(c) => [c]
    case Fork(l, r) => Symbols(l) + Symbols(r)
  }

  /** The frequencies at the leaves, left to right. */
  function Frequencies(t: Tree): (r: seq<nat>)
    ensures |r| == |Symbols(ShapeOf(t))|
  {
    match t
    case Leaf(_, f) => [f]
    case Node(_, l, r) => Frequencies(l) + Frequencies(r)
  }

  /** The depths of the leaves, left to right, when the root is at depth `d`. */
  function Depths(s: Shape, d: nat): (r: seq<nat>)
    ensures |r| == |Symbols(s)|
  {
    match s
    case Tip(_) => [d]
    case Fork(l, r) => Depths(l, d + 1) + Depths(r, d + 1)
  }

  function Height(s: Shape): nat {
    match s
    case Tip(_) => 0
    case Fork(l, r) => 1 + if Height(l) >= Height(r) then Height(l) else Height(r)
  }

  /** Every merged node carries the sum of its children's frequencies. */
  predicate WellFormed(t: Tree) {
    match t
    case Leaf(_, _) => true
    case Node(f, l, r) => f == l.frequency + r.frequency && WellFormed(l) && WellFormed(r)
  }

  /** No merged node has a left child that is more frequent than its right one. */
  predicate LighterLeft(t: Tree) {
    match t
    case Leaf(_, _) => true
    case Node(_, l, r) => l.frequency <= r.frequency && LighterLeft(l) && LighterLeft(r)
  }

  /** The sum of the frequencies of all merged nodes. */
  function MergedSum(t: Tree): nat {
    match t
    case Leaf(_, _) => 0
    case Node(f, l, r) => f + MergedSum(l) + MergedSum(r)
  }

  // ---------- sums over leaves ----------

  function Sum(w: seq<nat>): nat {
    if w == [] then 0 else w[0] + Sum(w[1..])
  }

  /** `a * n`, kept out of the solver's non-linear arithmetic; see `TimesIsProduct`. */
  function Times(a: nat, n: nat): nat {
    if n == 0 then 0 else a + Times(a, n - 1)
  }

  lemma TimesIsProduct(a: nat, n: nat)
    ensures Times(a, n) == a * n
  {
    if n > 0 {
      TimesIsProduct(a, n - 1);
      assert a * n == a + a * (n - 1);
    }
  }

  lemma TimesNext(a: nat, n: nat)
    ensures Times(a, n + 1) == a + Times(a, n)
  {
  }

  lemma TimesAdds(a: nat, b: nat, n: nat)
    ensures Times(a, n) + Times(b, n) == Times(a + b, n)
  {
    if n > 0 {
      TimesAdds(a, b, n - 1);
    }
  }

  /** The weighted path length: the sum of all `w[i] * d[i]`. */
  function Dot(w: seq<nat>, d: seq<nat>): nat
    requires |w| == |d|
  {
    if w == [] then 0 else Times(w[0], d[0]) + Dot(w[1..], d[1..])
  }

  lemma SumAppend(a: seq<nat>, b: seq<nat>)
    ensures Sum(a + b) == Sum(a) + Sum(b)
  {
    if a == [] {
      assert a + b == b;
    } else {
      assert (a + b)[1..] == a[1..] + b;
      SumAppend(a[1..], b);
    }
  }

  lemma DotAppend(a: seq<nat>, b: seq<nat>, c: seq<nat>, d: seq<nat>)
    requires |a| == |c| && |b| == |d|
    ensures Dot(a + b, c + d) == Dot(a, c) + Dot(b, d)
  {
    if a == [] {
      assert a + b == b && c + d == d;
    } else {
      assert (a + b)[1..] == a[1..] + b && (c + d)[1..] == c[1..] + d;
      DotAppend(a[1..], b, c[1..], d);
    }
  }

  lemma {:induction false} FrequencyIsSum(t: Tree)
    requires WellFormed(t)
    ensures Sum(Frequencies(t)) == t.frequency
  {
    if t.Node? {
      FrequencyIsSum(t.left);
      FrequencyIsSum(t.right);
      SumAppend(Frequencies(t.left), Frequencies(t.right));
    }
  }

  /** Summing the merged nodes and weighing the leaves by depth measure the same cost. */
  lemma {:induction false} MergedSumIsPathLength(t: Tree, d: nat)
    requires WellFormed(t)
    ensures Dot(Frequencies(t), Depths(ShapeOf(t), d)) == MergedSum(t) + Times(t.frequency, d)
  {
    if t.Node? {
      MergedSumIsPathLength(t.left, d + 1);
      MergedSumIsPathLength(t.right, d + 1);
      DotAppend(Frequencies(t.left), Frequencies(t.right),
                Depths(ShapeOf(t.left), d + 1), Depths(ShapeOf(t.right), d + 1));
      TimesNext(t.left.frequency, d);
      TimesNext(t.right.frequency, d);
      TimesAdds(t.left.frequency, t.right.frequency, d);
    }
  }

  // ---------- code words ----------

  /** What `generateCodes` leaves in `codes`, in its own order: later leaves overwrite earlier ones. */
  function Codes(s: Shape, prefix: string): map<byte, string> {
    match s
    case Tip(c) => map[c := prefix]
    case Fork(l, r) => Codes(l, prefix + "0") + Codes(r, prefix + "1")
  }

  /** The turns from the root to leaf number `i`. */
  function Path(s: Shape, i: nat): string
    requires i < |Symbols(s)|
  {
    match s
    case Tip(_) => ""
    case Fork(l, r) =>
      if i < |Symbols(l)| then "0" + Path(l, i) else "1" + Path(r, i - |Symbols(l)|)
  }

  lemma {:induction false} CodesDomain(s: Shape, prefix: string)
    ensures forall c :: c in Codes(s, prefix) <==> c in Symbols(s)
  {
    if s.Fork? {
      CodesDomain(s.zero, prefix + "0");
      CodesDomain(s.one, prefix + "1");
    }
  }

  lemma DistinctParts<T>(a: seq<T>, b: seq<T>)
    requires Distinct(a + b)
    ensures Distinct(a) && Distinct(b)
    ensures forall x :: x in a ==> x !in b
  {
    assert forall k :: 0 <= k < |a| ==> a[k] == (a + b)[k];
    assert forall k :: 0 <= k < |b| ==> b[k] == (a + b)[|a| + k];
  }

  /** With distinct leaves nothing is overwritten: each character's code is the path to its leaf. */
  lemma {:induction false} CodesArePaths(s: Shape, prefix: string, i: nat)
    requires Distinct(Symbols(s)) && i < |Symbols(s)|
    ensures Symbols(s)[i] in Codes(s, prefix)
    ensures Codes(s, prefix)[Symbols(s)[i]] == prefix + Path(s, i)
    ensures |Path(s, i)| == Depths(s, 0)[i]
  {
    if s.Fork? {
      var l, r, n := s.zero, s.one, |Symbols(s.zero)|;
      DistinctParts(Symbols(l), Symbols(r));
      if i < n {
        CodesArePaths(l, prefix + "0", i);
        CodesDomain(r, prefix + "1");
        assert prefix + "0" + Path(l, i) == prefix + Path(s, i);
        DepthsShift(l, 1, i);
      } else {
        CodesArePaths(r, prefix + "1", i - n);
        assert prefix + "1" + Path(r, i - n) == prefix + Path(s, i);
        DepthsShift(r, 1, i - n);
      }
    }
  }

  lemma {:induction false} DepthsShift(s: Shape, d: nat, i: nat)
    requires i < |Symbols(s)|
    ensures Depths(s, d)[i] == d + Depths(s, 0)[i]
    decreases s
  {
    if s.Fork? {
      var n := |Symbols(s.zero)|;
      if i < n {
        DepthsShift(s.zero, d + 1, i);
        DepthsShift(s.zero, 1, i);
      } else {
        DepthsShift(s.one, d + 1, i - n);
        DepthsShift(s.one, 1, i - n);
      }
    }
  }

  /** No code is a prefix of another. */
  lemma {:induction false} PrefixFree(s: Shape, i: nat, j: nat)
    requires i < |Symbols(s)| && j < |Symbols(s)| && i != j
    ensures !(Path(s, i) <= Path(s, j))
  {
    if s.Fork? {
      var n := |Symbols(s.zero)|;
      var p, q := Path(s, i), Path(s, j);
      if i < n && j < n {
        PrefixFree(s.zero, i, j);
        assert p[1..] == Path(s.zero, i) && q[1..] == Path(s.zero, j);
      } else if i >= n && j >= n {
        PrefixFree(s.one, i - n, j - n);
        assert p[1..] == Path(s.one, i - n) && q[1..] == Path(s.one, j - n);
      } else {
        assert p[0] != q[0];
      }
    }
  }

  /** The codes stand in the order of the leaves: where two first differ, the earlier leaf's has the 0. */
  lemma {:induction false} PathsInOrder(s: Shape, i: nat, j: nat) returns (k: nat)
    requires i < j < |Symbols(s)|
    ensures k < |Path(s, i)| && k < |Path(s, j)| && Path(s, i)[..k] == Path(s, j)[..k]
    ensures Path(s, i)[k] == '0' && Path(s, j)[k] == '1'
  {
    var n := |Symbols(s.zero)|;
    if j < n {
      var m := PathsInOrder(s.zero, i, j);
      k := m + 1;
      assert Path(s, i)[..k] == "0" + Path(s.zero, i)[..m] && Path(s, j)[..k] == "0" + Path(s.zero, j)[..m];
    } else if i >= n {
      var m := PathsInOrder(s.one, i - n, j - n);
      k := m + 1;
      assert Path(s, i)[..k] == "1" + Path(s.one, i - n)[..m] && Path(s, j)[..k] == "1" + Path(s.one, j - n)[..m];
    } else {
      k := 0;
    }
  }

  /** Every bit string that is long enough begins with a code: the code has no gaps. */
  lemma {:induction false} Complete(s: Shape, bits: string) returns (i: nat)
    requires |bits| >= Height(s) && forall b :: b in bits ==> b == '0' || b == '1'
    ensures i < |Symbols(s)| && Path(s, i) <= bits
  {
    match s
    case Tip(_) =>
      i := 0;
    case Fork(l, r) =>
      assert bits[0] in bits;
      assert forall b :: b in bits[1..] ==> b in bits;
      if bits[0] == '0' {
        i := Complete(l, bits[1..]);
        assert Path(s, i)[1..] == Path(l, i);
      } else {
        var k := Complete(r, bits[1..]);
        i := |Symbols(l)| + k;
        assert Path(s, i)[1..] == Path(r, k);
      }
  }

  /** The Kraft sum of leaf depths `d`, scaled by 2 to the power `top`. */
  function KraftSum(d: seq<nat>, top: nat): nat
    requires forall i :: 0 <= i < |d| ==> d[i] <= top
  {
    if d == [] then 0 else Pow2(top - d[0]) + KraftSum(d[1..], top)
  }

  lemma KraftAppend(a: seq<nat>, b: seq<nat>, top: nat)
    requires forall i :: 0 <= i < |a| ==> a[i] <= top
    requires forall i :: 0 <= i < |b| ==> b[i] <= top
    ensures KraftSum(a + b, top) == KraftSum(a, top) + KraftSum(b, top)
  {
    if a == [] {
      assert a + b == b;
    } else {
      assert (a + b)[1..] == a[1..] + b;
      KraftAppend(a[1..], b, top);
    }
  }

  lemma {:induction false} DepthsBounded(s: Shape, d: nat)
    ensures forall i :: 0 <= i < |Symbols(s)| ==> d <= Depths(s, d)[i] <= d + Height(s)
  {
    if s.Fork? {
      DepthsBounded(s.zero, d + 1);
      DepthsBounded(s.one, d + 1);
    }
  }

  /** The Kraft sum is exactly one. */
  lemma {:induction false} KraftEquality(s: Shape, d: nat, top: nat)
    requires d + Height(s) <= top
    ensures forall i :: 0 <= i < |Depths(s, d)| ==> Depths(s, d)[i] <= top
    ensures KraftSum(Depths(s, d), top) == Pow2(top - d)
  {
    DepthsBounded(s, d);
    match s
    case Tip(_) =>
      assert Depths(s, d)[1..] == [];
    case Fork(l, r) =>
      KraftEquality(l, d + 1, top);
      KraftEquality(r, d + 1, top);
      KraftAppend(Depths(l, d + 1), Depths(r, d + 1), top);
  }

  /** A tree with `k` leaves is at most `k - 1` deep, so 255 characters need codes of at most 254 bits. */
  lemma {:induction false} HeightBelowLeaves(s: Shape)
    ensures Height(s) < |Symbols(s)|
  {
    if s.Fork? {
      HeightBelowLeaves(s.zero);
      HeightBelowLeaves(s.one);
    }
  }
}
