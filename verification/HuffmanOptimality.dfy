/** No binary tree over the same leaves has a smaller weighted path length than greedy merging. */
module HuffmanOptimality {
  import opened HuffmanTree

  // ---------- greedy merging of weights ----------

  ghost predicate IsLeast(x: nat, m: multiset<nat>) {
    x in m && forall y :: y in m ==> x <= y
  }

  lemma LeastExists(m: multiset<nat>)
    requires |m| > 0
    ensures exists x :: IsLeast(x, m)
  {
    var x :| x in m;
    var rest := m - multiset{x};
    if |rest| > 0 {
      LeastExists(rest);
      var y :| IsLeast(y, rest);
      assert forall z :: z in m ==> z == x || z in rest;
      assert IsLeast(if x <= y then x else y, m);
    } else {
      assert m == multiset{x} + rest;
      assert IsLeast(x, m);
    }
  }

  ghost function Least(m: multiset<nat>): (x: nat)
    requires |m| > 0
    ensures IsLeast(x, m)
  {
    LeastExists(m);
    var x :| IsLeast(x, m);
    x
  }

  /** The weights after the two least ones have been replaced by their sum. */
  ghost function Merged(m: multiset<nat>, x: nat, y: nat): multiset<nat> {
    m - multiset{x} - multiset{y} + multiset{x + y}
  }

  /** The total of all sums formed when the two least weights are merged until one is left. */
  ghost function HuffmanCost(m: multiset<nat>): nat
    decreases |m|
  {
    if |m| <= 1 then 0
    else
      var x := Least(m);
      var y := Least(m - multiset{x});
      assert m == m - multiset{x} - multiset{y} + multiset{x} + multiset{y};
      x + y + HuffmanCost(Merged(m, x, y))
  }

  /** The weights alone fix the cost: it does not matter which of several least weights is taken. */
  lemma HuffmanCostStep(m: multiset<nat>, x: nat, y: nat)
    requires IsLeast(x, m) && IsLeast(y, m - multiset{x})
    ensures |m| >= 2
    ensures HuffmanCost(m) == x + y + HuffmanCost(Merged(m, x, y))
  {
    assert m == m - multiset{x} - multiset{y} + multiset{x} + multiset{y};
    assert Least(m) == x;
    assert Least(m - multiset{x}) == y;
  }

  // ---------- swapping two weights ----------

  function Swap(w: seq<nat>, i: nat, j: nat): (r: seq<nat>)
    requires i < |w| && j < |w|
    ensures |r| == |w|
  {
    w[i := w[j]][j := w[i]]
  }

  lemma DotUpdate(w: seq<nat>, d: seq<nat>, i: nat, x: nat)
    requires |w| == |d| && i < |w|
    ensures Dot(w[i := x], d) == Dot(w, d) + Times(x, d[i]) - Times(w[i], d[i])
  {
    if i == 0 {
      assert w[i := x][1..] == w[1..];
    } else {
      assert w[i := x][1..] == w[1..][i - 1 := x];
      DotUpdate(w[1..], d[1..], i - 1, x);
    }
  }

  /** Moving the smaller weight to the deeper leaf does not raise the cost. */
  lemma SwapLowersCost(w: seq<nat>, d: seq<nat>, i: nat, j: nat)
    requires |w| == |d| && i < |w| && j < |w|
    requires w[j] <= w[i] && d[j] <= d[i]
    ensures Dot(Swap(w, i, j), d) <= Dot(w, d)
    ensures multiset(Swap(w, i, j)) == multiset(w)
  {
    DotUpdate(w, d, i, w[j]);
    DotUpdate(w[i := w[j]], d, j, w[i]);
    if i == j {
      assert Swap(w, i, j) == w;
    } else {
      Rearrangement(w[i], w[j], d[i], d[j]);
    }
  }

  lemma Rearrangement(a: nat, b: nat, p: nat, q: nat)
    requires b <= a && q <= p
    ensures Times(b, p) + Times(a, q) <= Times(a, p) + Times(b, q)
  {
    if q < p {
      Rearrangement(a, b, p - 1, q);
    }
  }

  // ---------- the deepest pair of siblings ----------

  /** The list `r` with its neighbours `i` and `i + 1` replaced by `x`. */
  function Fuse(r: seq<nat>, i: nat, x: nat): (f: seq<nat>)
    requires i + 1 < |r|
    ensures |f| == |r| - 1
  {
    r[..i] + [x] + r[i + 2..]
  }

  /** `e` is `d` with two neighbours of depth `top` fused one level up. */
  ghost predicate Fuses(d: seq<nat>, i: nat, top: nat, e: seq<nat>) {
    i + 1 < |d| && d[i] == d[i + 1] == top >= 1 && e == Fuse(d, i, top - 1)
  }

  lemma FusesLeft(d: seq<nat>, i: nat, top: nat, e: seq<nat>, b: seq<nat>)
    requires Fuses(d, i, top, e)
    ensures Fuses(d + b, i, top, e + b)
  {
    assert Fuse(d, i, top - 1) + b == Fuse(d + b, i, top - 1);
  }

  lemma FusesRight(a: seq<nat>, d: seq<nat>, i: nat, top: nat, e: seq<nat>)
    requires Fuses(d, i, top, e)
    ensures Fuses(a + d, |a| + i, top, a + e)
  {
    assert a + Fuse(d, i, top - 1) == Fuse(a + d, |a| + i, top - 1);
  }

  lemma FusesTips(d: nat)
    ensures Fuses([d + 1] + [d + 1], 0, d + 1, [d])
  {
    assert Fuse([d + 1, d + 1], 0, d) == [d];
  }

  /** Some two siblings lie at the greatest depth; fusing them gives a smaller tree. */
  lemma {:induction false} DeepestPair(s: Shape, d: nat) returns (i: nat, smaller: Shape)
    requires s.Fork?
    ensures Fuses(Depths(s, d), i, d + Height(s), Depths(smaller, d))
    decreases s
  {
    var a, b := Depths(s.zero, d + 1), Depths(s.one, d + 1);
    if Height(s.zero) >= Height(s.one) && s.zero.Fork? {
      var small;
      i, small := DeepestPair(s.zero, d + 1);
      smaller := Fork(small, s.one);
      FusesLeft(a, i, d + Height(s), Depths(small, d + 1), b);
    } else if s.one.Fork? {
      var k, small := DeepestPair(s.one, d + 1);
      i, smaller := |a| + k, Fork(s.zero, small);
      FusesRight(a, b, k, d + Height(s), Depths(small, d + 1));
    } else {
      i, smaller := 0, Tip(0);
      FusesTips(d);
    }
  }

  lemma DotAround(a: seq<nat>, x: seq<nat>, b: seq<nat>, p: seq<nat>, y: seq<nat>, q: seq<nat>)
    requires |a| == |p| && |x| == |y| && |b| == |q|
    ensures Dot(a + x + b, p + y + q) == Dot(a, p) + Dot(x, y) + Dot(b, q)
  {
    DotAppend(a + x, b, p + y, q);
    DotAppend(a, x, p, y);
  }

  lemma DotPair(x: nat, y: nat, p: nat)
    requires p >= 1
    ensures Dot([x, y], [p, p]) == Dot([x + y], [p - 1]) + x + y
  {
    assert [x, y][1..] == [y] && [p, p][1..] == [p];
    assert [y][1..] == [] && [p][1..] == [] && [x + y][1..] == [] && [p - 1][1..] == [];
    assert Dot([y], [p]) == Times(y, p);
    TimesAdds(x, y, p - 1);
  }

  /** Fusing two leaves of equal depth lowers the cost by exactly the fused weight. */
  lemma FuseCost(w: seq<nat>, d: seq<nat>, i: nat, top: nat, e: seq<nat>)
    requires |w| == |d| && Fuses(d, i, top, e)
    ensures Dot(w, d) == Dot(Fuse(w, i, w[i] + w[i + 1]), e) + w[i] + w[i + 1]
  {
    var x, y := w[i], w[i + 1];
    assert w == w[..i] + [x, y] + w[i + 2..];
    assert d == d[..i] + [top, top] + d[i + 2..];
    DotAround(w[..i], [x, y], w[i + 2..], d[..i], [top, top], d[i + 2..]);
    DotAround(w[..i], [x + y], w[i + 2..], d[..i], [top - 1], d[i + 2..]);
    DotPair(x, y, top);
  }

  // ---------- the theorem ----------

  /** What is left after removing `w[i]` is exactly what lies at the other positions. */
  lemma OtherPosition(w: seq<nat>, i: nat, y: nat) returns (k: nat)
    requires i < |w| && y in multiset(w) - multiset{w[i]}
    ensures k < |w| && k != i && w[k] == y
  {
    assert w == w[..i] + [w[i]] + w[i + 1..];
    if y in w[..i] {
      k :| 0 <= k < i && w[..i][k] == y;
    } else {
      assert y in w[i + 1..];
      var j :| 0 <= j < |w| - i - 1 && w[i + 1..][j] == y;
      k := i + 1 + j;
    }
  }

  lemma OtherRemains(w: seq<nat>, i: nat, k: nat)
    requires i < |w| && k < |w| && k != i
    ensures w[k] in multiset(w) - multiset{w[i]}
  {
    assert w == w[..i] + [w[i]] + w[i + 1..];
    if k < i {
      assert w[..i][k] in w[..i];
    } else {
      assert w[i + 1..][k - i - 1] in w[i + 1..];
    }
  }

  /** The least weight can be moved to a deepest leaf without raising the cost. */
  lemma LeastToDeepest(w: seq<nat>, d: seq<nat>, i: nat) returns (v: seq<nat>)
    requires |w| == |d| && i < |w|
    requires forall k :: 0 <= k < |d| ==> d[k] <= d[i]
    ensures |v| == |w| && multiset(v) == multiset(w) && Dot(v, d) <= Dot(w, d)
    ensures IsLeast(v[i], multiset(v))
  {
    assert w[i] in multiset(w);
    LeastExists(multiset(w));
    var x :| IsLeast(x, multiset(w));
    var j :| 0 <= j < |w| && w[j] == x;
    v := Swap(w, i, j);
    SwapLowersCost(w, d, i, j);
  }

  lemma NextLeastPosition(w: seq<nat>, i: nat) returns (k: nat)
    requires i + 1 < |w|
    ensures k < |w| && k != i && IsLeast(w[k], multiset(w) - multiset{w[i]})
  {
    var rest := multiset(w) - multiset{w[i]};
    OtherRemains(w, i, i + 1);
    LeastExists(rest);
    var y :| IsLeast(y, rest);
    k := OtherPosition(w, i, y);
  }

  /** The next least weight can join it at the neighbouring leaf. */
  lemma NextLeastToDeepest(w: seq<nat>, d: seq<nat>, i: nat) returns (v: seq<nat>)
    requires |w| == |d| && i + 1 < |w|
    requires forall k :: 0 <= k < |d| ==> d[k] <= d[i + 1]
    requires IsLeast(w[i], multiset(w))
    ensures |v| == |w| && multiset(v) == multiset(w) && Dot(v, d) <= Dot(w, d)
    ensures IsLeast(v[i], multiset(v)) && IsLeast(v[i + 1], multiset(v) - multiset{v[i]})
  {
    var k := NextLeastPosition(w, i);
    OtherRemains(w, i, i + 1);
    v := Swap(w, i + 1, k);
    SwapLowersCost(w, d, i + 1, k);
  }

  lemma FuseMerges(w: seq<nat>, i: nat)
    requires i + 1 < |w|
    ensures multiset(Fuse(w, i, w[i] + w[i + 1])) == Merged(multiset(w), w[i], w[i + 1])
  {
    var x, y := w[i], w[i + 1];
    assert w == w[..i] + [x, y] + w[i + 2..];
    assert multiset(w) == multiset(w[..i]) + multiset{x} + multiset{y} + multiset(w[i + 2..]);
  }

  ghost predicate FusesDeepest(d: seq<nat>, i: nat, e: seq<nat>) {
    && i < |d| && Fuses(d, i, d[i], e)
    && forall k :: 0 <= k < |d| ==> d[k] <= d[i]
  }

  lemma SmallerTree(s: Shape) returns (i: nat, smaller: Shape)
    requires s.Fork?
    ensures FusesDeepest(Depths(s, 0), i, Depths(smaller, 0))
  {
    i, smaller := DeepestPair(s, 0);
    DepthsBounded(s, 0);
  }

  lemma TwoLeastToDeepest(w: seq<nat>, d: seq<nat>, i: nat, e: seq<nat>) returns (v: seq<nat>)
    requires |w| == |d| && FusesDeepest(d, i, e)
    ensures |v| == |w| && multiset(v) == multiset(w) && Dot(v, d) <= Dot(w, d)
    ensures IsLeast(v[i], multiset(v)) && IsLeast(v[i + 1], multiset(v) - multiset{v[i]})
  {
    var u := LeastToDeepest(w, d, i);
    v := NextLeastToDeepest(u, d, i);
  }

  lemma FuseIsGreedy(v: seq<nat>, i: nat, fused: seq<nat>)
    requires i + 1 < |v| && fused == Fuse(v, i, v[i] + v[i + 1])
    requires IsLeast(v[i], multiset(v)) && IsLeast(v[i + 1], multiset(v) - multiset{v[i]})
    ensures HuffmanCost(multiset(v)) == v[i] + v[i + 1] + HuffmanCost(multiset(fused))
  {
    HuffmanCostStep(multiset(v), v[i], v[i + 1]);
    FuseMerges(v, i);
  }

  lemma FuseBoth(v: seq<nat>, d: seq<nat>, i: nat, e: seq<nat>) returns (fused: seq<nat>)
    requires |v| == |d| && FusesDeepest(d, i, e)
    requires IsLeast(v[i], multiset(v)) && IsLeast(v[i + 1], multiset(v) - multiset{v[i]})
    ensures |fused| == |e| == |v| - 1
    ensures HuffmanCost(multiset(v)) - HuffmanCost(multiset(fused)) == Dot(v, d) - Dot(fused, e)
  {
    FuseCost(v, d, i, d[i], e);
    fused := Fuse(v, i, v[i] + v[i + 1]);
    FuseIsGreedy(v, i, fused);
  }

  /** One greedy merge saves at least as much of the path length as it adds to the greedy cost. */
  lemma GreedyStep(w: seq<nat>, d: seq<nat>, i: nat, e: seq<nat>) returns (fused: seq<nat>)
    requires |w| == |d| && FusesDeepest(d, i, e)
    ensures |fused| == |e| == |w| - 1
    ensures HuffmanCost(multiset(w)) - HuffmanCost(multiset(fused)) <= Dot(w, d) - Dot(fused, e)
  {
    var v := TwoLeastToDeepest(w, d, i, e);
    fused := FuseBoth(v, d, i, e);
  }

  /** Weights `w` on the leaves of any tree, in any order, cost at least what greedy merging does. */
  lemma {:induction false} OptimalLowerBound(s: Shape, w: seq<nat>)
    requires |w| == |Symbols(s)|
    ensures HuffmanCost(multiset(w)) <= Dot(w, Depths(s, 0))
    decreases |w|
  {
    if s.Fork? {
      var i, smaller := SmallerTree(s);
      var fused := GreedyStep(w, Depths(s, 0), i, Depths(smaller, 0));
      OptimalLowerBound(smaller, fused);
    } else {
      assert |multiset(w)| == 1;
    }
  }

  /** A tree whose merged nodes sum to the greedy cost of its own leaf frequencies. */
  ghost predicate IsHuffman(t: Tree) {
    WellFormed(t) && MergedSum(t) == HuffmanCost(multiset(Frequencies(t)))
  }

  /** Such a tree is optimal among all trees carrying the same frequencies in any arrangement. */
  lemma HuffmanIsOptimal(t: Tree, other: Shape, w: seq<nat>)
    requires IsHuffman(t)
    requires |w| == |Symbols(other)| && multiset(w) == multiset(Frequencies(t))
    ensures Dot(Frequencies(t), Depths(ShapeOf(t), 0)) <= Dot(w, Depths(other, 0))
  {
    MergedSumIsPathLength(t, 0);
    OptimalLowerBound(other, w);
  }
}
