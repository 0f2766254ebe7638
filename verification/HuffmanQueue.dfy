/** The sorted priority queue and the merge loop that builds a Huffman tree with it. */
module HuffmanQueue {
  import opened Common
  import opened HuffmanTree
  import opened HuffmanOptimality

  predicate Sorted(q: seq<Tree>) {
    forall i, j :: 0 <= i < j < |q| ==> q[i].frequency <= q[j].frequency
  }

  // ---------- a sort to stand for `qsort` ----------

  lemma AddedElements<T>(x: T, q: seq<T>, r: seq<T>)
    requires multiset(r) == multiset(q) + multiset{x}
    ensures forall y :: y in r ==> y == x || y in q
  {
    forall y | y in r
      ensures y == x || y in q
    {
      assert y in multiset(r);
    }
  }

  lemma SortedCons(t: Tree, q: seq<Tree>)
    requires Sorted(q) && forall x :: x in q ==> t.frequency <= x.frequency
    ensures Sorted([t] + q)
  {
  }

  lemma SortedInsert(t: Tree, q: seq<Tree>, r: seq<Tree>)
    requires |q| > 0 && Sorted(q) && q[0].frequency <= t.frequency
    requires Sorted(r) && multiset(r) == multiset(q[1..]) + multiset{t}
    ensures Sorted([q[0]] + r) && multiset([q[0]] + r) == multiset(q) + multiset{t}
  {
    AddedElements(t, q[1..], r);
    SortedCons(q[0], r);
    assert q == [q[0]] + q[1..];
  }

  function Insert(t: Tree, q: seq<Tree>): (r: seq<Tree>)
    requires Sorted(q)
    ensures Sorted(r) && multiset(r) == multiset(q) + multiset{t}
  {
    if q == [] then [t]
    else if t.frequency <= q[0].frequency then
      SortedCons(t, q);
      [t] + q
    else
      var r := Insert(t, q[1..]);
      SortedInsert(t, q, r);
      [q[0]] + r
  }

  function SortedCopy(q: seq<Tree>): (r: seq<Tree>)
    ensures Sorted(r) && multiset(r) == multiset(q)
  {
    if q == [] then [] else
      assert q == [q[0]] + q[1..];
      Insert(q[0], SortedCopy(q[1..]))
  }

  /** `qsort` is not stable: all that callers may use is that the result is a sorted permutation. */
  method QSort(nodes: array<Tree>, n: nat)
    requires n <= nodes.Length
    modifies nodes
    ensures Sorted(nodes[..n]) && multiset(nodes[..n]) == old(multiset(nodes[..n]))
    ensures nodes[n..] == old(nodes[n..])
  {
    var sorted := SortedCopy(nodes[..n]);
    assert |multiset(sorted)| == |multiset(nodes[..n])|;
    forall i | 0 <= i < n {
      nodes[i] := sorted[i];
    }
    assert nodes[..n] == sorted;
  }

  // ---------- the queue ----------

  class PriorityQueue {
    var nodes: array<Tree>
    var size: nat
    var capacity: nat

    ghost predicate Valid()
      reads this
    {
      0 < capacity == nodes.Length && size <= capacity
    }

    ghost function Contents(): seq<Tree>
      requires Valid()
      reads this, nodes
    {
      nodes[..size]
    }

    constructor (capacity: nat)
      requires capacity > 0
      ensures Valid() && fresh(nodes) && Contents() == [] && this.capacity == capacity
    {
      nodes := new Tree[capacity];
      size := 0;
      this.capacity := capacity;
    }

    method Enqueue(node: Tree)
      requires Valid()
      modifies this, nodes
      ensures Valid() && (nodes == old(nodes) || fresh(nodes))
      ensures size == old(size) + 1
      ensures capacity == if old(size) == old(capacity) then 2 * old(capacity) else old(capacity)
      ensures Sorted(Contents()) && multiset(Contents()) == old(multiset(Contents())) + multiset{node}
    {
      ghost var before := Contents();
      if size == capacity {
        capacity := capacity * 2;
        var larger := new Tree[capacity];
        forall i | 0 <= i < size {
          larger[i] := nodes[i];
        }
        nodes := larger;
        assert Contents() == before;
      }
      nodes[size] := node;
      size := size + 1;
      assert Contents() == before + [node];
      QSort(nodes, size);
    }

    method Dequeue() returns (node: Option<Tree>)
      requires Valid()
      modifies this, nodes
      ensures Valid() && nodes == old(nodes) && capacity == old(capacity)
      ensures old(size) == 0 ==> node == None && size == 0
      ensures old(size) > 0 ==> node == Some(old(Contents())[0]) && Contents() == old(Contents())[1..]
    {
      if size == 0 {
        return None;
      }
      node := Some(nodes[0]);
      size := size - 1;
      forall i | 0 <= i < size {
        nodes[i] := nodes[i + 1];
      }
    }
  }

  // ---------- what the merge loop conserves ----------

  /** The characters, leaf frequencies, root frequencies and merge cost of a whole forest. */
  datatype Tally = Tally(symbols: multiset<byte>, leaves: multiset<nat>, roots: multiset<nat>, cost: nat)

  const NOTHING := Tally(multiset{}, multiset{}, multiset{}, 0)

  function Plus(a: Tally, b: Tally): Tally {
    Tally(a.symbols + b.symbols, a.leaves + b.leaves, a.roots + b.roots, a.cost + b.cost)
  }

  /** The tally of a tree with root frequency `f`, in terms of the tallies of its children. */
  function MergeTally(f: nat, a: Tally, b: Tally): Tally {
    Tally(a.symbols + b.symbols, a.leaves + b.leaves, multiset{f}, f + a.cost + b.cost)
  }

  function TallyTree(t: Tree): Tally {
    match t
    case Leaf(c, f) => Tally(multiset{c}, multiset{f}, multiset{f}, 0)
    case Node(f, l, r) => MergeTally(f, TallyTree(l), TallyTree(r))
  }

  lemma {:induction false} TallySymbols(t: Tree)
    ensures TallyTree(t).symbols == multiset(Symbols(ShapeOf(t)))
  {
    if t.Node? {
      TallySymbols(t.left);
      TallySymbols(t.right);
      assert Symbols(ShapeOf(t)) == Symbols(ShapeOf(t.left)) + Symbols(ShapeOf(t.right));
    }
  }

  lemma {:induction false} TallyLeaves(t: Tree)
    ensures TallyTree(t).leaves == multiset(Frequencies(t))
  {
    if t.Node? {
      TallyLeaves(t.left);
      TallyLeaves(t.right);
      assert Frequencies(t) == Frequencies(t.left) + Frequencies(t.right);
    }
  }

  lemma {:induction false} TallyCost(t: Tree)
    ensures TallyTree(t).cost == MergedSum(t) && TallyTree(t).roots == multiset{t.frequency}
  {
    if t.Node? {
      TallyCost(t.left);
      TallyCost(t.right);
    }
  }

  function Total(f: Tree -> Tally, q: seq<Tree>): Tally {
    if q == [] then NOTHING else Plus(f(q[0]), Total(f, q[1..]))
  }

  lemma PlusAssociates(a: Tally, b: Tally, c: Tally)
    ensures Plus(Plus(a, b), c) == Plus(a, Plus(b, c))
  {
  }

  lemma PlusCommutes(a: Tally, b: Tally)
    ensures Plus(a, b) == Plus(b, a)
  {
  }

  lemma PlusNothing(a: Tally)
    ensures Plus(NOTHING, a) == a
  {
  }

  lemma {:induction false} TotalAppend(f: Tree -> Tally, a: seq<Tree>, b: seq<Tree>)
    ensures Total(f, a + b) == Plus(Total(f, a), Total(f, b))
  {
    if a == [] {
      assert a + b == b;
      PlusNothing(Total(f, b));
    } else {
      assert (a + b)[1..] == a[1..] + b;
      TotalAppend(f, a[1..], b);
      PlusAssociates(f(a[0]), Total(f, a[1..]), Total(f, b));
    }
  }

  lemma TotalRotates(f: Tree -> Tally, a: seq<Tree>, x: Tree, b: seq<Tree>)
    ensures Total(f, a + [x] + b) == Total(f, [x] + (a + b)) == Plus(f(x), Total(f, a + b))
  {
    assert ([x] + (a + b))[1..] == a + b;
    assert a + [x] + b == a + ([x] + b) && ([x] + b)[1..] == b;
    TotalAppend(f, a, [x] + b);
    TotalAppend(f, a, b);
    PlusAssociates(Total(f, a), f(x), Total(f, b));
    PlusCommutes(Total(f, a), f(x));
    PlusAssociates(f(x), Total(f, a), Total(f, b));
  }

  /** The order of the forest, and so the tie-breaking of the sort, does not matter. */
  lemma {:induction false} TotalPermutes(f: Tree -> Tally, a: seq<Tree>, b: seq<Tree>)
    requires multiset(a) == multiset(b)
    ensures Total(f, a) == Total(f, b)
  {
    if a == [] {
      assert |multiset(a)| == |multiset(b)|;
    } else {
      var j := PermutationTail(a, b);
      TotalPermutes(f, a[1..], b[..j] + b[j + 1..]);
      assert b == b[..j] + [b[j]] + b[j + 1..];
      TotalRotates(f, b[..j], b[j], b[j + 1..]);
    }
  }

  ghost function Conserved(q: seq<Tree>): Tally {
    Total(TallyTree, q)
  }

  lemma {:induction false} RootsAreFrequencies(q: seq<Tree>)
    ensures forall f :: f in Conserved(q).roots ==> exists i :: 0 <= i < |q| && q[i].frequency == f
  {
    if q != [] {
      RootsAreFrequencies(q[1..]);
      forall f | f in Conserved(q).roots
        ensures exists i :: 0 <= i < |q| && q[i].frequency == f
      {
        if f == q[0].frequency {
        } else {
          assert f in Conserved(q[1..]).roots;
          var i :| 0 <= i < |q[1..]| && q[1..][i].frequency == f;
          assert q[i + 1].frequency == f;
        }
      }
    }
  }

  lemma HeadIsLeast(q: seq<Tree>)
    requires |q| >= 1 && Sorted(q)
    ensures IsLeast(q[0].frequency, Conserved(q).roots)
    ensures Conserved(q).roots - multiset{q[0].frequency} == Conserved(q[1..]).roots
  {
    RootsAreFrequencies(q);
  }

  /** `m` is the node that the merge loop makes of `l` and `r`. */
  predicate Merges(l: Tree, r: Tree, m: Tree) {
    m.Node? && m.frequency == l.frequency + r.frequency && m.left == l && m.right == r
  }

  /** One round of the merge loop, whatever is tallied. */
  lemma TotalMerge(f: Tree -> Tally, q: seq<Tree>, p: seq<Tree>, m: Tree)
    requires |q| >= 2 && multiset(p) == multiset(q[2..]) + multiset{m}
    ensures Total(f, p) == Plus(f(m), Total(f, q[2..]))
    ensures Total(f, q) == Plus(f(q[0]), Plus(f(q[1]), Total(f, q[2..])))
  {
    assert ([m] + q[2..])[1..] == q[2..];
    assert q[1..][1..] == q[2..];
    TotalPermutes(f, p, [m] + q[2..]);
  }

  /** `before` and `after` agree on the leaves, and on the cost still to be paid by greedy merging. */
  ghost predicate SameOutcome(before: Tally, after: Tally) {
    && after.symbols == before.symbols && after.leaves == before.leaves
    && after.cost + HuffmanCost(after.roots) == before.cost + HuffmanCost(before.roots)
  }

  lemma MergeRoots(x: nat, y: nat, w: nat, rest: multiset<nat>)
    requires w == x + y
    ensures Merged(multiset{x} + (multiset{y} + rest), x, y) == multiset{w} + rest
  {
  }

  lemma MergeLeaves(a: Tally, b: Tally, rest: Tally, w: nat)
    ensures Plus(MergeTally(w, a, b), rest).symbols == Plus(a, Plus(b, rest)).symbols
    ensures Plus(MergeTally(w, a, b), rest).leaves == Plus(a, Plus(b, rest)).leaves
  {
  }

  lemma MergeOutcome(a: Tally, b: Tally, rest: Tally, x: nat, y: nat, w: nat)
    requires a.roots == multiset{x} && b.roots == multiset{y} && w == x + y
    requires var roots := Plus(a, Plus(b, rest)).roots; IsLeast(x, roots) && IsLeast(y, roots - multiset{x})
    ensures SameOutcome(Plus(a, Plus(b, rest)), Plus(MergeTally(w, a, b), rest))
  {
    MergeLeaves(a, b, rest, w);
    MergeRoots(x, y, w, rest.roots);
    HuffmanCostStep(Plus(a, Plus(b, rest)).roots, x, y);
  }

  lemma FirstTwoAreLeast(q: seq<Tree>)
    requires |q| >= 2 && Sorted(q)
    ensures IsLeast(q[0].frequency, Conserved(q).roots)
    ensures IsLeast(q[1].frequency, Conserved(q).roots - multiset{q[0].frequency})
    ensures TallyTree(q[0]).roots == multiset{q[0].frequency} && TallyTree(q[1]).roots == multiset{q[1].frequency}
  {
    HeadIsLeast(q);
    HeadIsLeast(q[1..]);
    TallyCost(q[0]);
    TallyCost(q[1]);
  }

  /** One round of the merge loop changes neither the leaves nor the final cost. */
  lemma MergeConserves(q: seq<Tree>, p: seq<Tree>, m: Tree)
    requires |q| >= 2 && Sorted(q) && Merges(q[0], q[1], m)
    requires multiset(p) == multiset(q[2..]) + multiset{m}
    ensures SameOutcome(Conserved(q), Conserved(p))
  {
    FirstTwoAreLeast(q);
    TotalMerge(TallyTree, q, p, m);
    MergeOutcome(TallyTree(q[0]), TallyTree(q[1]), Conserved(q[2..]), q[0].frequency, q[1].frequency, m.frequency);
  }
}
