/** Counting characters and building the tree for them. */
module HuffmanBuild {
  import opened Common
  import opened HuffmanTree
  import opened HuffmanOptimality
  import opened HuffmanQueue

  const BYTES := 256

  // ---------- calculateFrequencies ----------

  /** The characters of `s`. */
  ghost function Characters(s: seq<byte>): set<byte> {
    set c | c in s
  }

  /** The frequency table of `text`. */
  function TableOf(text: seq<byte>): (table: seq<nat>)
    ensures |table| == BYTES && forall c: byte :: table[c] == multiset(text)[c]
  {
    seq(BYTES, i requires 0 <= i < BYTES => multiset(text)[i])
  }

  lemma OneMoreCharacter(done: seq<byte>, c: byte)
    ensures |Characters(done + [c])| == |Characters(done)| + if TableOf(done)[c] == 0 then 1 else 0
    ensures TableOf(done + [c]) == TableOf(done)[c := TableOf(done)[c] + 1]
  {
    var before := Characters(done);
    assert Characters(done + [c]) == before + {c};
    assert c in before ==> before + {c} == before;
    assert c in done <==> c in multiset(done);
    assert multiset(done + [c]) == multiset(done) + multiset{c};
  }

  /** The first loop. */
  method Clear(freqTable: array<nat>)
    requires freqTable.Length == BYTES
    modifies freqTable
    ensures freqTable[..] == TableOf([])
  {
    for i := 0 to BYTES
      invariant forall c :: 0 <= c < i ==> freqTable[c] == 0
    {
      freqTable[i] := 0;
    }
  }

  /** One pass of the second loop; `done` is what has been counted before. */
  method CountCharacter(freqTable: array<nat>, c: byte, ghost done: seq<byte>) returns (isNew: bool)
    requires freqTable[..] == TableOf(done)
    modifies freqTable
    ensures freqTable[..] == TableOf(done + [c])
    ensures |Characters(done + [c])| == |Characters(done)| + if isNew then 1 else 0
  {
    OneMoreCharacter(done, c);
    assert TableOf(done)[c] == freqTable[c];
    isNew := freqTable[c] == 0;
    freqTable[c] := freqTable[c] + 1;
  }

  /** Counts the characters of the C string `content`, and adds the number of different ones to `unique`. */
  method CalculateFrequencies(content: seq<byte>, freqTable: array<nat>, unique: nat) returns (uniqueChars: nat)
    requires 0 in content && freqTable.Length == BYTES
    modifies freqTable
    ensures freqTable[..] == TableOf(UntilNul(content, 0))
    ensures uniqueChars == unique + |Characters(UntilNul(content, 0))|
  {
    ghost var text := UntilNul(content, 0);
    Clear(freqTable);
    uniqueChars := unique;
    var k := 0;
    while content[k] != 0
      invariant 0 <= k <= |text|
      invariant freqTable[..] == TableOf(text[..k])
      invariant uniqueChars == unique + |Characters(text[..k])|
      decreases |text| - k
    {
      var c := content[k];
      assert text[..k] + [c] == text[..k + 1];
      var isNew := CountCharacter(freqTable, c, text[..k]);
      if isNew {
        uniqueChars := uniqueChars + 1;
      }
      k := k + 1;
    }
    assert text[..k] == text;
  }

  // ---------- the forest of the first loop ----------

  /** One leaf for every character below `n` with positive frequency, in increasing order. */
  function LeavesBelow(table: seq<nat>, n: nat): seq<Tree>
    requires n <= |table| <= BYTES
  {
    if n == 0 then []
    else LeavesBelow(table, n - 1) + if table[n - 1] > 0 then [Leaf(n - 1, table[n - 1])] else []
  }

  /** Every leaf carries the table's frequency for its character. */
  ghost predicate Labelled(t: Tree, table: seq<nat>)
    requires |table| == BYTES
  {
    forall i :: 0 <= i < |Symbols(ShapeOf(t))| ==> Frequencies(t)[i] == table[Symbols(ShapeOf(t))[i]]
  }

  ghost predicate GoodForest(q: seq<Tree>, table: seq<nat>)
    requires |table| == BYTES
  {
    forall t :: t in q ==> WellFormed(t) && LighterLeft(t) && Labelled(t, table)
  }

  ghost predicate OncePerCharacter(symbols: multiset<byte>, table: seq<nat>, n: nat)
    requires n <= |table|
  {
    forall c: byte :: symbols[c] == if c < n && table[c] > 0 then 1 else 0
  }

  lemma TotalOne(f: Tree -> Tally, t: Tree)
    ensures Total(f, [t]) == f(t)
  {
    assert Total(f, [t][1..]) == NOTHING;
    PlusNothing(f(t));
  }

  lemma TallyOne(t: Tree)
    ensures Conserved([t]) == TallyTree(t)
  {
    TotalOne(TallyTree, t);
  }

  lemma AddLeafTally(q: seq<Tree>, c: byte, f: nat)
    ensures Conserved(q + [Leaf(c, f)]) == Plus(Conserved(q), Tally(multiset{c}, multiset{f}, multiset{f}, 0))
  {
    TotalAppend(TallyTree, q, [Leaf(c, f)]);
    TallyOne(Leaf(c, f));
  }

  /** The tally of unmerged leaves for the characters below `n`. */
  ghost predicate LeafTally(t: Tally, table: seq<nat>, n: nat)
    requires n <= |table|
  {
    OncePerCharacter(t.symbols, table, n) && t.roots == t.leaves && t.cost == 0
  }

  lemma AddCharacter(q: seq<Tree>, c: byte, table: seq<nat>)
    requires |table| == BYTES && LeafTally(Conserved(q), table, c) && table[c] > 0
    ensures LeafTally(Conserved(q + [Leaf(c, table[c])]), table, c + 1)
  {
    AddLeafTally(q, c, table[c]);
  }

  lemma SkipCharacter(t: Tally, c: byte, table: seq<nat>)
    requires |table| == BYTES && LeafTally(t, table, c) && table[c] == 0
    ensures LeafTally(t, table, c + 1)
  {
  }

  lemma {:induction false} LeavesBelowTally(table: seq<nat>, n: nat)
    requires n <= |table| == BYTES
    ensures LeafTally(Conserved(LeavesBelow(table, n)), table, n)
  {
    if n > 0 {
      var q := LeavesBelow(table, n - 1);
      LeavesBelowTally(table, n - 1);
      if table[n - 1] > 0 {
        AddCharacter(q, n - 1, table);
        assert LeavesBelow(table, n) == q + [Leaf(n - 1, table[n - 1])];
      } else {
        assert LeavesBelow(table, n) == q;
        SkipCharacter(Conserved(q), n - 1, table);
      }
    } else {
      assert Conserved(LeavesBelow(table, 0)) == NOTHING;
    }
  }

  lemma {:induction false} LeavesBelowGood(table: seq<nat>, n: nat)
    requires n <= |table| == BYTES
    ensures GoodForest(LeavesBelow(table, n), table)
  {
    if n > 0 {
      LeavesBelowGood(table, n - 1);
    }
  }

  lemma {:induction false} LeavesBelowEmpty(table: seq<nat>, n: nat)
    requires n <= |table| <= BYTES
    ensures LeavesBelow(table, n) == [] <==> forall c :: 0 <= c < n ==> table[c] == 0
  {
    if n > 0 {
      LeavesBelowEmpty(table, n - 1);
    }
  }

  // ---------- the merge loop ----------

  lemma LabelledMerge(l: Tree, r: Tree, m: Tree, table: seq<nat>)
    requires |table| == BYTES && Merges(l, r, m)
    requires WellFormed(l) && WellFormed(r) && Labelled(l, table) && Labelled(r, table)
    requires LighterLeft(l) && LighterLeft(r) && l.frequency <= r.frequency
    ensures WellFormed(m) && LighterLeft(m) && Labelled(m, table)
  {
  }

  /** What the merge loop keeps: the leaves, and the cost that greedy merging will end with. */
  ghost predicate MergeInvariant(q: seq<Tree>, table: seq<nat>)
    requires |table| == BYTES
  {
    var t := Conserved(q);
    && |q| >= 1 && Sorted(q) && GoodForest(q, table)
    && OncePerCharacter(t.symbols, table, BYTES)
    && t.cost + HuffmanCost(t.roots) == HuffmanCost(t.leaves)
  }

  lemma MergeInvariantStarts(q: seq<Tree>, table: seq<nat>)
    requires |table| == BYTES && |q| >= 1 && Sorted(q)
    requires multiset(q) == multiset(LeavesBelow(table, BYTES))
    ensures MergeInvariant(q, table)
  {
    LeavesBelowTally(table, BYTES);
    LeavesBelowGood(table, BYTES);
    TotalPermutes(TallyTree, q, LeavesBelow(table, BYTES));
    forall t | t in q
      ensures WellFormed(t) && LighterLeft(t) && Labelled(t, table)
    {
      assert t in multiset(q);
    }
  }

  /** The queue before any round: empty for an empty table, and otherwise ready to be merged. */
  ghost predicate ReadyToMerge(q: seq<Tree>, table: seq<nat>)
    requires |table| == BYTES
  {
    && (|q| == 0 <==> forall c: byte :: table[c] == 0)
    && (|q| >= 1 ==> MergeInvariant(q, table))
  }

  lemma StartOfMerging(q: seq<Tree>, table: seq<nat>)
    requires |table| == BYTES && Sorted(q)
    requires multiset(q) == multiset(LeavesBelow(table, BYTES))
    ensures ReadyToMerge(q, table)
  {
    LeavesBelowEmpty(table, BYTES);
    assert |multiset(LeavesBelow(table, BYTES))| == |multiset(q)|;
    if |q| >= 1 {
      MergeInvariantStarts(q, table);
    }
  }

  lemma MergeInvariantKept(q: seq<Tree>, p: seq<Tree>, m: Tree, table: seq<nat>)
    requires |table| == BYTES && MergeInvariant(q, table) && |q| >= 2
    requires Merges(q[0], q[1], m) && Sorted(p) && multiset(p) == multiset(q[2..]) + multiset{m}
    ensures |p| == |q| - 1 && MergeInvariant(p, table)
  {
    assert |multiset(p)| == |p|;
    MergeConserves(q, p, m);
    GoodForestKept(q, p, m, table);
  }

  lemma GoodForestKept(q: seq<Tree>, p: seq<Tree>, m: Tree, table: seq<nat>)
    requires |table| == BYTES && GoodForest(q, table) && |q| >= 2 && Sorted(q)
    requires Merges(q[0], q[1], m) && multiset(p) == multiset(q[2..]) + multiset{m}
    ensures GoodForest(p, table)
  {
    LabelledMerge(q[0], q[1], m, table);
    AddedElements(m, q[2..], p);
  }

  lemma DistinctFromCounts<T>(s: seq<T>)
    requires forall x :: multiset(s)[x] <= 1
    ensures Distinct(s)
  {
    forall i, j | 0 <= i < j < |s|
      ensures s[i] != s[j]
    {
      assert s == s[..j] + [s[j]] + s[j + 1..];
      assert multiset(s) == multiset(s[..j]) + multiset{s[j]} + multiset(s[j + 1..]);
      assert multiset(s)[s[j]] <= 1;
      assert s[..j][i] in multiset(s[..j]);
    }
  }

  /** Each character of positive frequency once, and no other. */
  ghost predicate OncePerPositive(symbols: seq<byte>, table: seq<nat>)
    requires |table| == BYTES
  {
    Distinct(symbols) && forall c: byte :: c in symbols <==> table[c] > 0
  }

  lemma SupportOnce(symbols: seq<byte>, table: seq<nat>)
    requires |table| == BYTES && OncePerCharacter(multiset(symbols), table, BYTES)
    ensures OncePerPositive(symbols, table)
  {
    DistinctFromCounts(symbols);
    forall c: byte
      ensures c in symbols <==> table[c] > 0
    {
      assert c in symbols <==> c in multiset(symbols);
    }
  }

  /**
   * `t` is an optimal tree whose leaves are exactly the characters of positive frequency, once each, and in
   * which the lighter of two merged trees is the left child.
   */
  ghost predicate IsHuffmanTreeOf(t: Tree, table: seq<nat>)
    requires |table| == BYTES
  {
    var symbols := Symbols(ShapeOf(t));
    && IsHuffman(t) && LighterLeft(t) && Labelled(t, table) && OncePerPositive(symbols, table)
  }

  lemma MergeInvariantEnds(root: Tree, table: seq<nat>)
    requires |table| == BYTES && MergeInvariant([root], table)
    ensures IsHuffmanTreeOf(root, table)
  {
    TallyOne(root);
    TallySymbols(root);
    TallyLeaves(root);
    TallyCost(root);
    SupportOnce(Symbols(ShapeOf(root)), table);
    assert |multiset{root.frequency}| == 1;
    assert root in [root];
  }

  /** No tree for an empty table, and otherwise an optimal one. */
  ghost predicate BuildResult(root: Option<Tree>, table: seq<nat>)
    requires |table| == BYTES
  {
    && (root == None <==> forall c: byte :: table[c] == 0)
    && (root.Some? ==> IsHuffmanTreeOf(root.value, table))
  }

  lemma EndOfMerging(q: seq<Tree>, table: seq<nat>)
    requires |table| == BYTES && |q| <= 1 && ReadyToMerge(q, table)
    ensures BuildResult(if |q| == 0 then None else Some(q[0]), table)
  {
    if |q| == 1 {
      assert q == [q[0]];
      MergeInvariantEnds(q[0], table);
    }
  }

  /** One round of the merge loop. */
  method MergeTwoLeast(pq: PriorityQueue, ghost table: seq<nat>)
    requires |table| == BYTES && pq.Valid() && pq.size > 1 && ReadyToMerge(pq.Contents(), table)
    modifies pq, pq.nodes
    ensures pq.Valid() && (pq.nodes == old(pq.nodes) || fresh(pq.nodes))
    ensures pq.size == old(pq.size) - 1 && ReadyToMerge(pq.Contents(), table)
  {
    ghost var q := pq.Contents();
    var left := pq.Dequeue();
    var right := pq.Dequeue();
    var merged := Node(left.value.frequency + right.value.frequency, left.value, right.value);
    assert pq.Contents() == q[2..];
    pq.Enqueue(merged);
    MergeInvariantKept(q, pq.Contents(), merged, table);
  }

  lemma LeavesStep(table: seq<nat>, i: nat)
    requires i < |table| <= BYTES
    ensures multiset(LeavesBelow(table, i + 1))
         == multiset(LeavesBelow(table, i)) + if table[i] > 0 then multiset{Leaf(i, table[i])} else multiset{}
  {
  }

  /** The first loop: a leaf for every character that occurs. */
  method EnqueueLeaves(pq: PriorityQueue, table: seq<nat>)
    requires pq.Valid() && pq.Contents() == [] && |table| == BYTES
    modifies pq, pq.nodes
    ensures pq.Valid() && (pq.nodes == old(pq.nodes) || fresh(pq.nodes))
    ensures Sorted(pq.Contents()) && multiset(pq.Contents()) == multiset(LeavesBelow(table, BYTES))
  {
    ghost var nodes := pq.nodes;
    for i := 0 to BYTES
      invariant pq.Valid() && (pq.nodes == nodes || fresh(pq.nodes))
      invariant Sorted(pq.Contents()) && multiset(pq.Contents()) == multiset(LeavesBelow(table, i))
    {
      LeavesStep(table, i);
      if table[i] > 0 {
        pq.Enqueue(Leaf(i, table[i]));
      }
    }
  }

  /** Whatever order the sort gives to equal frequencies, the result is an optimal tree. */
  method BuildHuffmanTree(freqTable: seq<nat>) returns (root: Option<Tree>)
    requires |freqTable| == BYTES
    ensures BuildResult(root, freqTable)
  {
    var pq := new PriorityQueue(BYTES);
    EnqueueLeaves(pq, freqTable);
    StartOfMerging(pq.Contents(), freqTable);
    while pq.size > 1
      invariant pq.Valid() && fresh(pq) && fresh(pq.nodes)
      invariant ReadyToMerge(pq.Contents(), freqTable)
      decreases pq.size
    {
      MergeTwoLeast(pq, freqTable);
    }
    EndOfMerging(pq.Contents(), freqTable);
    root := pq.Dequeue();
  }
}
