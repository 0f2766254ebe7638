/** The server's doubly linked client list, as pointers and as the plain sequence it stands for. */
module ClientList {
  import opened Common

  /** A client record; `name` and `email` are C strings, compared by their characters. */
  datatype ClientData = ClientData(id: int32, name: string, email: string)

  // ---------- the operations on the sequence ----------

  predicate HasId(list: seq<ClientData>, id: int32) {
    exists i :: 0 <= i < |list| && list[i].id == id
  }

  /** Append, unless the id is taken. */
  function Added(list: seq<ClientData>, d: ClientData): seq<ClientData> {
    if HasId(list, d.id) then list else list + [d]
  }

  /** Where the first record with that name stands; the length of the list if there is none. */
  function IndexOf(list: seq<ClientData>, name: string): (i: nat)
    ensures i <= |list| && (i < |list| ==> list[i].name == name)
    ensures forall k :: 0 <= k < i ==> list[k].name != name
  {
    if list == [] || list[0].name == name then 0 else 1 + IndexOf(list[1..], name)
  }

  /** Remove the first record with that name. */
  function Deleted(list: seq<ClientData>, name: string): seq<ClientData> {
    var i := IndexOf(list, name);
    if i < |list| then list[..i] + list[i + 1..] else list
  }

  function Found(list: seq<ClientData>, name: string): Option<ClientData> {
    var i := IndexOf(list, name);
    if i < |list| then Some(list[i]) else None
  }

  lemma Absent(list: seq<ClientData>, name: string)
    ensures IndexOf(list, name) == |list| <==> forall k :: 0 <= k < |list| ==> list[k].name != name
  {
    var i := IndexOf(list, name);
    assert i < |list| ==> list[i].name == name;
  }

  /** After an add the id is in the list; a free id puts the record at the end, a taken one changes nothing. */
  lemma AddPuts(list: seq<ClientData>, d: ClientData)
    ensures exists i :: 0 <= i < |Added(list, d)| && Added(list, d)[i].id == d.id
    ensures (forall i :: 0 <= i < |list| ==> list[i].id != d.id) ==>
      list < Added(list, d) && |Added(list, d)| == |list| + 1 && Added(list, d)[|list|] == d
    ensures (exists i :: 0 <= i < |list| && list[i].id == d.id) ==> Added(list, d) == list
  {
    if HasId(list, d.id) {
      var i :| 0 <= i < |list| && list[i].id == d.id;
      assert Added(list, d)[i].id == d.id;
    } else {
      assert Added(list, d)[|list|] == d;
    }
  }

  /** What a search finds is the first record with the name; it finds nothing only if there is none. */
  lemma FoundIsFirst(list: seq<ClientData>, name: string)
    ensures match Found(list, name)
      case Some(d) => exists i :: 0 <= i < |list| && list[i] == d && d.name == name
                                  && forall k :: 0 <= k < i ==> list[k].name != name
      case None => forall k :: 0 <= k < |list| ==> list[k].name != name
  {
    var i := IndexOf(list, name);
    if i < |list| {
      assert list[i].name == name;
    }
  }

  /** A delete takes out exactly the first record with the name. */
  lemma DeleteTakesFirst(list: seq<ClientData>, name: string, i: nat)
    requires i < |list| && list[i].name == name && forall k :: 0 <= k < i ==> list[k].name != name
    ensures |Deleted(list, name)| == |list| - 1
    ensures forall k :: 0 <= k < |list| - 1 ==> Deleted(list, name)[k] == if k < i then list[k] else list[k + 1]
  {
    IndexIs(list, name, i);
  }

  /** A search right after an add finds the record, if its id and its name were new. */
  lemma SearchFindsAdded(list: seq<ClientData>, d: ClientData)
    requires forall i :: 0 <= i < |list| ==> list[i].id != d.id && list[i].name != d.name
    ensures Found(Added(list, d), d.name) == Some(d)
  {
    IndexIs(Added(list, d), d.name, |list|);
  }

  /** Deleting the name just added takes that very client out again exactly when nobody else has the name. */
  lemma DeleteUndoesAdd(list: seq<ClientData>, d: ClientData)
    ensures Deleted(Added(list, d), d.name) == list <==> forall k :: 0 <= k < |list| ==> list[k].name != d.name
  {
    var more := Added(list, d);
    Absent(list, d.name);
    if HasId(list, d.id) {
      assert |Deleted(list, d.name)| == |list| <==> IndexOf(list, d.name) == |list|;
    } else if IndexOf(list, d.name) == |list| {
      IndexIs(more, d.name, |list|);
      assert Deleted(more, d.name) == list;
    } else {
      var i := IndexOf(list, d.name);
      IndexIs(more, d.name, i);
      assert Deleted(more, d.name)[|list| - 1] == d != list[|list| - 1];
    }
  }

  datatype Op = Add(data: ClientData) | Delete(name: string) | Search(name: string)

  function Apply(list: seq<ClientData>, op: Op): seq<ClientData> {
    match op
    case Add(d) => Added(list, d)
    case Delete(n) => Deleted(list, n)
    case Search(_) => list
  }

  function Answer(list: seq<ClientData>, op: Op): seq<Option<ClientData>> {
    if op.Search? then [Found(list, op.name)] else []
  }

  // ---------- the nodes ----------

  class DNode {
    const data: ClientData
    var prev: DNode?
    var next: DNode?

    /** `createDNode`. */
    constructor (data: ClientData)
      ensures this.data == data && prev == null && next == null
    {
      this.data := data;
      prev, next := null, null;
    }
  }

  /** The records of some nodes. */
  ghost function Records(nodes: seq<DNode>): (s: seq<ClientData>)
    ensures |s| == |nodes| && forall i :: 0 <= i < |nodes| ==> s[i] == nodes[i].data
  {
    seq(|nodes|, i requires 0 <= i < |nodes| => nodes[i].data)
  }

  /** Taking out the first node with a name takes out the first record with it. */
  lemma FirstRemoved(nodes: seq<DNode>, at: nat, name: string, fewer: seq<DNode>)
    requires at < |nodes| && nodes[at].data.name == name
    requires forall k :: 0 <= k < at ==> Records(nodes)[k].name != name
    requires fewer == nodes[..at] + nodes[at + 1..]
    ensures Records(fewer) == Deleted(Records(nodes), name)
    ensures forall n :: n in fewer ==> n in nodes
  {
    IndexIs(Records(nodes), name, at);
    assert Records(fewer) == Records(nodes)[..at] + Records(nodes)[at + 1..];
  }

  lemma NoneRemoved(list: seq<ClientData>, name: string)
    requires forall k :: 0 <= k < |list| ==> list[k].name != name
    ensures Deleted(list, name) == list
  {
    IndexIs(list, name, |list|);
  }

  class List {
    var head: DNode?
    ghost var nodes: seq<DNode>

    /** The node at position `i`, and null on both sides of the list. */
    ghost function At(i: int): DNode?
      reads this
    {
      if 0 <= i < |nodes| then nodes[i] else null
    }

    /** `next` and `prev` of node `i` mirror the order. */
    ghost predicate Linked(i: nat)
      requires i < |nodes|
      reads this, nodes
    {
      nodes[i].next == At(i + 1) && nodes[i].prev == At(i - 1)
    }

    /** `head` leads to the nodes in order, without a cycle. */
    ghost predicate Valid()
      reads this, nodes
    {
      && Distinct(nodes)
      && head == At(0)
      && forall i :: 0 <= i < |nodes| ==> Linked(i)
    }

    /** The sequence that the list stands for. */
    ghost function Contents(): (s: seq<ClientData>)
      reads this
      ensures |s| == |nodes| && forall i :: 0 <= i < |nodes| ==> s[i] == nodes[i].data
    {
      Records(nodes)
    }

    constructor ()
      ensures Valid() && Contents() == []
    {
      head, nodes := null, [];
    }

    /** `add_data_dlink`. */
    method Add(data: ClientData)
      requires Valid()
      modifies this, nodes
      ensures Valid() && Contents() == Added(old(Contents()), data)
      ensures nodes == old(nodes) || (nodes != [] && fresh(nodes[|nodes| - 1]) && nodes[..|nodes| - 1] == old(nodes))
    {
      var newNode := new DNode(data);
      if head == null {
        head := newNode;
        nodes := [newNode];
        return;
      }
      var current := head;
      ghost var at := 0;
      while current.next != null
        invariant 0 <= at < |nodes| && current == nodes[at] && Valid() && nodes == old(nodes) && head == old(head)
        invariant Contents() == old(Contents()) && newNode !in nodes && newNode.next == null && newNode.data == data
        invariant forall k :: 0 <= k < at ==> Contents()[k].id != data.id
        decreases |nodes| - at
      {
        assert Linked(at);
        if current.data.id == data.id {
          assert Contents()[at].id == data.id;
          return;
        }
        current := current.next;
        at := at + 1;
      }
      assert Linked(at);
      if current.data.id == data.id {
        assert Contents()[at].id == data.id;
        return;
      }
      assert !HasId(Contents(), data.id);
      assert at + 1 == |nodes|;
      label before:
      current.next := newNode;
      newNode.prev := current;
      nodes := nodes + [newNode];
      forall k | 0 <= k < |nodes|
        ensures Linked(k)
      {
        if k <= at {
          assert old@before(Linked(k));
        }
      }
    }

    /** `delete_data`, with its three cases: first, last, and in between. */
    method Delete(name: string)
      requires Valid()
      modifies this, nodes
      ensures Valid() && Contents() == Deleted(old(Contents()), name)
      ensures forall n :: n in nodes ==> n in old(nodes)
    {
      var current := head;
      ghost var at := 0;
      while current != null
        invariant 0 <= at <= |nodes| && current == At(at)
        invariant Valid() && nodes == old(nodes) && Contents() == old(Contents())
        invariant forall k :: 0 <= k < at ==> Contents()[k].name != name
        decreases |nodes| - at
      {
        assert Linked(at);
        if current.data.name == name {
          FirstRemoved(nodes, at, name, nodes[..at] + nodes[at + 1..]);
          Unlink(current, at);
          return;
        }
        current := current.next;
        at := at + 1;
      }
      NoneRemoved(Contents(), name);
    }

    /** The pointer changes that take `current`, at position `at`, out of the list. */
    method Unlink(current: DNode, ghost at: nat)
      requires Valid() && at < |nodes| && nodes[at] == current
      modifies this, nodes
      ensures Valid() && nodes == old(nodes[..at] + nodes[at + 1..])
    {
      ghost var was := nodes;
      assert Linked(at);
      assert at + 1 < |nodes| ==> Linked(at + 1);
      label before:
      if current == head {
        head := current.next;
        if head != null {
          head.prev := null;
        }
      } else if current.next == null {
        current.prev.next := null;
      } else {
        current.prev.next := current.next;
        current.next.prev := current.prev;
      }
      nodes := nodes[..at] + nodes[at + 1..];
      forall k | 0 <= k < |nodes|
        ensures Linked(k)
      {
        var j := if k < at then k else k + 1;
        assert nodes[k] == was[j];
        assert old@before(Linked(j));
      }
    }

    /** `search_data`: the record that is sent back, if any. */
    method Search(name: string) returns (found: Option<ClientData>)
      requires Valid()
      ensures found == Found(Contents(), name)
    {
      var current := head;
      ghost var at := 0;
      while current != null
        invariant 0 <= at <= |nodes| && current == At(at)
        invariant forall k :: 0 <= k < at ==> Contents()[k].name != name
        decreases |nodes| - at
      {
        assert Linked(at);
        if current.data.name == name {
          IndexIs(Contents(), name, at);
          return Some(current.data);
        }
        current := current.next;
        at := at + 1;
      }
      IndexIs(Contents(), name, |nodes|);
      found := None;
    }

    /** Whichever operation it is; a search has an answer. */
    method Perform(op: Op) returns (answer: seq<Option<ClientData>>)
      requires Valid()
      modifies this, nodes
      ensures Valid() && Contents() == Apply(old(Contents()), op) && answer == Answer(old(Contents()), op)
      ensures forall d :: d in nodes ==> d in old(nodes) || fresh(d)
    {
      answer := [];
      match op {
        case Add(data) =>
          Add(data);
        case Delete(name) =>
          Delete(name);
        case Search(name) =>
          var found := Search(name);
          answer := [found];
      }
    }
  }

  /** The first position is the one before which the name does not occur. */
  lemma {:induction false} IndexIs(list: seq<ClientData>, name: string, at: nat)
    requires at <= |list| && (at < |list| ==> list[at].name == name)
    requires forall k :: 0 <= k < at ==> list[k].name != name
    ensures IndexOf(list, name) == at
  {
    if at > 0 {
      IndexIs(list[1..], name, at - 1);
    }
  }

  // ---------- runs ----------

  /** What the searches of a run send back. */
  function Answers(list: seq<ClientData>, ops: seq<Op>): seq<Option<ClientData>>
    decreases |ops|
  {
    if ops == [] then [] else Answer(list, ops[0]) + Answers(Apply(list, ops[0]), ops[1..])
  }

  ghost predicate DistinctIds(list: seq<ClientData>) {
    forall i, j :: 0 <= i < j < |list| ==> list[i].id != list[j].id
  }

  function Run(list: seq<ClientData>, ops: seq<Op>): seq<ClientData>
    decreases |ops|
  {
    if ops == [] then list else Run(Apply(list, ops[0]), ops[1..])
  }

  lemma ApplyKeepsIds(list: seq<ClientData>, op: Op)
    requires DistinctIds(list)
    ensures DistinctIds(Apply(list, op))
  {
  }

  /** No run ever holds two clients with one id. */
  lemma {:induction false} RunKeepsIds(list: seq<ClientData>, ops: seq<Op>)
    requires DistinctIds(list)
    ensures DistinctIds(Run(list, ops))
    decreases |ops|
  {
    if ops != [] {
      ApplyKeepsIds(list, ops[0]);
      RunKeepsIds(Apply(list, ops[0]), ops[1..]);
    }
  }

  lemma OneMoreOp(list: seq<ClientData>, ops: seq<Op>, n: nat, rest: seq<Op>)
    requires n < |ops| && rest == ops[n + 1..]
    ensures Run(list, ops[n..]) == Run(Apply(list, ops[n]), rest)
    ensures Answers(list, ops[n..]) == Answer(list, ops[n]) + Answers(Apply(list, ops[n]), rest)
  {
    assert ops[n..][0] == ops[n] && ops[n..][1..] == rest;
  }

  /** Runs the operations one after the other on a new list. */
  method RunList(ops: seq<Op>) returns (list: List, answers: seq<Option<ClientData>>)
    ensures fresh(list) && list.Valid() && list.Contents() == Run([], ops) && DistinctIds(list.Contents())
    ensures answers == Answers([], ops)
  {
    list := new List();
    answers := [];
    assert list.nodes == [] && ops[0..] == ops;
    for n := 0 to |ops|
      invariant fresh(list) && fresh(list.nodes) && list.Valid()
      invariant Run(list.Contents(), ops[n..]) == Run([], ops)
      invariant answers + Answers(list.Contents(), ops[n..]) == Answers([], ops)
    {
      ghost var before, was := list.Contents(), list.nodes;
      var answer := list.Perform(ops[n]);
      forall i | 0 <= i < |list.nodes|
        ensures fresh(list.nodes[i])
      {
        assert list.nodes[i] in list.nodes;
        assert list.nodes[i] in was ==> fresh(list.nodes[i]);
      }
      OneMoreOp(before, ops, n, ops[n + 1..]);
      ConcatAssociates(answers, answer, Answers(list.Contents(), ops[n + 1..]));
      answers := answers + answer;
    }
    assert ops[|ops|..] == [] && answers + [] == answers;
    RunKeepsIds([], ops);
  }
}
