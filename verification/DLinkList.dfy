/**
 The intrusive doubly linked lists of include/tools.h. A list is valid when its forward links,
 backward links, head, tail and length all describe one duplicate-free sequence of nodes; every
 operation keeps it valid and is proved to act as an operation on that sequence.
 */
module DLinkList {
  import opened Sequences

  class Node<T> {
    var data: T
    var prev: Node?<T>
    var next: Node?<T>

    constructor (data: T)
      ensures this.data == data
    {
      this.data, prev, next := data, null, null;
    }
  }

  // -------- sequences of nodes

  // The elements of s whose mark is clear, in order.
  ghost function Unmarked<N>(s: seq<N>, marks: seq<bool>): seq<N>
    requires |s| == |marks|
  {
    if s == [] then []
    else (if marks[0] then [] else [s[0]]) + Unmarked(s[1..], marks[1..])
  }

  // A traversal of `all` has visited `seen`, kept `kept` of it, and still has `rest` ahead.
  ghost predicate Halfway<N>(all: seq<N>, marks: seq<bool>, i: nat, seen: seq<N>, kept: seq<N>, rest: seq<N>) {
    && |marks| == |all| && i <= |all| && |seen| == i && all == seen + rest
    && kept + Unmarked(rest, marks[i..]) == Unmarked(all, marks)
  }

  lemma HalfwayStep<N>(all: seq<N>, marks: seq<bool>, i: nat, seen: seq<N>, kept: seq<N>, rest: seq<N>)
    requires Halfway(all, marks, i, seen, kept, rest) && rest != []
    ensures i < |marks| && rest == [rest[0]] + rest[1..]
    ensures Halfway(all, marks, i + 1, seen + [rest[0]], kept + (if marks[i] then [] else [rest[0]]), rest[1..])
  {
    assert marks[i..][1..] == marks[i + 1..];
    var first, tail := if marks[i] then [] else [rest[0]], Unmarked(rest[1..], marks[i + 1..]);
    hide Unmarked;
    Regroup(kept, first, tail);
    Regroup(seen, [rest[0]], rest[1..]);
  }

  lemma HalfwayEnds<N>(all: seq<N>, marks: seq<bool>, i: nat, seen: seq<N>, kept: seq<N>)
    requires Halfway(all, marks, i, seen, kept, [])
    ensures seen == all && kept == Unmarked(all, marks)
  {}

  lemma TailOfSum<N>(all: seq<N>, before: seq<N>, rest: seq<N>)
    requires all == before + rest && rest != []
    ensures |before| < |all| && all[|before|..] == [rest[0]] + rest[1..]
  {}

  ghost function First<T>(s: seq<Node<T>>): Node?<T> {
    if s == [] then null else s[0]
  }

  ghost function FirstWith<T>(contents: seq<T>, data: T): (k: nat)
    ensures k <= |contents|
    ensures forall j :: 0 <= j < k ==> contents[j] != data
    ensures k < |contents| ==> contents[k] == data
  {
    if contents == [] then 0
    else if contents[0] == data then 0
    else 1 + FirstWith(contents[1..], data)
  }

  class List<T(==)> {
    var head: Node?<T>
    var tail: Node?<T>
    var length: nat
    ghost var nodes: seq<Node<T>>

    ghost predicate Valid()
      reads this, nodes
    {
      && length == |nodes|
      && (nodes == [] ==> head == null && tail == null)
      && (nodes != [] ==> head == nodes[0] && tail == nodes[|nodes| - 1]
                          && nodes[0].prev == null && nodes[|nodes| - 1].next == null)
      && (forall i {:trigger nodes[i].prev} :: 1 <= i < |nodes| ==> nodes[i].prev == nodes[i - 1])
      && (forall i {:trigger nodes[i].next} :: 0 <= i < |nodes| - 1 ==> nodes[i].next == nodes[i + 1])
      && NoDuplicates(nodes)
    }

    // The data the list holds, in order.
    ghost function Contents(): (s: seq<T>)
      reads this, nodes
      ensures |s| == |nodes|
    {
      seq(|nodes|, i requires 0 <= i < |nodes| reads this, nodes => nodes[i].data)
    }

    constructor ()
      ensures Valid() && nodes == []
    {
      head, tail, length, nodes := null, null, 0, [];
    }

    // dlinkAdd
    method Add(data: T, m: Node<T>)
      requires Valid() && m !in nodes
      modifies this, m, nodes
      ensures Valid() && nodes == [m] + old(nodes)
      ensures m.data == data && forall n :: n in old(nodes) ==> n.data == old(n.data)
    {
      m.data := data;
      m.prev := null;
      m.next := head;
      if head != null {
        head.prev := m;
      } else if tail == null {
        tail := m;
      }
      head := m;
      length := length + 1;
      nodes := [m] + nodes;
    }

    // dlinkAddBefore
    method AddBefore(b: Node<T>, data: T, m: Node<T>, ghost k: nat)
      requires Valid() && m !in nodes && k < |nodes| && b == nodes[k]
      modifies this, m, nodes
      ensures Valid() && nodes == old(nodes)[..k] + [m] + old(nodes)[k..]
      ensures m.data == data && forall n :: n in old(nodes) ==> n.data == old(n.data)
    {
      if b == head {
        assert k == 0;
        Add(data, m);
        assert old(nodes)[..0] + [m] + old(nodes)[0..] == [m] + old(nodes);
      } else {
        NoDuplicatesInsert(nodes, k, m);
        ghost var was := nodes;
        m.data := data;
        b.prev.next := m;
        m.prev := b.prev;
        b.prev := m;
        m.next := b;
        length := length + 1;
        nodes := was[..k] + [m] + was[k..];
        hide NoDuplicates;
      }
    }

    // dlinkAddTail
    method AddTail(data: T, m: Node<T>)
      requires Valid() && m !in nodes
      modifies this, m, nodes
      ensures Valid() && nodes == old(nodes) + [m]
      ensures m.data == data && forall n :: n in old(nodes) ==> n.data == old(n.data)
    {
      m.data := data;
      m.next := null;
      m.prev := tail;
      if tail != null {
        tail.next := m;
      } else if head == null {
        head := m;
      }
      tail := m;
      length := length + 1;
      nodes := nodes + [m];
    }

    // dlinkDelete; `k` is the node's position
    method Delete(m: Node<T>, ghost k: nat)
      requires Valid() && k < |nodes| && m == nodes[k]
      modifies this, nodes
      ensures Valid() && nodes == old(nodes)[..k] + old(nodes)[k + 1..]
      ensures m.next == null && m.prev == null
      ensures forall n :: n in old(nodes) ==> n.data == old(n.data)
    {
      ghost var was := nodes;
      NoDuplicatesRemove(nodes, k);
      if m.next != null {
        assert k < |was| - 1 && m.next == was[k + 1];
        m.next.prev := m.prev;
      } else {
        assert k == |was| - 1;
        tail := m.prev;
      }
      if m.prev != null {
        assert k > 0 && m.prev == was[k - 1];
        m.prev.next := m.next;
      } else {
        assert k == 0;
        head := m.next;
      }
      m.next, m.prev := null, null;
      length := length - 1;
      nodes := was[..k] + was[k + 1..];
      assert forall i :: 0 <= i < k ==> nodes[i] == was[i];
      assert forall i :: k <= i < |nodes| ==> nodes[i] == was[i + 1];
    }

    // dlinkFind
    method Find(data: T) returns (ptr: Node?<T>)
      requires Valid()
      ensures var k := FirstWith(Contents(), data);
              ptr == if k < |nodes| then nodes[k] else null
    {
      ptr := head;
      ghost var i := 0;
      while ptr != null
        invariant 0 <= i <= |nodes| && ptr == if i < |nodes| then nodes[i] else null
        invariant forall j :: 0 <= j < i ==> Contents()[j] != data
        decreases |nodes| - i
      {
        if ptr.data == data {
          assert Contents()[i] == data;
          return;
        }
        ptr := ptr.next;
        i := i + 1;
      }
    }

    // dlinkFindDelete
    method FindDelete(data: T) returns (m: Node?<T>)
      requires Valid()
      modifies this, nodes
      ensures Valid()
      ensures var k := FirstWith(old(Contents()), data);
              if k < |old(nodes)|
              then m == old(nodes)[k] && nodes == old(nodes)[..k] + old(nodes)[k + 1..]
              else m == null && nodes == old(nodes)
      ensures forall n :: n in old(nodes) ==> n.data == old(n.data)
    {
      m := head;
      ghost var i := 0;
      while m != null
        invariant 0 <= i <= |nodes| && m == if i < |nodes| then nodes[i] else null
        invariant forall j :: 0 <= j < i ==> Contents()[j] != data
        decreases |nodes| - i
      {
        if m.data == data {
          assert Contents()[i] == data;
          Delete(m, i);
          return;
        }
        m := m.next;
        i := i + 1;
      }
    }

    // dlinkMoveList: everything in `from` goes in front of this list
    method MoveFrom(from: List<T>)
      requires Valid() && from.Valid() && from != this
      requires forall i, j :: 0 <= i < |nodes| && 0 <= j < |from.nodes| ==> nodes[i] != from.nodes[j]
      modifies this, nodes, from, from.nodes
      ensures Valid() && from.Valid()
      ensures nodes == old(from.nodes) + old(nodes) && from.nodes == []
      ensures forall n :: n in nodes ==> n.data == old(n.data)
    {
      if from.head == null {
        return;
      }
      if head == null {
        head := from.head;
        tail := from.tail;
        from.head, from.tail := null, null;
        length := from.length;
        from.length := 0;
        nodes, from.nodes := from.nodes, [];
        return;
      }
      Splice(from);
    }

    // The third case of dlinkMoveList: neither list is empty.
    method Splice(from: List<T>)
      requires Valid() && from.Valid() && from != this && nodes != [] && from.nodes != []
      requires forall i, j :: 0 <= i < |nodes| && 0 <= j < |from.nodes| ==> nodes[i] != from.nodes[j]
      modifies this, nodes, from, from.nodes
      ensures Valid() && from.Valid()
      ensures nodes == old(from.nodes) + old(nodes) && from.nodes == []
      ensures forall n :: n in nodes ==> n.data == old(n.data)
    {
      ghost var f, t := from.nodes, nodes;
      NoDuplicatesConcat(f, t);
      assert f[|f| - 1] == from.tail && t[0] == head && f[0] == from.head;
      from.tail.next := head;
      from.head.prev := head.prev;
      head.prev := from.tail;
      head := from.head;
      from.head, from.tail := null, null;
      length := length + from.length;
      from.length := 0;
      nodes, from.nodes := f + t, [];
      assert forall i :: 0 <= i < |f| ==> nodes[i] == f[i];
      assert forall i :: |f| <= i < |nodes| ==> nodes[i] == t[i - |f|];
    }

    // One turn of DLINK_FOREACH_SAFE, whose body removes the current node or leaves the list alone:
    // `kept` are the nodes already passed, `rest` those after the current one.
    method SafeTurn(pos: Node<T>, n: Node?<T>, remove: bool,
                    ghost kept: seq<Node<T>>, ghost rest: seq<Node<T>>, ghost scope: set<Node<T>>)
      returns (pos': Node?<T>, n': Node?<T>)
      requires Valid() && nodes == kept + ([pos] + rest) && n == First(rest)
      requires forall x :: x in nodes ==> x in scope
      modifies this, scope
      ensures Valid() && nodes == (kept + if remove then [] else [pos]) + rest
      ensures pos' == n && n' == if rest == [] then null else First(rest[1..])
      ensures forall x :: x in nodes ==> x in scope
      ensures forall x :: x in scope ==> x.data == old(x.data)
    {
      hide Valid;
      VisitBody(pos, remove, kept, rest, scope);
      pos' := n;
      if rest != [] {
        ghost var before := kept + if remove then [] else [pos];
        TailOfSum(nodes, before, rest);
        LinkedTo(|before|, rest[0], rest[1..]);
      }
      n' := if pos' != null then pos'.next else null;
    }

    method VisitBody(pos: Node<T>, remove: bool, ghost kept: seq<Node<T>>, ghost rest: seq<Node<T>>,
                     ghost scope: set<Node<T>>)
      requires Valid() && nodes == kept + ([pos] + rest)
      requires forall x :: x in nodes ==> x in scope
      modifies this, scope
      ensures Valid() && nodes == (kept + if remove then [] else [pos]) + rest
      ensures forall x :: x in nodes ==> x in scope
      ensures forall x :: x in scope ==> x.data == old(x.data)
    {
      if remove {
        assert nodes[|kept|] == pos;
        Delete(pos, |kept|);
        assert nodes == kept + rest;
      }
    }

    lemma LinkedTo(k: nat, pos: Node<T>, rest: seq<Node<T>>)
      requires Valid() && k < |nodes| && nodes[k..] == [pos] + rest
      ensures pos.next == First(rest)
    {
      assert nodes[k] == nodes[k..][0];
      if rest != [] {
        assert nodes[k + 1] == nodes[k..][1];
      } else {
        assert |nodes[k..]| == 1;
      }
    }

    lemma HeadIsFirst()
      requires Valid()
      ensures head == First(nodes) && (nodes != [] ==> nodes[0].next == First(nodes[1..]))
    {
      if nodes != [] {
        LinkedTo(0, nodes[0], nodes[1..]);
      }
    }

    // DLINK_FOREACH_SAFE at a node, with the node after it saved.
    ghost predicate SafeWalk(all: seq<Node<T>>, marks: seq<bool>, i: nat, seen: seq<Node<T>>, kept: seq<Node<T>>,
                             rest: seq<Node<T>>, pos: Node?<T>, n: Node?<T>)
      reads this, nodes
    {
      && Valid() && nodes == kept + rest && Halfway(all, marks, i, seen, kept, rest)
      && pos == First(rest) && (rest != [] ==> n == First(rest[1..]))
    }

    lemma WalkTurn(all: seq<Node<T>>, marks: seq<bool>, i: nat, seen: seq<Node<T>>, kept: seq<Node<T>>,
                   rest: seq<Node<T>>, pos: Node<T>, n: Node?<T>)
      requires SafeWalk(all, marks, i, seen, kept, rest, pos, n)
      ensures Valid() && rest != [] && rest[0] == pos && nodes == kept + ([pos] + rest[1..]) && n == First(rest[1..])
      ensures i < |marks|
      ensures Halfway(all, marks, i + 1, seen + [pos], kept + (if marks[i] then [] else [pos]), rest[1..])
    {
      hide Valid, Halfway;
      assert rest != [] && rest[0] == pos;
      HalfwayStep(all, marks, i, seen, kept, rest);
    }

    lemma WalkNext(all: seq<Node<T>>, marks: seq<bool>, i: nat, seen: seq<Node<T>>, kept: seq<Node<T>>,
                   rest: seq<Node<T>>, pos: Node?<T>, n: Node?<T>)
      requires Valid() && nodes == kept + rest && Halfway(all, marks, i, seen, kept, rest)
      requires pos == First(rest) && n == if rest == [] then null else First(rest[1..])
      ensures SafeWalk(all, marks, i, seen, kept, rest, pos, n)
    {}

    lemma WalkStarts(marks: seq<bool>, pos: Node?<T>, n: Node?<T>)
      requires Valid() && |marks| == |nodes| && pos == head && n == if pos != null then pos.next else null
      ensures SafeWalk(nodes, marks, 0, [], [], nodes, pos, n)
    {
      HeadIsFirst();
      hide Valid;
      assert [] + nodes == nodes && marks[0..] == marks;
      assert [] + Unmarked(nodes, marks) == Unmarked(nodes, marks);
      hide Unmarked;
    }

    lemma WalkEnds(all: seq<Node<T>>, marks: seq<bool>, i: nat, seen: seq<Node<T>>, kept: seq<Node<T>>,
                   rest: seq<Node<T>>, pos: Node?<T>, n: Node?<T>)
      requires SafeWalk(all, marks, i, seen, kept, rest, pos, n) && pos == null && |marks| == |all|
      ensures Valid() && seen == all && nodes == Unmarked(all, marks)
    {
      hide Valid;
      assert rest == [];
      HalfwayEnds(all, marks, i, seen, kept);
      hide Unmarked, Halfway;
      assert kept + [] == kept;
    }

    // DLINK_FOREACH_SAFE around a body that removes at most the current node. `doomed` says of
    // each node whether the body removes it, so the contract holds for every such body.
    method ForeachSafe(doomed: seq<bool>) returns (ghost visited: seq<Node<T>>)
      requires Valid() && |doomed| == |nodes|
      modifies this, nodes
      ensures Valid() && visited == old(nodes) && nodes == Unmarked(old(nodes), doomed)
      ensures forall n :: n in old(nodes) ==> n.data == old(n.data)
    {
      hide *;
      ghost var all, rest, kept: seq<Node<T>> := nodes, nodes, [];
      ghost var scope := set x | x in nodes;
      visited := [];
      var pos := head;
      var n := if pos != null then pos.next else null;
      var i := 0;
      WalkStarts(doomed, pos, n);
      while pos != null
        invariant 0 <= i && SafeWalk(all, doomed, i, visited, kept, rest, pos, n)
        invariant forall x :: x in nodes ==> x in scope
        invariant forall x :: x in scope ==> x.data == old(x.data)
        decreases |rest|
      {
        WalkTurn(all, doomed, i, visited, kept, rest, pos, n);
        ghost var cur: Node<T> := pos;
        pos, n := SafeTurn(pos, n, doomed[i], kept, rest[1..], scope);
        visited := visited + [cur];
        kept := kept + if doomed[i] then [] else [cur];
        rest := rest[1..];
        i := i + 1;
        WalkNext(all, doomed, i, visited, kept, rest, pos, n);
      }
      WalkEnds(all, doomed, i, visited, kept, rest, pos, n);
    }

    // DLINK_FOREACH around the same bodies: removing a node clears its link, so the walk ends at
    // the first node removed.
    method Foreach(doomed: seq<bool>) returns (ghost visited: seq<Node<T>>)
      requires Valid() && |doomed| == |nodes|
      modifies this, nodes
      ensures Valid()
      ensures var k := FirstWith(doomed, true);
              if k < |doomed| then visited == old(nodes)[..k + 1] && nodes == old(nodes)[..k] + old(nodes)[k + 1..]
              else visited == old(nodes) && nodes == old(nodes)
    {
      var pos := head;
      var i := 0;
      visited := [];
      while pos != null
        invariant 0 <= i <= |nodes| && pos == if i < |nodes| then nodes[i] else null
        invariant Valid() && nodes == old(nodes) && visited == nodes[..i]
        invariant forall j :: 0 <= j < i ==> !doomed[j]
        decreases |nodes| - i
      {
        visited := visited + [pos];
        if doomed[i] {
          assert FirstWith(doomed, true) == i;
          Delete(pos, i);
          pos := pos.next;
          return;
        }
        pos := pos.next;
        i := i + 1;
      }
    }
  }
}
