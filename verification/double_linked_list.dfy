/**
 A doubly linked list of integers with a head and a tail pointer. Appending
 links a new cell after the tail and popping unlinks the tail, both without a
 walk; every cell also points back to its predecessor, so the list can be
 walked in both directions.

 Each list carries, as ghost state, the sequence of its cells from head to tail
 and the sequence of their values; `Valid` ties the heap to them.
 */
module DoublyLinkedList {

  /** A list cell: a value, the link to the next cell (null at the tail) and the
      link back to the previous cell (null at the head). */
  class Node {
    var value: int
    var next: Node?
    var previous: Node?

    constructor (v: int)
      ensures value == v && next == null && previous == null
    {
      value := v;
      next := null;
      previous := null;
    }
  }

  /** The values of `s` in the opposite order. */
  function Reverse(s: seq<int>): (r: seq<int>)
    ensures |r| == |s|
    ensures forall k | 0 <= k < |s| :: r[k] == s[|s| - 1 - k]
  {
    if |s| == 0 then [] else Reverse(s[1..]) + [s[0]]
  }

  class List {
    var head: Node?
    var tail: Node?

    /** The values from head to tail. */
    ghost var contents: seq<int>
    /** The cells from head to tail. */
    ghost var nodes: seq<Node>

    /** `head` and `tail` are the first and last of `nodes`, both null exactly
        when there is no cell; each cell's `next` is the following cell and only
        the last cell's is null; each cell's `previous` is the preceding cell and
        only the first cell's is null; no cell occurs twice; the cells hold
        `contents`. */
    ghost predicate Valid()
      reads this, nodes
    {
      && |nodes| == |contents|
      && head == (if |nodes| == 0 then null else nodes[0])
      && tail == (if |nodes| == 0 then null else nodes[|nodes| - 1])
      && (forall i | 0 <= i < |nodes| :: nodes[i].value == contents[i])
      && (forall i | 0 <= i < |nodes| - 1 :: nodes[i].next == nodes[i + 1])
      && (forall i | 0 <= i < |nodes| :: nodes[i].next == null <==> i == |nodes| - 1)
      && (forall i | 0 < i < |nodes| :: nodes[i].previous == nodes[i - 1])
      && (forall i | 0 <= i < |nodes| :: nodes[i].previous == null <==> i == 0)
      && (forall i, j | 0 <= i < j < |nodes| :: nodes[i] != nodes[j])
    }

    /** The cell `append` links the new one to: the tail, if any. */
    ghost function LastCell(): set<object>
      reads this
    {
      if |nodes| == 0 then {} else {nodes[|nodes| - 1]}
    }

    /** A new list has neither head nor tail. */
    constructor Init()
      ensures Valid()
      ensures contents == []
      ensures head == null && tail == null
    {
      head := null;
      tail := null;
      contents := [];
      nodes := [];
    }

    /** Adds `v` after the tail without walking. An empty list (no head) gets
        the new cell as both head and tail; otherwise the old tail's `next` and
        the new cell's `previous` link the two, and the new cell becomes the
        tail. Only the old tail and the list itself change. */
    method Append(v: int)
      requires Valid()
      modifies this, LastCell()
      ensures Valid()
      ensures contents == old(contents) + [v]
      ensures nodes[..|nodes| - 1] == old(nodes)
      ensures fresh(nodes[|nodes| - 1])
      ensures old(head) != null ==> head == old(head)
    {
      var n := new Node(v);
      if head == null {
        head := n;
        tail := n;
      } else {
        ghost var last := nodes[|nodes| - 1];
        assert forall i | 0 <= i < |nodes| - 1 :: nodes[i] != last;
        tail.next := n;
        n.previous := tail;
        tail := n;
      }
      contents := contents + [v];
      nodes := nodes + [n];
    }

    /** Removes the tail cell and returns its value. The tail moves back to its
        predecessor, whose `next` is then cleared, so the list must hold at least
        two cells: with none the tail itself is null, and with one the new tail
        is null and is written through. The head and every other cell keep their
        value and links. */
    method Pop() returns (v: int)
      requires Valid()
      requires |contents| >= 2
      modifies this, nodes[|nodes| - 2]
      ensures Valid()
      ensures v == old(contents[|contents| - 1])
      ensures contents == old(contents[..|contents| - 1])
      ensures nodes == old(nodes[..|nodes| - 1])
      ensures head == old(head)
      ensures tail == old(nodes[|nodes| - 2])
    {
      v := tail.value;
      tail := tail.previous;
      tail.next := null;
      contents := contents[..|contents| - 1];
      nodes := nodes[..|nodes| - 1];
    }

    /** The values the forward display walk visits, from the head along `next`
        until the cell whose `next` is null. */
    method ForwardWalk() returns (s: seq<int>)
      requires Valid()
      ensures s == contents
    {
      s := [];
      if head == null {
        return;
      }
      var cursor := head;
      ghost var i := 0;
      while cursor.next != null
        invariant 0 <= i < |nodes| && cursor == nodes[i]
        invariant s == contents[..i]
        decreases |nodes| - i
      {
        assert contents[..i + 1] == contents[..i] + [contents[i]];
        s := s + [cursor.value];
        cursor := cursor.next;
        i := i + 1;
      }
      assert contents == contents[..i] + [contents[i]];
      s := s + [cursor.value];
    }

    /** The values the backward display walk visits, from the tail along
        `previous` until the cell whose `previous` is null: the contents
        reversed. */
    method BackwardWalk() returns (s: seq<int>)
      requires Valid()
      ensures s == Reverse(contents)
    {
      s := [];
      if tail == null {
        return;
      }
      var cursor := tail;
      ghost var i := |nodes| - 1;
      while cursor.previous != null
        invariant 0 <= i < |nodes| && cursor == nodes[i]
        invariant s == Reverse(contents[i + 1..])
        decreases i
      {
        assert contents[i..][1..] == contents[i + 1..];
        s := s + [cursor.value];
        cursor := cursor.previous;
        i := i - 1;
      }
      assert contents[0..][1..] == contents[1..];
      assert contents[0..] == contents;
      s := s + [cursor.value];
    }

    /** Walking backward from the tail visits exactly the values walking forward
        from the head visits, in the opposite order. */
    method WalkBothWays() returns (forward: seq<int>, backward: seq<int>)
      requires Valid()
      ensures |backward| == |forward| == |contents|
      ensures forall k | 0 <= k < |forward| :: backward[k] == forward[|forward| - 1 - k]
    {
      forward := ForwardWalk();
      backward := BackwardWalk();
    }

    /** Appending a value and popping at once gives the value back and restores
        the contents and the tail, on a list that already holds a cell. */
    method AppendThenPop(v: int) returns (w: int)
      requires Valid()
      requires |contents| >= 1
      modifies this, nodes[|nodes| - 1]
      ensures Valid()
      ensures w == v
      ensures contents == old(contents)
      ensures head == old(head) && tail == old(tail)
    {
      Append(v);
      w := Pop();
    }
  }

  /** The `previous` links mirror the `next` links: for any two cells of a valid
      list, the first's `next` is the second exactly when the second's
      `previous` is the first. */
  lemma PreviousMirrorsNext(l: List)
    requires l.Valid()
    ensures forall i, j | 0 <= i < |l.nodes| && 0 <= j < |l.nodes| ::
      l.nodes[i].next == l.nodes[j] <==> l.nodes[j].previous == l.nodes[i]
  {
    forall i, j | 0 <= i < |l.nodes| && 0 <= j < |l.nodes|
      ensures l.nodes[i].next == l.nodes[j] <==> l.nodes[j].previous == l.nodes[i]
    {
      if j == i + 1 {
        assert l.nodes[i].next == l.nodes[j];
        assert l.nodes[j].previous == l.nodes[i];
      } else {
        if i < |l.nodes| - 1 {
          assert l.nodes[i].next == l.nodes[i + 1] != l.nodes[j];
        }
        if 0 < j {
          assert l.nodes[j].previous == l.nodes[j - 1] != l.nodes[i];
        }
      }
    }
  }

  /** A new list holding 1, 2, 3, 4, as the demonstration builds it. */
  method DemoList() returns (list: List)
    ensures list.Valid()
    ensures list.contents == [1, 2, 3, 4]
    ensures fresh(list) && forall i | 0 <= i < |list.nodes| :: fresh(list.nodes[i])
  {
    list := new List.Init();
    list.Append(1);
    list.Append(2);
    list.Append(3);
    list.Append(4);
  }

  /** Appending 1, 2, 3, 4 to a new list, the walks visit 1, 2, 3, 4 forward and
      4, 3, 2, 1 backward. */
  method DemoDisplay() returns (forward: seq<int>, backward: seq<int>)
    ensures forward == [1, 2, 3, 4]
    ensures backward == [4, 3, 2, 1]
  {
    var list := DemoList();
    forward := list.ForwardWalk();
    backward := list.BackwardWalk();
  }

  /** Popping once from that list returns 4, after which the walks visit
      1, 2, 3 forward and 3, 2, 1 backward. */
  method DemoPop() returns (popped: int, forward: seq<int>, backward: seq<int>)
    ensures popped == 4
    ensures forward == [1, 2, 3]
    ensures backward == [3, 2, 1]
  {
    var list := DemoList();
    popped := list.Pop();
    forward := list.ForwardWalk();
    backward := list.BackwardWalk();
  }
}
