/**
 A singly linked list of integers with only a head pointer. Appending walks
 from the head to the last cell; popping walks to the cell before the last one
 and unlinks the last.

 Each list carries, as ghost state, the sequence of its cells from head to tail
 and the sequence of their values; `Valid` ties the heap to them, so the
 chain is finite, acyclic and ends in null.
 */
module SinglyLinkedList {

  /** A list cell: a value and the link to the next cell, null at the tail. */
  class Node {
    var value: int
    var next: Node?

    constructor (v: int)
      ensures value == v && next == null
    {
      value := v;
      next := null;
    }
  }

  class List {
    var head: Node?

    /** The values from head to tail. */
    ghost var contents: seq<int>
    /** The cells from head to tail. */
    ghost var nodes: seq<Node>

    /** `head` starts the chain of `nodes`, each cell links to the next one,
        only the last cell links to null, no cell occurs twice, and the cells
        hold `contents`. */
    ghost predicate Valid()
      reads this, nodes
    {
      && |nodes| == |contents|
      && head == (if |nodes| == 0 then null else nodes[0])
      && (forall i | 0 <= i < |nodes| :: nodes[i].value == contents[i])
      && (forall i | 0 <= i < |nodes| - 1 :: nodes[i].next == nodes[i + 1])
      && (forall i | 0 <= i < |nodes| :: nodes[i].next == null <==> i == |nodes| - 1)
      && (forall i, j | 0 <= i < j < |nodes| :: nodes[i] != nodes[j])
    }

    /** The cell `append` links the new one to: the last cell, if any. */
    ghost function LastCell(): set<object>
      reads this
    {
      if |nodes| == 0 then {} else {nodes[|nodes| - 1]}
    }

    /** A new list has no head. */
    constructor Init()
      ensures Valid()
      ensures contents == []
      ensures head == null
    {
      head := null;
      contents := [];
      nodes := [];
    }

    /** Adds `v` after the last cell. An empty list gets the new cell as its head;
        otherwise the walk from the head stops at the cell whose `next` is null and
        links the new cell there. Only that cell and the list itself change. */
    method Append(v: int)
      requires Valid()
      modifies this, LastCell()
      ensures Valid()
      ensures contents == old(contents) + [v]
      ensures nodes[..|nodes| - 1] == old(nodes)
      ensures fresh(nodes[|nodes| - 1])
      ensures old(head) != null ==> head == old(head)
    {
      var n := new Node(v);
      if head == null {
        head := n;
      } else {
        var cursor := head;
        ghost var i := 0;
        while cursor.next != null
          invariant Valid()
          invariant 0 <= i < |nodes| && cursor == nodes[i]
          decreases |nodes| - i
        {
          cursor := cursor.next;
          i := i + 1;
        }
        cursor.next := n;
      }
      contents := contents + [v];
      nodes := nodes + [n];
    }

    /** Removes the last cell and returns its value. The walk looks two cells
        ahead, so the list must hold at least two cells: with none the head
        itself is null, and with one the head's `next` is null, and either is
        dereferenced. The cell before the last becomes the last; the head and
        every other cell keep their value and link. */
    method Pop() returns (v: int)
      requires Valid()
      requires |contents| >= 2
      modifies this, nodes[|nodes| - 2]
      ensures Valid()
      ensures v == old(contents[|contents| - 1])
      ensures contents == old(contents[..|contents| - 1])
      ensures nodes == old(nodes[..|nodes| - 1])
      ensures head == old(head)
    {
      var cursor := head;
      ghost var i := 0;
      while cursor.next.next != null
        invariant Valid()
        invariant 0 <= i <= |nodes| - 2 && cursor == nodes[i]
        decreases |nodes| - i
      {
        assert cursor.next == nodes[i + 1];
        cursor := cursor.next;
        i := i + 1;
      }
      assert cursor.next == nodes[i + 1];
      v := cursor.next.value;
      cursor.next := null;
      contents := contents[..|contents| - 1];
      nodes := nodes[..|nodes| - 1];
    }

    /** The values the display walk visits, from the head along `next`: the
        head's value first, the value of the cell whose `next` is null last,
        nothing for an empty list. */
    method Walk() returns (s: seq<int>)
      requires Valid()
      ensures s == contents
    {
      s := [];
      if head == null {
        return;
      }
      var cursor := head;
      ghost var i := 0;
      while cursor.next != null
        invariant 0 <= i < |nodes| && cursor == nodes[i]
        invariant s == contents[..i]
        decreases |nodes| - i
      {
        assert contents[..i + 1] == contents[..i] + [contents[i]];
        s := s + [cursor.value];
        cursor := cursor.next;
        i := i + 1;
      }
      assert contents == contents[..i] + [contents[i]];
      s := s + [cursor.value];
    }

    /** Appending a value and popping at once gives the value back and restores
        the contents, on a list that already holds a cell. */
    method AppendThenPop(v: int) returns (w: int)
      requires Valid()
      requires |contents| >= 1
      modifies this, nodes[|nodes| - 1]
      ensures Valid()
      ensures w == v
      ensures contents == old(contents)
      ensures head == old(head)
    {
      Append(v);
      w := Pop();
    }
  }

  /** Appending 1, 2, 3 to a new list, the walk visits 1, 2, 3; popping once
      returns 3, after which the walk visits 1, 2. */
  method Demo() returns (before: seq<int>, popped: int, after: seq<int>)
    ensures before == [1, 2, 3]
    ensures popped == 3
    ensures after == [1, 2]
  {
    var list := new List.Init();
    list.Append(1);
    list.Append(2);
    list.Append(3);
    before := list.Walk();
    popped := list.Pop();
    after := list.Walk();
  }
}
