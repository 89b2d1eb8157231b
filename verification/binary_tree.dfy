/**
 An unbalanced binary search tree over integers, as built by repeated
 insertion. Insertion sends a value smaller than a node's value to the left
 subtree and every other value, equal ones included, to the right subtree, so
 duplicates are kept. The three depth-first traversals return fully
 materialised sequences.

 The tree is an inductive datatype: `Nil` is an absent child slot, and every
 `Node` owns its two subtrees exclusively, so the pointer structure of the
 `BTree` is exactly a value of this type.
 */
module BinarySearchTree {

  /** A tree slot: either absent, or a node holding a value and two owned subtrees. */
  datatype Tree = Nil | Node(left: Tree, value: int, right: Tree)

  /** The number of nodes. */
  function Size(t: Tree): nat
  {
    match t
    case Nil => 0
    case Node(l, _, r) => Size(l) + 1 + Size(r)
  }

  /** The multiset of values stored in the tree, duplicates counted. */
  function Elems(t: Tree): multiset<int>
  {
    match t
    case Nil => multiset{}
    case Node(l, x, r) => Elems(l) + multiset{x} + Elems(r)
  }

  /** Every value stored in `t` is smaller than `x`. */
  predicate AllBelow(t: Tree, x: int)
  {
    match t
    case Nil => true
    case Node(l, y, r) => y < x && AllBelow(l, x) && AllBelow(r, x)
  }

  /** Every value stored in `t` is at least `x`. */
  predicate AllAtLeast(t: Tree, x: int)
  {
    match t
    case Nil => true
    case Node(l, y, r) => x <= y && AllAtLeast(l, x) && AllAtLeast(r, x)
  }

  /** The search-tree ordering the insertion maintains: at every node, the left
      subtree holds only smaller values and the right subtree only values at
      least the node's own. */
  predicate IsBST(t: Tree)
  {
    match t
    case Nil => true
    case Node(l, x, r) => AllBelow(l, x) && AllAtLeast(r, x) && IsBST(l) && IsBST(r)
  }

  /** Non-decreasing order. */
  ghost predicate Sorted(s: seq<int>)
  {
    forall i, j | 0 <= i < j < |s| :: s[i] <= s[j]
  }

  /** The bound predicates say exactly that every stored value lies on one side of `x`. */
  lemma {:induction false} AllBelowIsElementwise(t: Tree, x: int)
    ensures AllBelow(t, x) <==> (forall y | y in Elems(t) :: y < x)
  {
    match t
    case Nil =>
    case Node(l, v, r) =>
      AllBelowIsElementwise(l, x);
      AllBelowIsElementwise(r, x);
      assert v in Elems(t);
      assert Elems(l) <= Elems(t) && Elems(r) <= Elems(t);
  }

  lemma {:induction false} AllAtLeastIsElementwise(t: Tree, x: int)
    ensures AllAtLeast(t, x) <==> (forall y | y in Elems(t) :: x <= y)
  {
    match t
    case Nil =>
    case Node(l, v, r) =>
      AllAtLeastIsElementwise(l, x);
      AllAtLeastIsElementwise(r, x);
      assert v in Elems(t);
      assert Elems(l) <= Elems(t) && Elems(r) <= Elems(t);
  }

  // ---------------------------------------------------------------------------
  // Insertion
  // ---------------------------------------------------------------------------

  /** Inserts `v` below `t`: an absent slot becomes a new leaf; otherwise the value
      descends left when it is smaller than the node's value and right otherwise.
      The root is never replaced, so the result is never empty. */
  function Insert(t: Tree, v: int): (r: Tree)
    ensures r.Node?
    ensures t.Node? ==> r.value == t.value
  {
    match t
    case Nil => Node(Nil, v, Nil)
    case Node(l, x, rt) =>
      if v < x then Node(Insert(l, v), x, rt) else Node(l, x, Insert(rt, v))
  }

  /** Insertion adds exactly one occurrence of `v` and one node. */
  lemma {:induction false} InsertElems(t: Tree, v: int)
    ensures Elems(Insert(t, v)) == Elems(t) + multiset{v}
    ensures Size(Insert(t, v)) == Size(t) + 1
  {
    match t
    case Nil =>
    case Node(l, x, r) =>
      if v < x {
        InsertElems(l, v);
        assert Insert(t, v) == Node(Insert(l, v), x, r);
      } else {
        InsertElems(r, v);
        assert Insert(t, v) == Node(l, x, Insert(r, v));
      }
  }

  /** Inserts the values of `s` one after the other, first to last. */
  function InsertAll(t: Tree, s: seq<int>): Tree
    decreases |s|
  {
    if |s| == 0 then t else InsertAll(Insert(t, s[0]), s[1..])
  }

  lemma InsertAllStep(t: Tree, s: seq<int>)
    requires |s| != 0
    ensures InsertAll(t, s) == InsertAll(Insert(t, s[0]), s[1..])
  {
  }

  /** A fresh tree into which the values of `s` have been appended in order. */
  function Build(s: seq<int>): (r: Tree)
    ensures Elems(r) == multiset(s)
    ensures Size(r) == |s|
  {
    InsertAllElems(Nil, s);
    InsertAll(Nil, s)
  }

  /** Inserting a sequence adds exactly its values, one node each. */
  lemma {:induction false} InsertAllElems(t: Tree, s: seq<int>)
    ensures Elems(InsertAll(t, s)) == Elems(t) + multiset(s)
    ensures Size(InsertAll(t, s)) == Size(t) + |s|
    decreases |s|
  {
    if |s| != 0 {
      var u := Insert(t, s[0]);
      InsertElems(t, s[0]);
      InsertAllElems(u, s[1..]);
      MultisetOfFirstAndRest(s);
      calc {
        Elems(InsertAll(t, s));
        Elems(InsertAll(u, s[1..]));
        Elems(u) + multiset(s[1..]);
        Elems(t) + multiset{s[0]} + multiset(s[1..]);
        Elems(t) + multiset(s);
      }
    }
  }

  lemma MultisetOfFirstAndRest(s: seq<int>)
    requires |s| != 0
    ensures multiset(s) == multiset{s[0]} + multiset(s[1..])
  {
    assert s == [s[0]] + s[1..];
  }

  lemma {:induction false} InsertKeepsBounds(t: Tree, v: int, x: int)
    ensures AllBelow(t, x) && v < x ==> AllBelow(Insert(t, v), x)
    ensures AllAtLeast(t, x) && x <= v ==> AllAtLeast(Insert(t, v), x)
  {
    match t
    case Nil =>
    case Node(l, y, r) =>
      InsertKeepsBounds(l, v, x);
      InsertKeepsBounds(r, v, x);
  }

  /** Insertion keeps the search-tree ordering. */
  lemma {:induction false} InsertPreservesBST(t: Tree, v: int)
    requires IsBST(t)
    ensures IsBST(Insert(t, v))
  {
    match t
    case Nil =>
    case Node(l, x, r) =>
      if v < x {
        InsertPreservesBST(l, v);
        InsertKeepsBounds(l, v, x);
      } else {
        InsertPreservesBST(r, v);
        InsertKeepsBounds(r, v, x);
      }
  }

  lemma {:induction false} InsertAllPreservesBST(t: Tree, s: seq<int>)
    requires IsBST(t)
    ensures IsBST(InsertAll(t, s))
    decreases |s|
  {
    if |s| != 0 {
      InsertPreservesBST(t, s[0]);
      InsertAllPreservesBST(Insert(t, s[0]), s[1..]);
    }
  }

  /** Whatever values are appended into a fresh tree, in whatever order, the
      result is a search tree. */
  lemma BuildIsBST(s: seq<int>)
    ensures IsBST(Build(s))
  {
    InsertAllPreservesBST(Nil, s);
  }

  // ---------------------------------------------------------------------------
  // Traversals: reference definitions
  // ---------------------------------------------------------------------------

  /** Left subtree, then the node, then the right subtree. */
  function Inorder(t: Tree): seq<int>
  {
    match t
    case Nil => []
    case Node(l, x, r) => Inorder(l) + [x] + Inorder(r)
  }

  /** The node, then the left subtree, then the right subtree. */
  function Preorder(t: Tree): seq<int>
  {
    match t
    case Nil => []
    case Node(l, x, r) => [x] + Preorder(l) + Preorder(r)
  }

  /** The left subtree, then the right subtree, then the node. */
  function Postorder(t: Tree): seq<int>
  {
    match t
    case Nil => []
    case Node(l, x, r) => Postorder(l) + Postorder(r) + [x]
  }

  // ---------------------------------------------------------------------------
  // Traversals as `binary_tree.py` computes them: each visit appends to a result
  // list that is threaded through the recursion.
  // ---------------------------------------------------------------------------

  /** Appends the inorder visit of `t` to `acc`. */
  function InorderInto(t: Tree, acc: seq<int>): (r: seq<int>)
    ensures r == acc + Inorder(t)
  {
    match t
    case Nil => acc
    case Node(l, x, rt) => InorderInto(rt, InorderInto(l, acc) + [x])
  }

  /** Appends the preorder visit of `t` to `acc`. */
  function PreorderInto(t: Tree, acc: seq<int>): (r: seq<int>)
    ensures r == acc + Preorder(t)
  {
    match t
    case Nil => acc
    case Node(l, x, rt) => PreorderInto(rt, PreorderInto(l, acc + [x]))
  }

  /** Appends the postorder visit of `t` to `acc`. */
  function PostorderInto(t: Tree, acc: seq<int>): (r: seq<int>)
    ensures r == acc + Postorder(t)
  {
    match t
    case Nil => acc
    case Node(l, x, rt) => PostorderInto(rt, PostorderInto(l, acc)) + [x]
  }

  /** The inorder traversal of the whole tree: every stored value once per
      occurrence, in non-decreasing order when the tree is a search tree. */
  function InorderTraversal(t: Tree): (r: seq<int>)
    ensures r == Inorder(t)
    ensures |r| == Size(t)
    ensures IsBST(t) ==> Sorted(r)
  {
    InorderElems(t);
    assert IsBST(t) ==> Sorted(Inorder(t)) by {
      if IsBST(t) {
        InorderSorted(t);
      }
    }
    assert [] + Inorder(t) == Inorder(t);
    InorderInto(t, [])
  }

  /** The preorder traversal of the whole tree; the root comes first. */
  function PreorderTraversal(t: Tree): (r: seq<int>)
    ensures r == Preorder(t)
    ensures |r| == Size(t)
    ensures t.Node? ==> r[0] == t.value
  {
    PreorderElems(t);
    assert [] + Preorder(t) == Preorder(t);
    PreorderInto(t, [])
  }

  /** The postorder traversal of the whole tree; the root comes last. */
  function PostorderTraversal(t: Tree): (r: seq<int>)
    ensures r == Postorder(t)
    ensures |r| == Size(t)
    ensures t.Node? ==> r[|r| - 1] == t.value
  {
    PostorderElems(t);
    assert [] + Postorder(t) == Postorder(t);
    PostorderInto(t, [])
  }

  // ---------------------------------------------------------------------------
  // Properties of the traversals
  // ---------------------------------------------------------------------------

  /** Each traversal visits every node exactly once: its sequence is a
      permutation of the tree's values, so the three traversals are
      permutations of one another. */
  lemma {:induction false} InorderElems(t: Tree)
    ensures multiset(Inorder(t)) == Elems(t)
    ensures |Inorder(t)| == Size(t)
  {
    match t
    case Nil =>
    case Node(l, x, r) =>
      InorderElems(l);
      InorderElems(r);
  }

  lemma {:induction false} PreorderElems(t: Tree)
    ensures multiset(Preorder(t)) == Elems(t)
    ensures |Preorder(t)| == Size(t)
  {
    match t
    case Nil =>
    case Node(l, x, r) =>
      PreorderElems(l);
      PreorderElems(r);
  }

  lemma {:induction false} PostorderElems(t: Tree)
    ensures multiset(Postorder(t)) == Elems(t)
    ensures |Postorder(t)| == Size(t)
  {
    match t
    case Nil =>
    case Node(l, x, r) =>
      PostorderElems(l);
      PostorderElems(r);
  }

  /** A sequence holding the values of a subtree bounded by `x` is bounded
      position by position. */
  lemma {:induction false} SequenceBounds(s: seq<int>, t: Tree, x: int)
    requires multiset(s) == Elems(t)
    ensures AllBelow(t, x) ==> forall k | 0 <= k < |s| :: s[k] < x
    ensures AllAtLeast(t, x) ==> forall k | 0 <= k < |s| :: x <= s[k]
  {
    AllBelowIsElementwise(t, x);
    AllAtLeastIsElementwise(t, x);
    forall k | 0 <= k < |s|
      ensures s[k] in Elems(t)
    {
      assert s[k] in multiset(s);
    }
  }

  /** Two sorted sequences around a pivot concatenate into a sorted sequence. */
  lemma SortedAroundPivot(a: seq<int>, x: int, b: seq<int>)
    requires Sorted(a) && Sorted(b)
    requires forall k | 0 <= k < |a| :: a[k] < x
    requires forall k | 0 <= k < |b| :: x <= b[k]
    ensures Sorted(a + [x] + b)
  {
  }

  /** On a search tree the inorder sequence is non-decreasing. */
  lemma {:induction false} InorderSorted(t: Tree)
    requires IsBST(t)
    ensures Sorted(Inorder(t))
  {
    match t
    case Nil =>
    case Node(l, x, r) =>
      InorderSorted(l);
      InorderSorted(r);
      InorderElems(l);
      InorderElems(r);
      SequenceBounds(Inorder(l), l, x);
      SequenceBounds(Inorder(r), r, x);
      SortedAroundPivot(Inorder(l), x, Inorder(r));
  }

  /** Any sequence of appends into a fresh tree yields its values in
      non-decreasing order under inorder traversal, duplicates included. */
  lemma BuildSorts(s: seq<int>)
    ensures Sorted(InorderTraversal(Build(s)))
    ensures multiset(InorderTraversal(Build(s))) == multiset(s)
  {
    BuildIsBST(s);
    InorderElems(Build(s));
  }

  // ---------------------------------------------------------------------------
  // Rebuilding a tree from its preorder sequence
  // ---------------------------------------------------------------------------

  /** The values of `s` smaller than `x`, in their original order. */
  function Below(s: seq<int>, x: int): seq<int>
  {
    if |s| == 0 then []
    else if s[0] < x then [s[0]] + Below(s[1..], x)
    else Below(s[1..], x)
  }

  /** The values of `s` at least `x`, in their original order. */
  function AtLeast(s: seq<int>, x: int): seq<int>
  {
    if |s| == 0 then []
    else if s[0] < x then AtLeast(s[1..], x)
    else [s[0]] + AtLeast(s[1..], x)
  }

  lemma {:induction false} BelowDistributes(a: seq<int>, b: seq<int>, x: int)
    ensures Below(a + b, x) == Below(a, x) + Below(b, x)
    decreases |a|
  {
    if |a| == 0 {
      assert a + b == b;
    } else {
      var ab := a + b;
      assert ab[0] == a[0] && ab[1..] == a[1..] + b;
      BelowDistributes(a[1..], b, x);
      if a[0] < x {
        ConcatAssoc([a[0]], Below(a[1..], x), Below(b, x));
      }
    }
  }

  lemma {:induction false} AtLeastDistributes(a: seq<int>, b: seq<int>, x: int)
    ensures AtLeast(a + b, x) == AtLeast(a, x) + AtLeast(b, x)
    decreases |a|
  {
    if |a| == 0 {
      assert a + b == b;
    } else {
      var ab := a + b;
      assert ab[0] == a[0] && ab[1..] == a[1..] + b;
      AtLeastDistributes(a[1..], b, x);
      if x <= a[0] {
        ConcatAssoc([a[0]], AtLeast(a[1..], x), AtLeast(b, x));
      }
    }
  }

  lemma {:induction false} FiltersOfSmaller(s: seq<int>, x: int)
    requires forall k | 0 <= k < |s| :: s[k] < x
    ensures Below(s, x) == s
    ensures AtLeast(s, x) == []
    decreases |s|
  {
    if |s| != 0 {
      FiltersOfSmaller(s[1..], x);
    }
  }

  lemma {:induction false} FiltersOfLarger(s: seq<int>, x: int)
    requires forall k | 0 <= k < |s| :: x <= s[k]
    ensures Below(s, x) == []
    ensures AtLeast(s, x) == s
    decreases |s|
  {
    if |s| != 0 {
      FiltersOfLarger(s[1..], x);
    }
  }

  /** Appending a sequence below an existing node splits it: the smaller values
      go, in order, into the left subtree and the others into the right one. */
  lemma {:induction false} InsertAllBelowNode(l: Tree, x: int, r: Tree, s: seq<int>)
    ensures InsertAll(Node(l, x, r), s) == Node(InsertAll(l, Below(s, x)), x, InsertAll(r, AtLeast(s, x)))
    decreases |s|
  {
    if |s| != 0 {
      var y, rest := s[0], s[1..];
      InsertAllStep(Node(l, x, r), s);
      if y < x {
        var ss := Below(s, x);
        assert ss == [y] + Below(rest, x);
        assert ss[0] == y && ss[1..] == Below(rest, x);
        InsertAllStep(l, ss);
        assert AtLeast(s, x) == AtLeast(rest, x);
        InsertAllBelowNode(Insert(l, y), x, r, rest);
      } else {
        var ls := AtLeast(s, x);
        assert ls == [y] + AtLeast(rest, x);
        assert ls[0] == y && ls[1..] == AtLeast(rest, x);
        InsertAllStep(r, ls);
        assert Below(s, x) == Below(rest, x);
        InsertAllBelowNode(l, x, Insert(r, y), rest);
      }
    }
  }

  /** Appending `x` first and then `s` into a fresh tree gives a root `x` whose
      subtrees are built from the values of `s` below and at least `x`. */
  lemma BuildFromRoot(x: int, s: seq<int>)
    ensures Build([x] + s) == Node(Build(Below(s, x)), x, Build(AtLeast(s, x)))
  {
    assert ([x] + s)[1..] == s;
    InsertAllBelowNode(Nil, x, Nil, s);
  }

  lemma ConcatAssoc(a: seq<int>, b: seq<int>, c: seq<int>)
    ensures a + b + c == a + (b + c)
  {
  }

  /** The preorder sequences of a left subtree below `x` and a right subtree at
      least `x`, concatenated, split back into the two by the filters. */
  lemma SplitPreorders(l: Tree, x: int, r: Tree)
    requires AllBelow(l, x) && AllAtLeast(r, x)
    ensures Below(Preorder(l) + Preorder(r), x) == Preorder(l)
    ensures AtLeast(Preorder(l) + Preorder(r), x) == Preorder(r)
  {
    var pl, pr := Preorder(l), Preorder(r);
    PreorderElems(l);
    PreorderElems(r);
    SequenceBounds(pl, l, x);
    SequenceBounds(pr, r, x);
    BelowDistributes(pl, pr, x);
    AtLeastDistributes(pl, pr, x);
    FiltersOfSmaller(pl, x);
    FiltersOfLarger(pr, x);
  }

  /** Appending the preorder sequence of a search tree into a fresh tree
      reproduces exactly that tree, shape included. */
  lemma {:induction false} PreorderRebuilds(t: Tree)
    requires IsBST(t)
    ensures Build(Preorder(t)) == t
  {
    match t
    case Nil =>
    case Node(l, x, r) =>
      PreorderRebuilds(l);
      PreorderRebuilds(r);
      SplitPreorders(l, x, r);
      ConcatAssoc([x], Preorder(l), Preorder(r));
      BuildFromRoot(x, Preorder(l) + Preorder(r));
  }

  /** Round trip through the public operations: appending the preorder traversal
      of a search tree into a fresh tree gives back the same tree. */
  lemma PreorderRoundTrip(t: Tree)
    requires IsBST(t)
    ensures Build(PreorderTraversal(t)) == t
  {
    PreorderRebuilds(t);
  }

  // ---------------------------------------------------------------------------
  // Concrete behaviour
  // ---------------------------------------------------------------------------

  /** A single append into an empty tree yields one leaf, seen by every traversal. */
  lemma InsertIntoEmpty(v: int)
    ensures Insert(Nil, v) == Node(Nil, v, Nil)
    ensures InorderTraversal(Insert(Nil, v)) == [v]
    ensures PreorderTraversal(Insert(Nil, v)) == [v]
    ensures PostorderTraversal(Insert(Nil, v)) == [v]
  {
  }

  /** A value equal to a node's value is sent to the right subtree, so an equal
      value already stored and the new one both remain. */
  lemma {:induction false} InsertEqualGoesRight(l: Tree, x: int, r: Tree)
    ensures Insert(Node(l, x, r), x) == Node(l, x, Insert(r, x))
    ensures Elems(Insert(Node(l, x, r), x))[x] == Elems(Node(l, x, r))[x] + 1
  {
    InsertElems(Node(l, x, r), x);
  }

  /** The tree the demonstration in `binary_tree.py` builds by appending 3, 2, 1, 4, 5. */
  function DemoTree(): Tree
  {
    Node(Node(Node(Nil, 1, Nil), 2, Nil), 3, Node(Nil, 4, Node(Nil, 5, Nil)))
  }

  /** Appending 3, 2, 1, 4, 5 into a fresh tree, as the demonstration does,
      gives the demo tree. */
  lemma DemoBuild()
    ensures Build([3, 2, 1, 4, 5]) == DemoTree()
  {
  }

  /** Traversing the demo tree gives the sequences the demonstration prints. */
  lemma DemoInorder()
    ensures InorderTraversal(DemoTree()) == [1, 2, 3, 4, 5]
  {
  }

  lemma DemoPreorder()
    ensures PreorderTraversal(DemoTree()) == [3, 2, 1, 4, 5]
  {
  }

  lemma DemoPostorder()
    ensures PostorderTraversal(DemoTree()) == [1, 2, 5, 4, 3]
  {
  }
}
