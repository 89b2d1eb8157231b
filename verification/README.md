# Binary search tree and linked lists

A model of three small container implementations of integers:

- `binary_tree.py`: an unbalanced binary search tree (`BTree`). `append` inserts
  a value by descending from the root. A value smaller than a node goes into the
  left subtree; any other value, including an equal one, goes into the right
  subtree. Three traversals (inorder, preorder, postorder) fill a result list
  through a recursive helper that appends to an accumulator.
- `single_linked_list.py`: a singly linked list with only a head pointer.
  `append` walks to the last cell and `pop` walks to the cell before the last.
  `display` walks from the head.
- `double_linked_list.py`: a doubly linked list with head and tail pointers.
  `append` and `pop` work at the tail without a walk. `display` walks forward
  from the head and `display_reverse` walks backward from the tail.

The Dafny project has one module per source file.

- `BinarySearchTree` (`binary_tree.dfy`) is purely functional.
  - A `Tree` datatype stands for the root pointer. `Nil` is the empty tree.
  - `Insert` is the recursive `_append`. `Build` is a sequence of `append` calls
    on a new tree.
  - `InorderInto`, `PreorderInto` and `PostorderInto` are the
    accumulator-passing helpers. Each is proved equal to an independent
    reference definition: `Inorder`, `Preorder` or `Postorder`.
  - The properties proved:
    - insertion adds exactly the inserted value and keeps the search order;
    - every traversal is a permutation of the tree's values;
    - the inorder traversal of a search tree is sorted;
    - rebuilding a search tree from its preorder traversal gives the same tree.
- `SinglyLinkedList` (`single_linked_list.dfy`) and `DoublyLinkedList`
  (`double_linked_list.dfy`) use heap objects: a `Node` class and a `List`
  class.
  - Each list carries the ghost sequence of its cells and of their values.
  - A `Valid` predicate ties the pointers to those sequences. The chain from
    the head ends in null, no cell occurs twice, and in the doubly linked list
    `tail` and the `previous` links agree with the `next` links.
  - The display methods are modelled as walks that return the visited values
    instead of printing them.

Both `pop` methods dereference a missing cell when the list holds fewer than
two cells, so both `Pop` methods require at least two cells. This follows the
code.

A new list is built by the `Init` constructor of each `List` class, as
`SLL.__init__` does: it has no head (and, doubly linked, no tail), holds no
values and is `Valid`. Every other list contract starts from that state. Each
`Node` constructor, like `Node.__init__`, stores the value with null links.

## Model

| member | source | states |
|---|---|---|
| `BinarySearchTree.Insert` | binary_tree.py:25-33 | inserting always yields a node, and an existing root stays the root with its value |
| `BinarySearchTree.InsertElems` | binary_tree.py:25-33 | inserting `v` adds exactly one occurrence of `v` to the tree's values and exactly one node |
| `BinarySearchTree.InsertIntoEmpty` | binary_tree.py:26-27 | inserting into the empty tree yields a single leaf, whose every traversal is `[v]` |
| `BinarySearchTree.InsertEqualGoesRight` | binary_tree.py:29-32 | a value equal to a node's value is inserted into that node's right subtree, and the tree then holds one more occurrence of it |
| `BinarySearchTree.InsertKeepsBounds` | binary_tree.py:25-33 | inserting a value below (at least) a bound into a subtree whose values are all below (at least) that bound keeps them so |
| `BinarySearchTree.InsertPreservesBST` | binary_tree.py:25-33 | inserting into a search tree yields a search tree: smaller values on the left, the rest on the right |
| `BinarySearchTree.InsertAllElems` | binary_tree.py:22-23 | appending a sequence of values adds exactly that multiset of values and that many nodes |
| `BinarySearchTree.InsertAllPreservesBST` | binary_tree.py:22-33 | appending any sequence of values to a search tree keeps it a search tree |
| `BinarySearchTree.Build` | binary_tree.py:18-23 | the tree obtained by appending `s` to a new tree holds exactly the values of `s`, one node each |
| `BinarySearchTree.BuildIsBST` | binary_tree.py:18-33 | every tree built by appends is a search tree |
| `BinarySearchTree.BuildFromRoot` | binary_tree.py:22-33 | the first appended value becomes the root; the later smaller values form its left subtree and the rest its right subtree, each in their order of arrival |
| `BinarySearchTree.AllBelowIsElementwise` | binary_tree.py:29-30 | the recursive left-side bound holds exactly when every value in the subtree is smaller than the bound |
| `BinarySearchTree.AllAtLeastIsElementwise` | binary_tree.py:31-32 | the recursive right-side bound holds exactly when every value in the subtree is at least the bound |
| `BinarySearchTree.InorderInto` | binary_tree.py:40-44 | the accumulator-passing inorder helper extends the accumulator by the inorder sequence of the subtree |
| `BinarySearchTree.PreorderInto` | binary_tree.py:51-55 | the accumulator-passing preorder helper extends the accumulator by the preorder sequence of the subtree |
| `BinarySearchTree.PostorderInto` | binary_tree.py:62-66 | the accumulator-passing postorder helper extends the accumulator by the postorder sequence of the subtree |
| `BinarySearchTree.InorderTraversal` | binary_tree.py:35-44 | the inorder traversal is the left subtree, then the node, then the right subtree, one entry per node; it is in ascending order when the tree is a search tree |
| `BinarySearchTree.PreorderTraversal` | binary_tree.py:46-55 | the preorder traversal is the node, then the left subtree, then the right subtree, one entry per node, starting with the root's value |
| `BinarySearchTree.PostorderTraversal` | binary_tree.py:57-66 | the postorder traversal is the left subtree, then the right subtree, then the node, one entry per node, ending with the root's value |
| `BinarySearchTree.InorderElems` | binary_tree.py:40-44 | the inorder sequence is a permutation of the tree's values |
| `BinarySearchTree.PreorderElems` | binary_tree.py:51-55 | the preorder sequence is a permutation of the tree's values |
| `BinarySearchTree.PostorderElems` | binary_tree.py:62-66 | the postorder sequence is a permutation of the tree's values, so the three traversals are permutations of one another |
| `BinarySearchTree.InorderSorted` | binary_tree.py:40-44 | the inorder sequence of a search tree is sorted |
| `BinarySearchTree.BuildSorts` | binary_tree.py:22-44 | appending any sequence to a new tree and reading it inorder yields that sequence sorted |
| `BinarySearchTree.PreorderRebuilds` | binary_tree.py:22-55 | appending the preorder sequence of a search tree to a new tree rebuilds exactly that tree |
| `BinarySearchTree.PreorderRoundTrip` | binary_tree.py:46-55 | a search tree rebuilt from its preorder traversal is the same tree |
| `BinarySearchTree.DemoBuild` | binary_tree.py:69-74 | appending 3, 2, 1, 4, 5 gives root 3 with left chain 2, 1 and right chain 4, 5 |
| `BinarySearchTree.DemoInorder` | binary_tree.py:75 | that tree reads 1, 2, 3, 4, 5 inorder |
| `BinarySearchTree.DemoPreorder` | binary_tree.py:76 | that tree reads 3, 2, 1, 4, 5 in preorder |
| `BinarySearchTree.DemoPostorder` | binary_tree.py:77 | that tree reads 1, 2, 5, 4, 3 in postorder |
| `SinglyLinkedList.List.Init` | single_linked_list.py:23-25 | a new list has no head, holds no values and is well formed |
| `SinglyLinkedList.List.Append` | single_linked_list.py:27-35 | appending adds the value after the last cell, keeps the head of a non-empty list and leaves the list well formed |
| `SinglyLinkedList.List.Pop` | single_linked_list.py:37-43 | on a list of at least two cells, pop returns the last value and removes exactly the last cell |
| `SinglyLinkedList.List.Walk` | single_linked_list.py:45-53 | the display walk visits the values from head to last, in order |
| `SinglyLinkedList.List.AppendThenPop` | single_linked_list.py:27-43 | on a non-empty list, appending then popping returns the appended value and restores the contents |
| `SinglyLinkedList.Demo` | single_linked_list.py:55-62 | appending 1, 2, 3 displays 1, 2, 3; pop returns 3 and leaves 1, 2 |
| `DoublyLinkedList.List.Init` | double_linked_list.py:22-25 | a new list has neither head nor tail, holds no values and is well formed |
| `DoublyLinkedList.List.Append` | double_linked_list.py:27-35 | appending links the value after the tail, keeps the head of a non-empty list and leaves both link directions consistent |
| `DoublyLinkedList.List.Pop` | double_linked_list.py:37-41 | on a list of at least two cells, pop returns the tail's value, and the previous cell becomes the tail |
| `DoublyLinkedList.List.ForwardWalk` | double_linked_list.py:43-51 | the forward display walk visits the values from head to tail, in order |
| `DoublyLinkedList.List.BackwardWalk` | double_linked_list.py:53-61 | the backward display walk visits the values from tail to head, the contents reversed |
| `DoublyLinkedList.List.WalkBothWays` | double_linked_list.py:43-61 | the backward walk visits exactly the forward walk's values, in the opposite order |
| `DoublyLinkedList.List.AppendThenPop` | double_linked_list.py:27-41 | on a non-empty list, appending then popping returns the appended value and restores the contents, head and tail |
| `DoublyLinkedList.PreviousMirrorsNext` | double_linked_list.py:32-33 | one cell's `previous` is another exactly when the other's `next` is the first |
| `DoublyLinkedList.DemoDisplay` | double_linked_list.py:64-71 | appending 1, 2, 3, 4 to a new list displays 1, 2, 3, 4 forward and 4, 3, 2, 1 backward |
| `DoublyLinkedList.DemoPop` | double_linked_list.py:64-74 | popping that list returns 4, after which the displays read 1, 2, 3 and 3, 2, 1 |

## Left out

- Printing: `display` and `display_reverse` return the sequence they would print. The message for an empty list is not modelled; the walk returns the empty sequence.
- The `__main__` blocks are modelled only as the `Demo` lemmas and methods.
- The time and space complexity notes are comments in the source and state nothing checkable here.
- Node aliasing: both list `append` methods take a node built by the caller. The model takes the value and allocates a fresh cell. Appending a node that already has links is therefore not modelled: one whose `next` splices in a foreign chain, one already in a list (making a cycle), or a node popped from a doubly linked list, whose `previous` is never cleared.
- Dynamic typing: values are integers, and the tree compares them with integer `<`.
- `SinglyLinkedList.List.Pop` and `DoublyLinkedList.List.Pop` require at least two cells. With fewer, the source dereferences `None` and raises. The model keeps this precondition instead of modelling a raised error, and so it also leaves out the state such a failed pop leaves behind: on a one-cell doubly linked list, `double_linked_list.py` sets the tail to `None` before raising, leaving a list with a head but no tail.
- Recursion depth: `_append` and the three traversal helpers recurse once per tree level, so under Python's default recursion limit (1000) a tree of about a thousand levels, such as one built from ascending values, makes the next `append` or traversal raise `RecursionError`. The model has no such limit: `InsertAllElems`, `Build`, `BuildSorts` and the traversal functions hold for trees of every height.
- The `BTree` wrapper object and its `root_node` field are represented by the `Tree` value itself. `append` on the wrapper corresponds to replacing the tree with `Insert(t, v)`.
- `BinarySearchTree.Insert`: its own contract only states the shape of the result. The content and order properties are stated by `InsertElems`, `InsertPreservesBST` and `InsertEqualGoesRight`.
