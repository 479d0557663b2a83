/** `BinarySearchTree` of binary_search_tree.py: an unbalanced search tree built
    by repeated insertion, a balanced build from the sorted distinct values, and
    the three depth-first traversals. A tree is a value (`Tree`); the object keeps
    the current tree in its `root` field. */
module SearchTree {
  import opened Common
  import MergeSort

  /** `None`, or a `BinarySearchTreeNode` with its left child, value and right child. */
  datatype Tree = Nil | Node(left: Tree, value: int, right: Tree)

  function Elements(t: Tree): set<int> {
    match t
    case Nil => {}
    case Node(l, v, r) => Elements(l) + {v} + Elements(r)
  }

  function Size(t: Tree): nat {
    match t
    case Nil => 0
    case Node(l, _, r) => Size(l) + 1 + Size(r)
  }

  /** Number of nodes on the longest root-to-leaf path. */
  function Height(t: Tree): nat {
    match t
    case Nil => 0
    case Node(l, _, r) => 1 + (if Height(l) < Height(r) then Height(r) else Height(l))
  }

  /** The search-tree ordering: everything left of a node is smaller, everything
      right of it is larger, at every node. */
  predicate IsBst(t: Tree) {
    match t
    case Nil => true
    case Node(l, v, r) =>
      IsBst(l) && IsBst(r) &&
      (forall x :: x in Elements(l) ==> x < v) &&
      (forall x :: x in Elements(r) ==> v < x)
  }

  predicate StrictlyAscending(s: seq<int>) {
    forall i, j :: 0 <= i < j < |s| ==> s[i] < s[j]
  }

  // ---------------------------------------------------------------- insertion

  /** `add_node` / `_add_node_recursive`: walk left on a smaller value, right on a
      larger one, and hang a new leaf where the walk falls off the tree. A value
      equal to the node's matches neither branch and is dropped. */
  function Insert(t: Tree, v: int): (r: Tree)
    ensures Elements(r) == Elements(t) + {v}
    ensures IsBst(t) ==> IsBst(r)
    ensures t == Nil ==> r == Node(Nil, v, Nil)
    ensures r != Nil
  {
    match t
    case Nil => Node(Nil, v, Nil)
    case Node(l, x, rt) =>
      if v < x then Node(Insert(l, v), x, rt)
      else if v > x then Node(l, x, Insert(rt, v))
      else t
  }

  /** Inserting a value that is already in a search tree changes nothing. */
  lemma {:induction false} InsertPresent(t: Tree, v: int)
    requires IsBst(t) && v in Elements(t)
    ensures Insert(t, v) == t
  {
    match t
    case Node(l, x, rt) =>
      if v < x {
        InsertPresent(l, v);
      } else if v > x {
        InsertPresent(rt, v);
      }
  }

  /** `build_tree`: insert the values one after the other, first to last. */
  function InsertAll(t: Tree, values: seq<int>): (r: Tree)
    ensures Elements(r) == Elements(t) + set x | x in values
    ensures IsBst(t) ==> IsBst(r)
  {
    if values == [] then t
    else
      var init := values[..|values| - 1];
      assert values == init + [values[|values| - 1]];
      Insert(InsertAll(t, init), values[|values| - 1])
  }

  // ---------------------------------------------------------------- traversals

  /** `pre_order_traversal` below a node: the node, then its left, then its right subtree. */
  function PreOrder(t: Tree): (r: seq<int>)
    ensures |r| == Size(t)
  {
    match t
    case Nil => []
    case Node(l, v, rt) => [v] + PreOrder(l) + PreOrder(rt)
  }

  /** `in_order_traversal` below a node: left subtree, the node, right subtree. */
  function InOrder(t: Tree): (r: seq<int>)
    ensures |r| == Size(t)
  {
    match t
    case Nil => []
    case Node(l, v, rt) => InOrder(l) + [v] + InOrder(rt)
  }

  /** `post_order_traversal` below a node: left subtree, right subtree, then the node. */
  function PostOrder(t: Tree): (r: seq<int>)
    ensures |r| == Size(t)
  {
    match t
    case Nil => []
    case Node(l, v, rt) => PostOrder(l) + PostOrder(rt) + [v]
  }

  /** The pre-order starts at the root, the post-order ends there. */
  lemma RootFirstAndLast(t: Tree)
    requires t != Nil
    ensures PreOrder(t)[0] == t.value
    ensures PostOrder(t)[|PostOrder(t)| - 1] == t.value
  {
  }

  /** The three traversals list the same values, each as often. */
  lemma {:induction false} TraversalsPermute(t: Tree)
    ensures multiset(PreOrder(t)) == multiset(InOrder(t))
    ensures multiset(PostOrder(t)) == multiset(InOrder(t))
  {
    match t
    case Nil =>
    case Node(l, v, rt) =>
      TraversalsPermute(l);
      TraversalsPermute(rt);
  }

  /** A traversal visits exactly the values stored in the tree. */
  lemma {:induction false} InOrderElements(t: Tree)
    ensures forall x :: x in InOrder(t) <==> x in Elements(t)
  {
    match t
    case Nil =>
    case Node(l, v, rt) =>
      InOrderElements(l);
      InOrderElements(rt);
  }

  lemma AscendingAround(a: seq<int>, v: int, b: seq<int>)
    requires StrictlyAscending(a) && StrictlyAscending(b)
    requires forall x :: x in a ==> x < v
    requires forall y :: y in b ==> v < y
    ensures StrictlyAscending(a + [v] + b)
  {
    var s := a + [v] + b;
    forall i, j | 0 <= i < j < |s|
      ensures s[i] < s[j]
    {
      if j < |a| {
      } else if j == |a| {
        assert s[i] == a[i];
      } else if i < |a| {
        assert s[i] in a && s[j] in b;
      } else if i == |a| {
        assert s[j] in b;
      }
    }
  }

  /** The in-order traversal of a search tree is strictly ascending: it is the
      sorted set of the tree's values. */
  lemma {:induction false} InOrderAscending(t: Tree)
    requires IsBst(t)
    ensures StrictlyAscending(InOrder(t))
  {
    match t
    case Nil =>
    case Node(l, v, rt) =>
      InOrderAscending(l);
      InOrderAscending(rt);
      InOrderElements(l);
      InOrderElements(rt);
      AscendingAround(InOrder(l), v, InOrder(rt));
  }

  // ---------------------------------------------------------------- balanced build

  /** `_build_balanced_tree_recursive`: the middle value `values[len // 2]` becomes
      the root, the values before it the left subtree, those after it the right. */
  function BuildBalanced(values: seq<int>): (r: Tree)
    ensures Size(r) == |values|
    decreases |values|
  {
    if values == [] then Nil
    else
      var mid := |values| / 2;
      Node(BuildBalanced(values[..mid]), values[mid], BuildBalanced(values[mid + 1..]))
  }

  /** The balanced tree's in-order traversal gives its argument back. */
  lemma {:induction false} BalancedInOrder(values: seq<int>)
    ensures InOrder(BuildBalanced(values)) == values
    decreases |values|
  {
    if values != [] {
      var mid := |values| / 2;
      var left, right := values[..mid], values[mid + 1..];
      BalancedInOrder(left);
      BalancedInOrder(right);
      var t := BuildBalanced(values);
      assert InOrder(t) == InOrder(t.left) + [t.value] + InOrder(t.right);
      SplitAround(values, mid);
    }
  }

  /** A list is its part before `mid`, the entry at `mid` and its part after. */
  lemma SplitAround(values: seq<int>, mid: nat)
    requires mid < |values|
    ensures values[..mid] + [values[mid]] + values[mid + 1..] == values
  {
  }

  /** A tree whose in-order traversal is strictly ascending is a search tree. */
  lemma {:induction false} AscendingIsBst(t: Tree)
    requires StrictlyAscending(InOrder(t))
    ensures IsBst(t)
  {
    match t
    case Nil =>
    case Node(l, v, rt) =>
      var s, a, b := InOrder(t), InOrder(l), InOrder(rt);
      assert StrictlyAscending(a) by {
        forall i, j | 0 <= i < j < |a|
          ensures a[i] < a[j]
        {
          assert s[i] == a[i] && s[j] == a[j];
        }
      }
      assert StrictlyAscending(b) by {
        forall i, j | 0 <= i < j < |b|
          ensures b[i] < b[j]
        {
          assert s[|a| + 1 + i] == b[i] && s[|a| + 1 + j] == b[j];
        }
      }
      AscendingIsBst(l);
      AscendingIsBst(rt);
      InOrderElements(l);
      InOrderElements(rt);
      forall x | x in Elements(l)
        ensures x < v
      {
        var k :| 0 <= k < |a| && a[k] == x;
        assert s[k] == x && s[|a|] == v;
      }
      forall x | x in Elements(rt)
        ensures v < x
      {
        var k :| 0 <= k < |b| && b[k] == x;
        assert s[|a| + 1 + k] == x && s[|a|] == v;
      }
  }

  /** The root's left subtree gets `n // 2` values and its right subtree the
      remaining `n - n // 2 - 1`. */
  lemma BalancedSplit(values: seq<int>)
    requires values != []
    ensures Size(BuildBalanced(values).left) == |values| / 2
    ensures Size(BuildBalanced(values).right) == |values| - |values| / 2 - 1
  {
  }

  /** Number of binary digits of `n`, which is ⌈log2(n + 1)⌉. */
  function BitLength(n: nat): (r: nat)
    ensures n > 0 ==> r > 0
  {
    if n == 0 then 0 else 1 + BitLength(n / 2)
  }

  function Pow2(k: nat): (r: nat)
    ensures r > 0
  {
    if k == 0 then 1 else 2 * Pow2(k - 1)
  }

  /** `BitLength(n)` is the least `k` with `n < 2^k`. */
  lemma {:induction false} BitLengthBounds(n: nat)
    ensures n < Pow2(BitLength(n))
    ensures n > 0 ==> Pow2(BitLength(n) - 1) <= n
  {
    if n > 0 {
      BitLengthBounds(n / 2);
    }
  }

  lemma {:induction false} BitLengthMonotone(m: nat, n: nat)
    requires m <= n
    ensures BitLength(m) <= BitLength(n)
  {
    if m > 0 {
      BitLengthMonotone(m / 2, n / 2);
    }
  }

  /** The balanced tree over `n` values has height ⌈log2(n + 1)⌉, the least
      possible for `n` nodes. */
  lemma {:induction false} BalancedHeight(values: seq<int>)
    ensures Height(BuildBalanced(values)) == BitLength(|values|)
    decreases |values|
  {
    if values != [] {
      var n, mid := |values|, |values| / 2;
      var left, right := values[..mid], values[mid + 1..];
      BalancedHeight(left);
      BalancedHeight(right);
      BitLengthHalf(n);
      var t := BuildBalanced(values);
      assert t == Node(BuildBalanced(left), values[mid], BuildBalanced(right));
      assert |left| == mid && |right| == n - mid - 1;
      HigherLeft(t);
    }
  }

  /** A node whose left subtree is at least as high as its right one is one
      level higher than its left subtree. */
  lemma HigherLeft(t: Tree)
    requires t.Node? && Height(t.right) <= Height(t.left)
    ensures Height(t) == 1 + Height(t.left)
  {
  }

  /** Of the two halves around the middle, the right one is never longer, and
      the bit length grows by one from the left half to the whole. */
  lemma BitLengthHalf(n: nat)
    requires n > 0
    ensures BitLength(n - n / 2 - 1) <= BitLength(n / 2)
    ensures BitLength(n) == 1 + BitLength(n / 2)
  {
    BitLengthMonotone(n - n / 2 - 1, n / 2);
  }

  /** A tree of height `h` holds fewer than `2^h` values, so no tree over the same
      values is lower than the balanced one. */
  lemma {:induction false} SizeBelowPow2(t: Tree)
    ensures Size(t) < Pow2(Height(t))
  {
    match t
    case Nil =>
    case Node(l, _, r) =>
      SizeBelowPow2(l);
      SizeBelowPow2(r);
      Pow2Monotone(Height(l), Height(t) - 1);
      Pow2Monotone(Height(r), Height(t) - 1);
  }

  lemma {:induction false} Pow2Monotone(j: nat, k: nat)
    requires j <= k
    ensures Pow2(j) <= Pow2(k)
    decreases k
  {
    if j < k {
      Pow2Monotone(j, k - 1);
    }
  }

  lemma BalancedIsLowest(values: seq<int>, t: Tree)
    requires Size(t) == |values|
    ensures Height(BuildBalanced(values)) <= Height(t)
  {
    BalancedHeight(values);
    SizeBelowPow2(t);
    BitLengthLeast(|values|, Height(t));
  }

  /** Any `h` with `n < 2^h` is at least `BitLength(n)`. */
  lemma BitLengthLeast(n: nat, h: nat)
    requires n < Pow2(h)
    ensures BitLength(n) <= h
  {
    if n > 0 {
      BitLengthBounds(n);
      if h < BitLength(n) {
        Pow2Monotone(h, BitLength(n) - 1);
      }
    }
  }

  // ---------------------------------------------------------------- the distinct values

  /** `list(set(values))`: each value once. Python's set order is left to the
      implementation; the first occurrences are kept here, in order. */
  function Dedupe(values: seq<int>): (r: seq<int>)
    ensures Distinct(r)
    ensures forall x :: x in r <==> x in values
  {
    if values == [] then []
    else
      var init := Dedupe(values[..|values| - 1]);
      var last := values[|values| - 1];
      assert forall x :: x in values <==> x in values[..|values| - 1] || x == last by {
        assert values == values[..|values| - 1] + [last];
      }
      if last in init then init else init + [last]
  }

  /** A sorted permutation of a list without repetitions is strictly ascending. */
  lemma SortedDistinctAscending(s: seq<int>, d: seq<int>)
    requires MergeSort.IsSorted(s) && Distinct(d) && multiset(s) == multiset(d)
    ensures StrictlyAscending(s)
  {
    forall i, j | 0 <= i < j < |s|
      ensures s[i] < s[j]
    {
      if s[i] == s[j] {
        OccursTwice(s, i, j);
        DistinctCount(d, s[i]);
      }
    }
  }

  /** Behind the head of a strictly ascending list come exactly its other values. */
  lemma AscendingTail(a: seq<int>)
    requires StrictlyAscending(a) && a != []
    ensures forall x :: x in a[1..] <==> x in a && x != a[0]
  {
    assert a == [a[0]] + a[1..];
  }

  lemma AscendingHead(a: seq<int>, x: int)
    requires StrictlyAscending(a) && x in a
    ensures a[0] <= x
  {
    var k :| 0 <= k < |a| && a[k] == x;
  }

  /** Two strictly ascending lists holding the same values are equal. */
  lemma {:induction false} AscendingUnique(a: seq<int>, b: seq<int>)
    requires StrictlyAscending(a) && StrictlyAscending(b)
    requires forall x :: x in a <==> x in b
    ensures a == b
  {
    if a != [] {
      var y := a[0];
      assert y in b;
    }
    if b != [] {
      var y := b[0];
      assert y in a;
    }
    if a != [] {
      assert a[0] == b[0] by {
        AscendingHead(a, b[0]);
        AscendingHead(b, a[0]);
      }
      AscendingTail(a);
      AscendingTail(b);
      AscendingUnique(a[1..], b[1..]);
      assert a == [a[0]] + a[1..];
      assert b == [b[0]] + b[1..];
    }
  }

  /** The sorted distinct values are strictly ascending and are the input's values. */
  lemma SortedDistinct(values: seq<int>)
    ensures StrictlyAscending(MergeSort.MergeSortOf(Dedupe(values)))
    ensures forall x :: x in MergeSort.MergeSortOf(Dedupe(values)) <==> x in values
  {
    var d := Dedupe(values);
    var sortedValues := MergeSort.MergeSortOf(d);
    MergeSort.MergeSortOfSorted(d);
    MergeSort.MergeSortOfPermutes(d);
    SortedDistinctAscending(sortedValues, d);
    forall x
      ensures x in sortedValues <==> x in values
    {
      assert x in sortedValues <==> x in multiset(sortedValues);
      assert x in d <==> x in multiset(d);
    }
  }

  /** What `build_balanced_tree` hangs under the root: the balanced tree over the
      sorted distinct values. */
  function BalancedOf(values: seq<int>): (r: Tree)
    ensures IsBst(r)
    ensures forall x :: x in Elements(r) <==> x in values
    ensures InOrder(r) == MergeSort.MergeSortOf(Dedupe(values))
  {
    var sortedValues := MergeSort.MergeSortOf(Dedupe(values));
    SortedDistinct(values);
    BalancedInOrder(sortedValues);
    AscendingIsBst(BuildBalanced(sortedValues));
    InOrderElements(BuildBalanced(sortedValues));
    BuildBalanced(sortedValues)
  }

  /** Built by one-at-a-time insertion or balanced, from the same values the
      in-order traversal is the same: the sorted distinct values. */
  lemma BuildOrdersAgree(values: seq<int>)
    ensures InOrder(InsertAll(Nil, values)) == InOrder(BalancedOf(values))
  {
    var t, b := InsertAll(Nil, values), BalancedOf(values);
    InOrderAscending(t);
    InOrderAscending(b);
    InOrderElements(t);
    InOrderElements(b);
    AscendingUnique(InOrder(t), InOrder(b));
  }

  // ---------------------------------------------------------------- the object

  /** `BinarySearchTree`: holds the root of the current tree. */
  class BinarySearchTree {
    var root: Tree

    ghost predicate Valid()
      reads this
    {
      IsBst(root)
    }

    /** `__init__`: an empty tree. */
    constructor()
      ensures Valid() && root == Nil
    {
      root := Nil;
    }

    /** `add_node`: on an empty tree the value becomes the root, otherwise it is
        inserted below it. */
    method AddNode(value: int)
      requires Valid()
      modifies this
      ensures Valid()
      ensures root == Insert(old(root), value)
      ensures Elements(root) == Elements(old(root)) + {value}
    {
      root := Insert(root, value);
    }

    /** `build_tree`: `add_node` for each value in turn. */
    method BuildTree(values: seq<int>)
      requires Valid()
      modifies this
      ensures Valid()
      ensures root == InsertAll(old(root), values)
    {
      var i := 0;
      while i < |values|
        invariant 0 <= i <= |values|
        invariant root == InsertAll(old(root), values[..i])
        invariant Valid()
      {
        assert values[..i + 1][..i] == values[..i];
        AddNode(values[i]);
        i := i + 1;
      }
      assert values[..i] == values;
    }

    /** `pre_order_traversal()`: on an empty tree the first `node.value` fails. */
    function PreOrderTraversal(): (r: Completion<seq<int>>)
      reads this
      ensures r.Raised? <==> root == Nil
      ensures r.Normal? ==> |r.value| == Size(root) && r.value[0] == root.value
    {
      if root == Nil then Raised("AttributeError") else Normal(PreOrder(root))
    }

    /** `in_order_traversal()`: the values in ascending order. */
    function InOrderTraversal(): (r: Completion<seq<int>>)
      requires Valid()
      reads this
      ensures r.Raised? <==> root == Nil
      ensures r.Normal? ==> StrictlyAscending(r.value)
      ensures r.Normal? ==> forall x :: x in r.value <==> x in Elements(root)
    {
      if root == Nil then Raised("AttributeError")
      else
        InOrderAscending(root);
        InOrderElements(root);
        Normal(InOrder(root))
    }

    /** `post_order_traversal()`: the root comes last. */
    function PostOrderTraversal(): (r: Completion<seq<int>>)
      reads this
      ensures r.Raised? <==> root == Nil
      ensures r.Normal? ==> |r.value| == Size(root) && r.value[|r.value| - 1] == root.value
    {
      if root == Nil then Raised("AttributeError") else Normal(PostOrder(root))
    }

    /** `build_balanced_tree`: drop repeats, merge sort, and replace the whole tree
        by the balanced one. */
    method BuildBalancedTree(values: seq<int>)
      modifies this
      ensures Valid()
      ensures root == BalancedOf(values)
    {
      var distinct := Dedupe(values);
      var sortedValues := MergeSort.Sort(distinct);
      root := BuildBalanced(sortedValues);
      assert root == BalancedOf(values);
    }
  }

  /** The sample [5, 3, 8, 1, 4] inserted in turn: 5 at the root, 3 and 8 below
      it, 1 and 4 below 3. */
  lemma SampleTree()
    ensures InsertAll(Nil, [5, 3, 8, 1, 4])
         == Node(Node(Node(Nil, 1, Nil), 3, Node(Nil, 4, Nil)), 5, Node(Nil, 8, Nil))
  {
    var leaf1, leaf4, leaf8 := Node(Nil, 1, Nil), Node(Nil, 4, Nil), Node(Nil, 8, Nil);
    assert [5][..0] == [];
    assert InsertAll(Nil, [5]) == Node(Nil, 5, Nil);
    assert [5, 3][..1] == [5];
    assert InsertAll(Nil, [5, 3]) == Node(Node(Nil, 3, Nil), 5, Nil);
    assert [5, 3, 8][..2] == [5, 3];
    assert InsertAll(Nil, [5, 3, 8]) == Node(Node(Nil, 3, Nil), 5, leaf8);
    assert [5, 3, 8, 1][..3] == [5, 3, 8];
    assert InsertAll(Nil, [5, 3, 8, 1]) == Node(Node(leaf1, 3, Nil), 5, leaf8);
    assert [5, 3, 8, 1, 4][..4] == [5, 3, 8, 1];
  }

  /** Its traversals. */
  lemma SampleTraversals()
    ensures var t := Node(Node(Node(Nil, 1, Nil), 3, Node(Nil, 4, Nil)), 5, Node(Nil, 8, Nil));
      PreOrder(t) == [5, 3, 1, 4, 8] && InOrder(t) == [1, 3, 4, 5, 8] && PostOrder(t) == [1, 4, 3, 8, 5]
  {
  }
}
