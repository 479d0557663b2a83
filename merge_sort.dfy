/** `MergeSort` of merge_sort.py: a top-down merge sort over integers.
    `MergeSortOf` and `Merged` are the recursive definitions; the methods `Sort`
    and `Merge` follow the source's recursion and its two-pointer loop and are
    proved equal to them. */
module MergeSort {

  /** Non-decreasing. */
  predicate IsSorted(s: seq<int>) {
    forall i, j :: 0 <= i < j < |s| ==> s[i] <= s[j]
  }

  /** The merge as a recursive definition: the left head is taken only when it is
      strictly smaller than the right head, so on equal heads the right one goes first. */
  function Merged(left: seq<int>, right: seq<int>): (r: seq<int>)
    ensures |r| == |left| + |right|
  {
    if left == [] then right
    else if right == [] then left
    else if left[0] < right[0] then [left[0]] + Merged(left[1..], right)
    else [right[0]] + Merged(left, right[1..])
  }

  /** The merge keeps every element of both lists, and nothing else. */
  lemma {:induction false} MergedPermutes(left: seq<int>, right: seq<int>)
    ensures multiset(Merged(left, right)) == multiset(left) + multiset(right)
  {
    if left != [] && right != [] {
      if left[0] < right[0] {
        MergedPermutes(left[1..], right);
        assert left == [left[0]] + left[1..];
      } else {
        MergedPermutes(left, right[1..]);
        assert right == [right[0]] + right[1..];
      }
    }
  }

  /** The sort as a recursive definition: split at `len // 2`, sort both halves, merge. */
  function MergeSortOf(s: seq<int>): (r: seq<int>)
    ensures |r| == |s|
  {
    if |s| <= 1 then s
    else
      var mid := |s| / 2;
      Merged(MergeSortOf(s[..mid]), MergeSortOf(s[mid..]))
  }

  /** The sort returns a permutation of its argument. */
  lemma {:induction false} MergeSortOfPermutes(s: seq<int>)
    ensures multiset(MergeSortOf(s)) == multiset(s)
  {
    if |s| > 1 {
      var mid := |s| / 2;
      var left, right := s[..mid], s[mid..];
      assert multiset(s) == multiset(left) + multiset(right) by {
        assert s == left + right;
      }
      MergeSortOfPermutes(left);
      MergeSortOfPermutes(right);
      MergedPermutes(MergeSortOf(left), MergeSortOf(right));
    }
  }

  /** Every element is at least `x`. */
  predicate AllAtLeast(s: seq<int>, x: int) {
    forall k :: 0 <= k < |s| ==> x <= s[k]
  }

  /** A lower bound of both lists bounds their merge. */
  lemma {:induction false} MergedAtLeast(left: seq<int>, right: seq<int>, x: int)
    requires AllAtLeast(left, x) && AllAtLeast(right, x)
    ensures AllAtLeast(Merged(left, right), x)
  {
    if left != [] && right != [] {
      if left[0] < right[0] {
        MergedAtLeast(left[1..], right, x);
      } else {
        MergedAtLeast(left, right[1..], x);
      }
    }
  }

  /** The merge of two sorted lists is sorted. */
  lemma {:induction false} MergedSorted(left: seq<int>, right: seq<int>)
    requires IsSorted(left) && IsSorted(right)
    ensures IsSorted(Merged(left, right))
  {
    if left != [] && right != [] {
      if left[0] < right[0] {
        MergedSorted(left[1..], right);
        MergedAtLeast(left[1..], right, left[0]);
      } else {
        MergedSorted(left, right[1..]);
        MergedAtLeast(left, right[1..], right[0]);
      }
    }
  }

  /** On equal heads the merge emits the right head first. On lists of `int`
      the two equal heads are the same value, so which side a tie came from
      cannot be seen in the merged list; the lemma records how the strict
      comparison routes it. */
  lemma MergeTieTakesRight(left: seq<int>, right: seq<int>)
    requires left != [] && right != [] && left[0] == right[0]
    ensures Merged(left, right) == [right[0]] + Merged(left, right[1..])
  {
  }

  /** Lists of length 0 or 1 come back unchanged. */
  lemma SortShortIsIdentity(s: seq<int>)
    requires |s| <= 1
    ensures MergeSortOf(s) == s
  {
  }

  /** For a list of length at least 2, both halves are strictly shorter. */
  lemma HalvesShorter(s: seq<int>)
    requires |s| >= 2
    ensures 0 < |s[..|s| / 2]| < |s| && 0 < |s[|s| / 2..]| < |s|
  {
  }

  lemma {:induction false} MergeSortOfSorted(s: seq<int>)
    ensures IsSorted(MergeSortOf(s))
  {
    if |s| > 1 {
      var mid := |s| / 2;
      MergeSortOfSorted(s[..mid]);
      MergeSortOfSorted(s[mid..]);
      MergedSorted(MergeSortOf(s[..mid]), MergeSortOf(s[mid..]));
    }
  }

  lemma HeadIsLeast(s: seq<int>, x: int)
    requires IsSorted(s) && x in multiset(s)
    ensures s != [] && s[0] <= x
  {
    var j :| 0 <= j < |s| && s[j] == x;
  }

  lemma TailMultiset(s: seq<int>)
    requires s != []
    ensures multiset(s[1..]) == multiset(s) - multiset{s[0]}
  {
    assert s == [s[0]] + s[1..];
  }

  /** Two sorted lists with the same elements are equal. */
  lemma {:induction false} SortedUnique(a: seq<int>, b: seq<int>)
    requires IsSorted(a) && IsSorted(b) && multiset(a) == multiset(b)
    ensures a == b
  {
    if a == [] {
      assert |b| == |multiset(b)| == 0;
    } else {
      assert b != [] && a[0] == b[0] by {
        assert a[0] in multiset(b);
        HeadIsLeast(b, a[0]);
        HeadIsLeast(a, b[0]);
      }
      assert multiset(a[1..]) == multiset(b[1..]) by {
        TailMultiset(a);
        TailMultiset(b);
      }
      SortedUnique(a[1..], b[1..]);
      assert a == [a[0]] + a[1..];
      assert b == [b[0]] + b[1..];
    }
  }

  /** Sorting an already sorted list returns it unchanged; in particular
      sorting is idempotent. */
  lemma SortOfSortedIsIdentity(s: seq<int>)
    requires IsSorted(s)
    ensures MergeSortOf(s) == s
  {
    MergeSortOfSorted(s);
    MergeSortOfPermutes(s);
    SortedUnique(MergeSortOf(s), s);
  }

  lemma SortIdempotent(s: seq<int>)
    ensures MergeSortOf(MergeSortOf(s)) == MergeSortOf(s)
  {
    MergeSortOfSorted(s);
    SortOfSortedIsIdentity(MergeSortOf(s));
  }

  /** One step of the two-pointer loop keeps `done + Merged(rest) == Merged(left, right)`. */
  lemma MergeStep(left: seq<int>, right: seq<int>, done: seq<int>, i: nat, j: nat)
    requires i < |left| && j < |right|
    requires done + Merged(left[i..], right[j..]) == Merged(left, right)
    ensures left[i] < right[j] ==>
      (done + [left[i]]) + Merged(left[i + 1..], right[j..]) == Merged(left, right)
    ensures !(left[i] < right[j]) ==>
      (done + [right[j]]) + Merged(left[i..], right[j + 1..]) == Merged(left, right)
  {
    var a, b := left[i..], right[j..];
    assert a[0] == left[i] && a[1..] == left[i + 1..];
    assert b[0] == right[j] && b[1..] == right[j + 1..];
    if left[i] < right[j] {
      var m := Merged(left[i + 1..], right[j..]);
      assert Merged(a, b) == [left[i]] + m;
      assert (done + [left[i]]) + m == done + ([left[i]] + m);
    } else {
      var m := Merged(left[i..], right[j + 1..]);
      assert Merged(a, b) == [right[j]] + m;
      assert (done + [right[j]]) + m == done + ([right[j]] + m);
    }
  }

  /** Once one list is exhausted, the merge is the leftovers of both, in order. */
  lemma MergeFinish(left: seq<int>, right: seq<int>, done: seq<int>, i: nat, j: nat)
    requires i <= |left| && j <= |right| && (i == |left| || j == |right|)
    requires done + Merged(left[i..], right[j..]) == Merged(left, right)
    ensures done + left[i..] + right[j..] == Merged(left, right)
  {
    if i == |left| {
      assert left[i..] == [];
    } else {
      assert right[j..] == [];
    }
  }

  /** `MergeSort._merge`: the two-pointer loop, then the leftovers of both lists. */
  method Merge(left: seq<int>, right: seq<int>) returns (result: seq<int>)
    ensures result == Merged(left, right)
  {
    result := [];
    var leftIndex, rightIndex := 0, 0;
    while leftIndex < |left| && rightIndex < |right|
      invariant 0 <= leftIndex <= |left| && 0 <= rightIndex <= |right|
      invariant result + Merged(left[leftIndex..], right[rightIndex..]) == Merged(left, right)
    {
      MergeStep(left, right, result, leftIndex, rightIndex);
      if left[leftIndex] < right[rightIndex] {
        result := result + [left[leftIndex]];
        leftIndex := leftIndex + 1;
      } else {
        result := result + [right[rightIndex]];
        rightIndex := rightIndex + 1;
      }
    }
    MergeFinish(left, right, result, leftIndex, rightIndex);
    result := result + left[leftIndex..];
    result := result + right[rightIndex..];
  }

  /** `MergeSort.sort`: returns a sorted permutation of its argument. */
  method Sort(list: seq<int>) returns (sorted: seq<int>)
    ensures sorted == MergeSortOf(list)
    ensures IsSorted(sorted) && multiset(sorted) == multiset(list)
    decreases |list|
  {
    MergeSortOfSorted(list);
    MergeSortOfPermutes(list);
    if |list| <= 1 {
      return list;
    }
    var mid := |list| / 2;
    var leftHalf := list[..mid];
    var rightHalf := list[mid..];
    leftHalf := Sort(leftHalf);
    rightHalf := Sort(rightHalf);
    sorted := Merge(leftHalf, rightHalf);
  }
}
