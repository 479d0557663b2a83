/** The bounded containers of queues.py: a FIFO `Queue` over a list, a
    `PriorityQueue` keyed by the integer in front of each item's first `-`, a
    `CircularQueue` over a fixed-length array, and a LIFO `Stack` with its padded
    display view. Every insert on a full container answers `False` and changes
    nothing; `Stack.pop`/`peek` answer `None` on an empty stack where the queues
    answer `False`. */
module Queues {
  import opened Common
  import opened Text

  // ================================================================ Queue

  /** `Queue`: items in arrival order; `front` stays 0 and `rear` indexes the last item. */
  class Queue<T> {
    var queue: seq<T>
    const maxSize: nat
    var front: int
    var rear: int

    ghost predicate Valid()
      reads this
    {
      front == 0 && rear == |queue| - 1 && |queue| <= maxSize
    }

    constructor(maxSize: nat)
      ensures Valid() && queue == [] && this.maxSize == maxSize
    {
      queue := [];
      this.maxSize := maxSize;
      front := 0;
      rear := -1;
    }

    /** `is_empty` */
    function IsEmpty(): (b: bool)
      reads this
      ensures b <==> queue == []
    {
      |queue| == 0
    }

    /** `is_full`: the length has reached `max_size`. */
    function IsFull(): (b: bool)
      reads this
      requires Valid()
      ensures b <==> !(|queue| < maxSize)
    {
      |queue| == maxSize
    }

    /** `size` */
    function Size(): (n: nat)
      reads this
      requires Valid()
      ensures n <= maxSize && (n == 0 <==> IsEmpty())
    {
      |queue|
    }

    /** `peek`: the item that the next `dequeue` removes, or `False`. */
    function Peek(): (r: Outcome<T>)
      reads this
      ensures r == ReturnedFalse <==> queue == []
      ensures r.Returned? ==> r.item == queue[0]
    {
      if IsEmpty() then ReturnedFalse else Returned(queue[0])
    }

    /** `enqueue`: on a full queue `False` and no change; otherwise the item goes
        to the back and is returned. */
    method Enqueue(item: T) returns (r: Outcome<T>)
      requires Valid()
      modifies this
      ensures Valid()
      ensures old(IsFull()) ==> r == ReturnedFalse && queue == old(queue)
      ensures !old(IsFull()) ==> r == Returned(item) && queue == old(queue) + [item]
    {
      if IsFull() {
        return ReturnedFalse;
      }
      queue := queue + [item];
      rear := rear + 1;
      r := Returned(item);
    }

    /** `dequeue`: on an empty queue `False`; otherwise the front item is removed
        and returned, which is what `peek` showed. */
    method Dequeue() returns (r: Outcome<T>)
      requires Valid()
      modifies this
      ensures Valid()
      ensures r == old(Peek())
      ensures queue == if old(queue) == [] then old(queue) else old(queue)[1..]
    {
      if IsEmpty() {
        return ReturnedFalse;
      }
      rear := rear - 1;
      r := Returned(queue[0]);
      queue := queue[1..];
    }
  }

  /** FIFO: items enqueued into an empty queue with room for them all come out in
      the order they went in. */
  method QueueFifo<T>(maxSize: nat, items: seq<T>) returns (out: seq<T>)
    requires |items| <= maxSize
    ensures out == items
  {
    var q := new Queue<T>(maxSize);
    var i := 0;
    while i < |items|
      invariant 0 <= i <= |items|
      invariant q.Valid() && q.maxSize == maxSize && q.queue == items[..i]
    {
      var _ := q.Enqueue(items[i]);
      assert items[..i + 1] == items[..i] + [items[i]];
      i := i + 1;
    }
    out := [];
    while !q.IsEmpty()
      invariant q.Valid() && out + q.queue == items
      decreases |q.queue|
    {
      var r := q.Dequeue();
      out := out + [r.item];
    }
  }

  // ================================================================ PriorityQueue

  /** A `(priority, item)` pair as the heap stores it. */
  datatype Entry = Entry(priority: int, item: string)

  /** Python's tuple order on `(priority, item)`: by priority, then by the item string. */
  predicate EntryLess(a: Entry, b: Entry) {
    a.priority < b.priority || (a.priority == b.priority && StrLess(a.item, b.item))
  }

  predicate EntryLessEq(a: Entry, b: Entry) {
    a == b || EntryLess(a, b)
  }

  lemma EntryLessEqTransitive(a: Entry, b: Entry, c: Entry)
    requires EntryLessEq(a, b) && EntryLessEq(b, c)
    ensures EntryLessEq(a, c)
  {
    if a != b && b != c && a.priority == b.priority == c.priority {
      StrLessTransitive(a.item, b.item, c.item);
    }
  }

  lemma EntryLessEqTotal(a: Entry, b: Entry)
    ensures EntryLessEq(a, b) || EntryLessEq(b, a)
  {
    StrLessTotal(a.item, b.item);
  }

  predicate EntriesSorted(s: seq<Entry>) {
    forall i, j :: 0 <= i < j < |s| ==> EntryLessEq(s[i], s[j])
  }

  /** `heappush`, seen from outside: the heap's entries in ascending order, with
      the new entry placed after every entry not greater than it. */
  function InsertEntry(e: Entry, s: seq<Entry>): (r: seq<Entry>)
    ensures |r| == |s| + 1
    ensures multiset(r) == multiset(s) + multiset{e}
  {
    if s == [] then [e]
    else if EntryLessEq(s[0], e) then
      assert s == [s[0]] + s[1..];
      [s[0]] + InsertEntry(e, s[1..])
    else [e] + s
  }

  /** Pushing keeps the entries in ascending order. */
  lemma {:induction false} InsertEntrySorted(e: Entry, s: seq<Entry>)
    requires EntriesSorted(s)
    ensures EntriesSorted(InsertEntry(e, s))
  {
    var r := InsertEntry(e, s);
    if s != [] && EntryLessEq(s[0], e) {
      InsertEntrySorted(e, s[1..]);
      forall j | 0 < j < |r|
        ensures EntryLessEq(r[0], r[j])
      {
        assert r[j] in multiset(InsertEntry(e, s[1..]));
        if r[j] != e {
          var k :| 1 <= k < |s| && s[k] == r[j];
        }
      }
    } else if s != [] {
      EntryLessEqTotal(s[0], e);
      forall j | 0 < j < |r|
        ensures EntryLessEq(r[0], r[j])
      {
        EntryLessEqTransitive(e, s[0], r[j]);
      }
    }
  }

  /** The priority that `int(item.split("-")[0])` reads, or `None` for its ValueError. */
  function PriorityOf(item: string): Option<int> {
    ParseInt(Split(item, '-')[0])
  }

  /** `PriorityQueue`: a `Queue` whose list is a binary heap of `(priority, item)`
      pairs. The heap is represented by its entries in ascending order, so its
      root is `entries[0]`. */
  class PriorityQueue {
    var entries: seq<Entry>
    const maxSize: nat
    var front: int
    var rear: int

    ghost predicate Valid()
      reads this
    {
      front == 0 && rear == |entries| - 1 && |entries| <= maxSize && EntriesSorted(entries)
    }

    constructor(maxSize: nat)
      ensures Valid() && entries == [] && this.maxSize == maxSize
    {
      entries := [];
      this.maxSize := maxSize;
      front := 0;
      rear := -1;
    }

    function IsEmpty(): (b: bool)
      reads this
      ensures b <==> entries == []
    {
      |entries| == 0
    }

    function IsFull(): (b: bool)
      reads this
      requires Valid()
      ensures b <==> !(|entries| < maxSize)
    {
      |entries| == maxSize
    }

    function Size(): (n: nat)
      reads this
      requires Valid()
      ensures n <= maxSize && (n == 0 <==> IsEmpty())
    {
      |entries|
    }

    /** `enqueue`: the priority is parsed first, so a malformed item raises
        ValueError even on a full queue; then a full queue answers `False`;
        otherwise the pair is pushed and the item returned. */
    method Enqueue(item: string) returns (r: Completion<Outcome<string>>)
      requires Valid()
      modifies this
      ensures Valid()
      ensures PriorityOf(item).None? ==> r == Raised("ValueError") && entries == old(entries)
      ensures PriorityOf(item).Some? && old(IsFull()) ==>
        r == Normal(ReturnedFalse) && entries == old(entries)
      ensures PriorityOf(item).Some? && !old(IsFull()) ==>
        r == Normal(Returned(item)) &&
        entries == InsertEntry(Entry(PriorityOf(item).value, item), old(entries)) &&
        multiset(entries) == multiset(old(entries)) + multiset{Entry(PriorityOf(item).value, item)}
    {
      var parts := Split(item, '-');
      var priority := ParseInt(parts[0]);
      if priority.None? {
        return Raised("ValueError");
      }
      if IsFull() {
        return Normal(ReturnedFalse);
      }
      rear := rear + 1;
      InsertEntrySorted(Entry(priority.value, item), entries);
      entries := InsertEntry(Entry(priority.value, item), entries);
      r := Normal(Returned(item));
    }

    /** `dequeue`: on an empty queue `False`; otherwise the item of the least
        `(priority, item)` pair is removed and returned. */
    method Dequeue() returns (r: Outcome<string>)
      requires Valid()
      modifies this
      ensures Valid()
      ensures old(entries) == [] ==> r == ReturnedFalse && entries == old(entries)
      ensures old(entries) != [] ==>
        r == Returned(old(entries)[0].item) &&
        (forall e :: e in old(entries) ==> EntryLessEq(old(entries)[0], e)) &&
        entries == old(entries)[1..]
    {
      if IsEmpty() {
        return ReturnedFalse;
      }
      var least := entries[0];
      entries := entries[1..];
      rear := rear - 1;
      r := Returned(least.item);
    }

    /** `peek`: `False`, or the least pair written as "<item> with priority <priority>". */
    function Peek(): (r: Outcome<string>)
      reads this
      requires Valid()
      ensures r == ReturnedFalse <==> entries == []
      ensures r.Returned? ==>
        r.item == entries[0].item + " with priority " + IntToString(entries[0].priority) &&
        forall e :: e in entries ==> EntryLessEq(entries[0], e)
    {
      if IsEmpty() then ReturnedFalse
      else Returned(entries[0].item + " with priority " + IntToString(entries[0].priority))
    }
  }

  /** An item written as a natural number, a `-` and any text has that number
      as its priority, whatever the text holds. */
  lemma PriorityOfPrefix(n: nat, rest: string)
    ensures PriorityOf(NatToString(n) + "-" + rest) == Some(n)
  {
    var digits := NatToString(n);
    var item := digits + "-" + rest;
    assert item[|digits|] == '-' && item[..|digits|] == digits;
    SplitHead(item, '-', |digits|);
    ParseIntRoundTrip(n);
  }

  /** The priorities of the sample items. */
  lemma SamplePriorities()
    ensures PriorityOf("5-x") == Some(5) && PriorityOf("1-y") == Some(1) && PriorityOf("3-z") == Some(3)
  {
    PriorityOfPrefix(5, "x");
    assert NatToString(5) + "-" + "x" == "5-x";
    PriorityOfPrefix(1, "y");
    assert NatToString(1) + "-" + "y" == "1-y";
    PriorityOfPrefix(3, "z");
    assert NatToString(3) + "-" + "z" == "3-z";
  }

  /** Pushing the sample entries (5, "5-x"), (1, "1-y"), (3, "3-z") in that
      order leaves them in ascending priority, so three pops give "1-y", "3-z",
      "5-x". */
  lemma PriorityOrderExample()
    ensures InsertEntry(Entry(3, "3-z"), InsertEntry(Entry(1, "1-y"), InsertEntry(Entry(5, "5-x"), [])))
         == [Entry(1, "1-y"), Entry(3, "3-z"), Entry(5, "5-x")]
  {
    var x, y, z := Entry(5, "5-x"), Entry(1, "1-y"), Entry(3, "3-z");
    assert InsertEntry(y, [x]) == [y, x];
    assert InsertEntry(z, [y, x]) == [y] + InsertEntry(z, [x]) == [y, z, x];
  }

  /** The array index `i` places after `front` in a ring of `n` slots, for `i < n`. */
  function Slot(front: int, i: int, n: int): int {
    if front + i < n then front + i else front + i - n
  }

  lemma SmallMod(x: int, n: int)
    requires 0 <= x < n
    ensures x % n == x
  {
  }

  /** The ring layout: no items and both pointers at -1, or the items stored from
      slot `front` onwards, wrapping past the end, with `rear` at the last one. */
  ghost predicate Ring<T>(slots: seq<Option<T>>, front: int, rear: int, items: seq<T>) {
    var n := |slots|;
    && |items| <= n
    && (items == [] ==> front == -1 && rear == -1)
    && (items != [] ==>
          && 0 <= front < n && 0 <= rear < n
          && rear == Slot(front, |items| - 1, n)
          && forall i :: 0 <= i < |items| ==> slots[Slot(front, i, n)] == Some(items[i]))
  }

  /** `enqueue` on the layout: pointers to 0 on an empty ring, otherwise `rear`
      advances modulo the length; the item is written at the new `rear`. */
  lemma RingEnqueue<T>(slots: seq<Option<T>>, front: int, rear: int, items: seq<T>, x: T)
    requires Ring(slots, front, rear, items) && |items| < |slots|
    ensures var newFront := if items == [] then 0 else front;
            var newRear := if items == [] then 0 else (rear + 1) % |slots|;
            Ring(slots[newRear := Some(x)], newFront, newRear, items + [x])
  {
    var n := |slots|;
    var newFront := if items == [] then 0 else front;
    var newRear := if items == [] then 0 else (rear + 1) % n;
    assert newRear == Slot(newFront, |items|, n);
    var after, held := slots[newRear := Some(x)], items + [x];
    forall i | 0 <= i < |held|
      ensures after[Slot(newFront, i, n)] == Some(held[i])
    {
      if i < |items| {
        assert Slot(newFront, i, n) != newRear;
      }
    }
  }

  /** `dequeue` on the layout: the front item is at slot `front`; the last item
      resets both pointers to -1, otherwise `front` advances modulo the length. */
  lemma RingDequeue<T>(slots: seq<Option<T>>, front: int, rear: int, items: seq<T>)
    requires Ring(slots, front, rear, items) && items != []
    ensures 0 <= front < |slots| && slots[front] == Some(items[0])
    ensures front == rear <==> |items| == 1
    ensures var newFront := if front == rear then -1 else (front + 1) % |slots|;
            var newRear := if front == rear then -1 else rear;
            Ring(slots, newFront, newRear, items[1..])
  {
    var n := |slots|;
    assert slots[Slot(front, 0, n)] == Some(items[0]);
    if front != rear {
      var next := (front + 1) % n;
      assert next == Slot(front, 1, n);
      forall i | 0 <= i < |items| - 1
        ensures slots[Slot(next, i, n)] == Some(items[1..][i])
      {
        assert Slot(next, i, n) == Slot(front, i + 1, n);
      }
    }
  }

  /** `CircularQueue`: a fixed-length array used as a ring. `front` and `rear` are
      both -1 when it is empty; otherwise the items sit from `front` to `rear`,
      wrapping past the end of the array, and `currentSize` counts them. */
  class CircularQueue<T> {
    const maxSize: nat
    const data: array<Option<T>>
    var front: int
    var rear: int
    var currentSize: int
    /** The items from front to rear. */
    ghost var Contents: seq<T>

    ghost predicate Valid()
      reads this, data
    {
      && data.Length == maxSize
      && currentSize == |Contents|
      && Ring(data[..], front, rear, Contents)
    }

    /** `__init__`: an array of `max_size` empty slots and both pointers at -1. */
    constructor(maxSize: nat)
      ensures Valid() && fresh(data) && Contents == [] && this.maxSize == maxSize
      ensures data[..] == seq(maxSize, _ => None)
    {
      this.maxSize := maxSize;
      data := new Option<T>[maxSize](_ => None);
      front, rear := -1, -1;
      currentSize := 0;
      Contents := [];
    }

    /** `is_empty` and `is_full` look at `current_size` only. */
    function IsEmpty(): (b: bool)
      reads this, data
      requires Valid()
      ensures b <==> Contents == []
    {
      currentSize == 0
    }

    function IsFull(): (b: bool)
      reads this, data
      requires Valid()
      ensures b <==> |Contents| == maxSize
    {
      currentSize == maxSize
    }

    function Size(): (n: nat)
      reads this, data
      requires Valid()
      ensures n == |Contents| <= maxSize
    {
      currentSize
    }

    /** `enqueue`: `False` when full; the first item goes to slot 0, every later
        one to the slot after `rear`, wrapping to 0 at the end of the array. */
    method Enqueue(item: T) returns (r: Outcome<T>)
      requires Valid()
      modifies this, data
      ensures Valid()
      ensures old(currentSize) == maxSize ==>
        r == ReturnedFalse && Contents == old(Contents) && data[..] == old(data[..])
        && front == old(front) && rear == old(rear)
      ensures old(currentSize) < maxSize ==>
        && r == Returned(item) && Contents == old(Contents) + [item]
        && rear == (if old(currentSize) == 0 then 0 else (old(rear) + 1) % maxSize)
        && front == (if old(currentSize) == 0 then 0 else old(front))
        && data[..] == old(data[..])[rear := Some(item)]
    {
      if currentSize == maxSize {
        return ReturnedFalse;
      }
      RingEnqueue(data[..], front, rear, Contents, item);
      if currentSize == 0 {
        front, rear := 0, 0;
      } else {
        rear := (rear + 1) % maxSize;
      }
      data[rear] := Some(item);
      currentSize := currentSize + 1;
      Contents := Contents + [item];
      r := Returned(item);
    }

    /** `dequeue`: `False` when empty; the last item resets both pointers to -1,
        otherwise `front` moves one slot on. The array is not written. */
    method Dequeue() returns (r: Outcome<T>)
      requires Valid()
      modifies this
      ensures Valid()
      ensures old(currentSize) == 0 ==> r == ReturnedFalse && Contents == old(Contents)
      ensures old(currentSize) > 0 ==>
        && r == Returned(old(Contents)[0]) && Contents == old(Contents)[1..]
        && rear == (if old(front) == old(rear) then -1 else old(rear))
        && front == (if old(front) == old(rear) then -1 else (old(front) + 1) % maxSize)
    {
      if currentSize == 0 {
        return ReturnedFalse;
      }
      RingDequeue(data[..], front, rear, Contents);
      var item := data[front];
      if front == rear {
        front, rear := -1, -1;
      } else {
        front := (front + 1) % maxSize;
      }
      currentSize := currentSize - 1;
      Contents := Contents[1..];
      r := Returned(item.value);
    }

    /** `peek`: the front item, read from slot `front % max_size`, or `False`. */
    function Peek(): (r: Outcome<T>)
      reads this, data
      requires Valid()
      ensures r == ReturnedFalse <==> Contents == []
      ensures r.Returned? ==> r.item == Contents[0]
    {
      if currentSize == 0 then ReturnedFalse
      else
        RingDequeue(data[..], front, rear, Contents);
        SmallMod(front, maxSize);
        Returned(data[front % maxSize].value)
    }

    /** `rear_item`: the item last enqueued, read from slot `rear`, or `False`. */
    function RearItem(): (r: Outcome<T>)
      reads this, data
      requires Valid()
      ensures r == ReturnedFalse <==> Contents == []
      ensures r.Returned? ==> r.item == Contents[|Contents| - 1]
    {
      if currentSize == 0 then ReturnedFalse
      else
        assert data[..][Slot(front, currentSize - 1, maxSize)] == Some(Contents[currentSize - 1]);
        Returned(data[rear].value)
    }
  }

  /** On a non-empty circular queue the pointers are `current_size - 1` slots
      apart, counted modulo `max_size`. */
  lemma PointerDistance<T>(q: CircularQueue<T>)
    requires q.Valid() && q.currentSize > 0
    ensures (q.rear - q.front) % q.maxSize == q.currentSize - 1
  {
  }

  /** With room for three, after "a", "b", "c" and one dequeue, "d" wraps round
      to slot 0: the array holds d, b, c, `front` is at "b" and `rear` at "d". */
  method WraparoundExample() returns (slots: seq<Option<string>>, front: int, rear: int)
    ensures slots == [Some("d"), Some("b"), Some("c")] && front == 1 && rear == 0
  {
    var q := new CircularQueue<string>(3);
    var _ := q.Enqueue("a");
    var _ := q.Enqueue("b");
    var _ := q.Enqueue("c");
    var _ := q.Dequeue();
    var _ := q.Enqueue("d");
    slots, front, rear := q.data[..], q.front, q.rear;
  }

  /** Enqueuing every item in turn into a queue that starts empty. */
  method FillRing<T>(q: CircularQueue<T>, items: seq<T>)
    requires q.Valid() && q.Contents == [] && |items| <= q.maxSize
    modifies q, q.data
    ensures q.Valid() && q.Contents == items
  {
    var i := 0;
    while i < |items|
      invariant 0 <= i <= |items|
      invariant q.Valid() && q.Contents == items[..i]
    {
      var _ := q.Enqueue(items[i]);
      assert items[..i + 1] == items[..i] + [items[i]];
      i := i + 1;
    }
  }

  /** Dequeuing until the queue is empty. */
  method DrainRing<T>(q: CircularQueue<T>) returns (out: seq<T>)
    requires q.Valid()
    modifies q
    ensures q.Valid() && out == old(q.Contents)
  {
    out := [];
    while q.currentSize > 0
      invariant q.Valid() && out + q.Contents == old(q.Contents)
      decreases q.currentSize
    {
      ghost var before := q.Contents;
      var r := q.Dequeue();
      assert before == [r.item] + q.Contents;
      assert (out + [r.item]) + q.Contents == out + before;
      out := out + [r.item];
    }
  }

  /** FIFO: items enqueued and then dequeued come out in the order they went in. */
  method CircularFifo<T>(maxSize: nat, items: seq<T>) returns (out: seq<T>)
    requires |items| <= maxSize
    ensures out == items
  {
    var q := new CircularQueue<T>(maxSize);
    FillRing(q, items);
    out := DrainRing(q);
  }

  // ================================================================ Stack

  /** `stack[::-1]` wrapped in `Some`, after `[None] * padding_size`. */
  function SomeAll<T>(s: seq<T>): (r: seq<Option<T>>)
    ensures |r| == |s| && forall i :: 0 <= i < |s| ==> r[i] == Some(s[i])
  {
    seq(|s|, i requires 0 <= i < |s| => Some(s[i]))
  }

  /** `Stack`: a list whose end is the top. */
  class Stack<T> {
    var stack: seq<T>
    const maxSize: nat

    ghost predicate Valid()
      reads this
    {
      |stack| <= maxSize
    }

    constructor(maxSize: nat)
      ensures Valid() && stack == [] && this.maxSize == maxSize
    {
      stack := [];
      this.maxSize := maxSize;
    }

    function IsEmpty(): (b: bool)
      reads this
      ensures b <==> stack == []
    {
      |stack| == 0
    }

    function IsFull(): (b: bool)
      reads this
      requires Valid()
      ensures b <==> !(|stack| < maxSize)
    {
      |stack| == maxSize
    }

    function Size(): (n: nat)
      reads this
      requires Valid()
      ensures n <= maxSize && (n == 0 <==> IsEmpty())
    {
      |stack|
    }

    /** `push`: `False` when full, otherwise the item goes on top and is returned. */
    method Push(item: T) returns (r: Outcome<T>)
      requires Valid()
      modifies this
      ensures Valid()
      ensures old(IsFull()) ==> r == ReturnedFalse && stack == old(stack)
      ensures !old(IsFull()) ==> r == Returned(item) && stack == old(stack) + [item]
    {
      if IsFull() {
        return ReturnedFalse;
      }
      stack := stack + [item];
      r := Returned(item);
    }

    /** `pop`: `None` (not `False`) when empty, otherwise the top item, removed;
        it is what `peek` showed. */
    method Pop() returns (r: Option<T>)
      requires Valid()
      modifies this
      ensures Valid()
      ensures r == old(Peek())
      ensures stack == if old(stack) == [] then old(stack) else old(stack)[..|old(stack)| - 1]
    {
      if IsEmpty() {
        return None;
      }
      r := Some(stack[|stack| - 1]);
      stack := stack[..|stack| - 1];
    }

    /** `peek`: `None` when empty, otherwise `stack[-1]`. */
    function Peek(): (r: Option<T>)
      reads this
      ensures r == None <==> stack == []
      ensures r.Some? ==> r.value == stack[|stack| - 1]
    {
      if IsEmpty() then None else PyIndex(stack, -1)
    }

    /** `front`: `(max_size - 1) - (len(stack) - 1)`, the index at which the top
        item shows in the padded view. */
    function Front(): (k: int)
      reads this
      requires Valid()
      ensures 0 <= k <= maxSize && k + Size() == maxSize
    {
      (maxSize - 1) - (|stack| - 1)
    }

    /** `queue`: `max(0, max_size - len)` empty slots, then the items from top to
        bottom, so the top sits at `front` and the bottom at the last index. */
    function QueueView(): (r: seq<Option<T>>)
      reads this
      ensures |r| == if |stack| < maxSize then maxSize else |stack|
      ensures forall i :: 0 <= i < |r| - |stack| ==> r[i] == None
      ensures forall k :: 0 <= k < |stack| ==> r[|r| - 1 - k] == Some(stack[k])
    {
      var paddingSize := if maxSize - |stack| > 0 then maxSize - |stack| else 0;
      var view := seq(paddingSize, _ => None) + Reversed(SomeAll(stack));
      forall k | 0 <= k < |stack|
        ensures view[|view| - 1 - k] == Some(stack[k])
      {
        ReversedAt(SomeAll(stack), |stack| - 1 - k);
      }
      view
    }
  }

  /** In the view of a valid stack the top item is at `front` and the bottom one
      at the last index. */
  lemma ViewEnds<T>(s: Stack<T>)
    requires s.Valid() && s.stack != []
    ensures |s.QueueView()| == s.maxSize
    ensures s.QueueView()[s.Front()] == Some(s.stack[|s.stack| - 1])
    ensures s.QueueView()[s.maxSize - 1] == Some(s.stack[0])
  {
    var r := s.QueueView();
    assert r[|r| - 1 - (|s.stack| - 1)] == Some(s.stack[|s.stack| - 1]);
    assert r[|r| - 1 - 0] == Some(s.stack[0]);
  }

  /** LIFO: items pushed onto an empty stack with room for them all pop off in
      reverse order. */
  method StackLifo<T>(maxSize: nat, items: seq<T>) returns (out: seq<T>)
    requires |items| <= maxSize
    ensures out == Reversed(items)
  {
    var s := new Stack<T>(maxSize);
    var i := 0;
    while i < |items|
      invariant 0 <= i <= |items|
      invariant s.Valid() && s.maxSize == maxSize && s.stack == items[..i]
    {
      var _ := s.Push(items[i]);
      assert items[..i + 1] == items[..i] + [items[i]];
      i := i + 1;
    }
    assert items[..i] == items;
    out := [];
    while !s.IsEmpty()
      invariant s.Valid() && out + Reversed(s.stack) == Reversed(items)
      decreases |s.stack|
    {
      var top := s.stack[|s.stack| - 1];
      assert Reversed(s.stack) == [top] + Reversed(s.stack[..|s.stack| - 1]) by {
        ReversedOfSnoc(s.stack[..|s.stack| - 1], top);
        assert s.stack == s.stack[..|s.stack| - 1] + [top];
      }
      var r := s.Pop();
      out := out + [r.value];
    }
  }
}
