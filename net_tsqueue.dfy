/** tsqueue<T> of NetCommon/net_tsqueue.hpp, with its sequential meaning:
    a double-ended queue whose every operation runs under one lock.  The
    lock, the condition variable and the blocking wait() are not modelled;
    `items` is the deque, front first. */
module NetTsQueue {

  class TsQueue<T> {
    var items: seq<T>

    constructor ()
      ensures items == []
    {
      items := [];
    }

    /** front(): the first item; the deque must not be empty. */
    method Front() returns (x: T)
      requires items != []
      ensures x == items[0]
    {
      x := items[0];
    }

    /** back(): the last item; the deque must not be empty. */
    method Back() returns (x: T)
      requires items != []
      ensures x == items[|items| - 1]
    {
      x := items[|items| - 1];
    }

    /** pop_front(): removes and returns the first item. */
    method PopFront() returns (x: T)
      requires items != []
      modifies this
      ensures x == old(items[0]) && items == old(items[1..])
    {
      x := items[0];
      items := items[1..];
    }

    /** pop_back(): removes and returns the last item. */
    method PopBack() returns (x: T)
      requires items != []
      modifies this
      ensures x == old(items[|items| - 1]) && items == old(items[..|items| - 1])
    {
      x := items[|items| - 1];
      items := items[..|items| - 1];
    }

    /** push_back(item): the item goes last, the others keep their order. */
    method PushBack(x: T)
      modifies this
      ensures items == old(items) + [x]
    {
      items := items + [x];
    }

    /** push_front(item): the item goes first, the others keep their order. */
    method PushFront(x: T)
      modifies this
      ensures items == [x] + old(items)
    {
      items := [x] + items;
    }

    /** empty() */
    method Empty() returns (b: bool)
      ensures b <==> |items| == 0
    {
      b := items == [];
    }

    /** count() */
    method Count() returns (n: nat)
      ensures n == |items| && (n == 0 <==> items == [])
    {
      n := |items|;
    }

    /** clear() */
    method Clear()
      modifies this
      ensures items == []
    {
      items := [];
    }
  }

  /** Items pushed with push_back come out of pop_front in push order: a
      fresh queue fed with `xs` and then drained until empty() yields `xs`. */
  method FifoOrder<T>(xs: seq<T>) returns (ys: seq<T>)
    ensures ys == xs
  {
    var q := new TsQueue<T>();
    var i := 0;
    while i < |xs|
      invariant 0 <= i <= |xs|
      invariant q.items == xs[..i]
    {
      q.PushBack(xs[i]);
      i := i + 1;
    }
    ys := [];
    var empty := q.Empty();
    while !empty
      invariant ys + q.items == xs
      invariant empty <==> q.items == []
      decreases |q.items|
    {
      var y := q.PopFront();
      ys := ys + [y];
      empty := q.Empty();
    }
  }
}
