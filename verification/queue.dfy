/** `Queue`: the FIFO of outgoing messages used by the watch bridge. Its
    `next()` drops the head and returns the element AFTER it, so a consumer
    reads the head with `getFirst()` and every later element with `next()`. */
module Queues {
  import opened Wrappers

  datatype Queue<T> = Queue(items: seq<T>)

  function Empty<T>(): (q: Queue<T>)
    ensures Size(q) == 0 && First(q) == None
  {
    Queue([])
  }

  function Size<T>(q: Queue<T>): (n: nat)
    ensures n == 0 <==> q.items == []
  {
    |q.items|
  }

  /** `getFirst()`: the head, or null on an empty queue. */
  function First<T>(q: Queue<T>): (r: Option<T>)
    ensures r.None? <==> Size(q) == 0
    ensures r.Some? ==> r.value == q.items[0]
  {
    if |q.items| == 0 then None else Some(q.items[0])
  }

  /** `add(data, ignoreFirst)`: appends at the end; `ignoreFirst` is accepted
      and not used. */
  function Add<T>(q: Queue<T>, data: T, ignoreFirst: bool): (r: Queue<T>)
    ensures Size(r) == Size(q) + 1
    ensures r.items[..Size(q)] == q.items && r.items[Size(q)] == data
    ensures First(q).Some? ==> First(r) == First(q)
    ensures First(q).None? ==> First(r) == Some(data)
  {
    Queue(q.items + [data])
  }

  /** `next()`: the new queue and what it returns. */
  function Next<T>(q: Queue<T>): (r: (Queue<T>, Option<T>))
    ensures Size(q) == 0 ==> r == (q, None)
    ensures Size(q) > 0 ==> Size(r.0) == Size(q) - 1 && r.0.items == q.items[1..]
    ensures r.1 == First(r.0)
  {
    if |q.items| == 0 then (q, None)
    else
      var rest := Queue(q.items[1..]);
      (rest, First(rest))
  }

  /** The flag of `add` makes no difference. */
  lemma AddIgnoresFlag<T>(q: Queue<T>, data: T)
    ensures Add(q, data, true) == Add(q, data, false)
  {
  }

  /** `next()` never hands out the element it removes: on a queue of at
      least two it returns the second element, on a queue of one it
      returns null. */
  lemma NextSkipsHead<T>(q: Queue<T>)
    ensures Size(q) >= 2 ==> Next(q).1 == Some(q.items[1])
    ensures Size(q) == 1 ==> Next(q) == (Empty(), None)
  {
  }

  /** Adding the elements of `xs` one after another, with any flags. */
  function AddAll<T>(q: Queue<T>, xs: seq<T>, flags: seq<bool>): (r: Queue<T>)
    requires |flags| == |xs|
    decreases |xs|
  {
    if |xs| == 0 then q else AddAll(Add(q, xs[0], flags[0]), xs[1..], flags[1..])
  }

  lemma {:induction false} AddAllAppends<T>(q: Queue<T>, xs: seq<T>, flags: seq<bool>)
    requires |flags| == |xs|
    ensures AddAll(q, xs, flags).items == q.items + xs
    decreases |xs|
  {
    if |xs| > 0 {
      AddAllAppends(Add(q, xs[0], flags[0]), xs[1..], flags[1..]);
      assert q.items + [xs[0]] + xs[1..] == q.items + xs;
    }
  }

  /** What a consumer sees when it reads `getFirst()` and then calls
      `next()` until it returns null. */
  function Drain<T>(q: Queue<T>): seq<T>
    decreases Size(q)
  {
    match First(q)
    case None => []
    case Some(x) => [x] + DrainAfter(q)
  }

  /** The values `next()` returns, called repeatedly on `q` until null. */
  function DrainAfter<T>(q: Queue<T>): seq<T>
    decreases Size(q)
  {
    var (rest, got) := Next(q);
    match got
    case None => []
    case Some(x) => [x] + DrainAfter(rest)
  }

  lemma {:induction false} DrainAfterIsTail<T>(q: Queue<T>)
    ensures Size(q) > 0 ==> DrainAfter(q) == q.items[1..]
    ensures Size(q) == 0 ==> DrainAfter(q) == []
    decreases Size(q)
  {
    if Size(q) > 1 {
      var rest := Queue(q.items[1..]);
      DrainAfterIsTail(rest);
      assert [q.items[1]] + q.items[2..] == q.items[1..];
    }
  }

  /** Elements leave in the order they were added: reading `getFirst()` and
      then `next()` until null yields exactly the elements, each once. */
  lemma DrainInOrder<T>(q: Queue<T>)
    ensures Drain(q) == q.items
  {
    DrainAfterIsTail(q);
    if Size(q) > 0 {
      assert [q.items[0]] + q.items[1..] == q.items;
    }
  }

  /** Elements added to an empty queue, whatever the flags, are drained in
      the order of adding. */
  lemma FifoOrder<T>(xs: seq<T>, flags: seq<bool>)
    requires |flags| == |xs|
    ensures Drain(AddAll(Empty(), xs, flags)) == xs
  {
    AddAllAppends(Empty(), xs, flags);
    DrainInOrder(AddAll(Empty(), xs, flags));
  }

  /** The consumer loop itself: takes the head, then follows `next()`. */
  method Consume<T>(q: Queue<T>) returns (seen: seq<T>, left: Queue<T>)
    ensures seen == q.items
    ensures Size(left) == 0
  {
    seen := [];
    left := q;
    var current := First(q);
    while current.Some?
      invariant Size(left) <= Size(q)
      invariant current.Some? ==> Size(left) > 0 && current.value == left.items[0]
      invariant current.None? ==> Size(left) == 0
      invariant seen + left.items == q.items
      decreases Size(left)
    {
      seen := seen + [current.value];
      assert seen + left.items[1..] == q.items by {
        assert left.items == [left.items[0]] + left.items[1..];
      }
      var step := Next(left);
      left, current := step.0, step.1;
    }
  }
}
