/** `EQueue`: a FIFO whose timed pops return empty-handed when nothing arrives in time. */
module Queue {

  class EQueue<T> {
    var items: seq<T>

    constructor ()
      ensures items == []
    {
      items := [];
    }

    method Push(t: T)
      modifies this
      ensures items == old(items) + [t]
    {
      items := items + [t];
    }

    /** The front element, or nothing. */
    method Pop() returns (t: seq<T>)
      modifies this
      ensures old(items) == t + items && |t| <= 1 && (t == [] <==> old(items) == [])
    {
      if items == [] {
        return [];
      }
      t := [items[0]];
      items := items[1..];
    }

    /** Up to `max` elements from the front, in order; at least one when there is one, even
        for a `max` of zero. */
    method PopBatch(max: nat) returns (vec: seq<T>)
      modifies this
      ensures old(items) == vec + items
      ensures |vec| == BatchCount(max, |old(items)|)
    {
      vec := [];
      if items == [] {
        return;
      }
      vec, items := [items[0]], items[1..];
      while |vec| < max && items != []
        invariant old(items) == vec + items
        invariant 1 <= |vec| && (|vec| == 1 || |vec| <= max)
        decreases |items|
      {
        vec, items := vec + [items[0]], items[1..];
      }
    }

    /** Keep the newest `sz` elements and tell how many were dropped. */
    method ShrinkFront(sz: nat) returns (dropped: nat)
      modifies this
      ensures dropped == (if |old(items)| <= sz then 0 else |old(items)| - sz)
      ensures items == old(items)[dropped..]
    {
      var orig := |items|;
      if orig <= sz {
        return 0;
      }
      items := items[orig - sz..];
      return orig - |items|;
    }
  }

  function BatchCount(max: nat, size: nat): (n: nat)
    ensures n <= size && (size > 0 ==> n >= 1) && (n <= max || n <= 1) && (n == size || n >= max)
  {
    if size == 0 then 0 else if max <= 1 then 1 else if max < size then max else size
  }
}
