/** The lock-protected `VecDeque` that a background producer pushes into and
    a reader drains: both `FloorModule` and `Floor` keep one, and both read it
    by popping everything and keeping the last item. */
module LatestQueue {
  import opened Wrappers

  /** The newest item of a queue, or None when it holds nothing. */
  function Newest<T>(s: seq<T>): (r: Option<T>)
    ensures r.None? <==> |s| == 0
    ensures r.Some? ==> r.value == s[|s| - 1]
  {
    if |s| == 0 then None else Some(s[|s| - 1])
  }

  /** Whatever came before, the newest item is the one pushed last. */
  lemma LatestWins<T>(s: seq<T>, x: T)
    ensures Newest(s + [x]) == Some(x)
  {
  }

  class Latest<T> {
    /** The queued items, oldest first. */
    var items: seq<T>

    constructor ()
      ensures items == []
    {
      items := [];
    }

    /** `data_available`: something was pushed since the last read, so a
        read now yields an item. */
    predicate DataAvailable()
      reads this
      ensures DataAvailable() <==> Newest(items).Some?
    {
      |items| > 0
    }

    /** The producer side: `push_back` under the lock. */
    method Push(x: T)
      modifies this
      ensures items == old(items) + [x]
    {
      items := items + [x];
    }

    /** `read`: pop every item, return the last one popped. */
    method Read() returns (popped: Option<T>)
      modifies this
      ensures items == []
      ensures popped == Newest(old(items))
      ensures popped.None? <==> !old(DataAvailable())
    {
      ghost var queued := items;
      popped := None;
      while |items| > 0
        invariant |items| <= |queued|
        invariant items == queued[|queued| - |items|..]
        invariant popped == Newest(queued[..|queued| - |items|])
        decreases |items|
      {
        popped := Some(items[0]);
        items := items[1..];
      }
      assert queued[..|queued|] == queued;
    }
  }
}
