/** The registry that maps an operation id to the task waiting for it. */
module Wakers {

  /** A task's wake-up handle. */
  type Waker = nat

  /** One wake-up call: the operation it was for and the handle that was called. */
  datatype Wakeup = Wakeup(id: nat, waker: Waker)

  /** This wake-up happened after `before` and is recorded in `after`. */
  ghost predicate WokenBetween(before: seq<Wakeup>, after: seq<Wakeup>, w: Wakeup) {
    exists k :: |before| <= k < |after| && after[k] == w
  }

  lemma WokenEarlier(first: seq<Wakeup>, middle: seq<Wakeup>, last: seq<Wakeup>, w: Wakeup)
    requires first <= middle <= last
    requires WokenBetween(first, middle, w) || WokenBetween(middle, last, w)
    ensures WokenBetween(first, last, w)
  {
    if WokenBetween(first, middle, w) {
      var k :| |first| <= k < |middle| && middle[k] == w;
      assert last[k] == w;
    }
  }

  class WakerRegistry {
    var wakers: map<nat, Waker>
    /** Every wake-up issued so far; the effect of calling a handle. */
    ghost var woken: seq<Wakeup>

    constructor ()
      ensures wakers == map[] && woken == []
    {
      wakers := map[];
      woken := [];
    }

    method RegisterWaker(id: nat, waker: Waker)
      modifies this`wakers
      ensures wakers == old(wakers)[id := waker]
    {
      wakers := wakers[id := waker];
    }

    method WakeOperation(id: nat) returns (found: bool)
      modifies this
      ensures found <==> id in old(wakers)
      ensures wakers == old(wakers) - {id}
      ensures woken == old(woken) + if found then [Wakeup(id, old(wakers)[id])] else []
    {
      found := id in wakers;
      if found {
        woken := woken + [Wakeup(id, wakers[id])];
        wakers := wakers - {id};
      }
    }

    method RemoveWaker(id: nat) returns (found: bool)
      modifies this`wakers
      ensures found <==> id in old(wakers)
      ensures wakers == old(wakers) - {id}
    {
      found := id in wakers;
      wakers := wakers - {id};
    }
  }
}
