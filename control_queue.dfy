/**
 * The control channel `recv := make(chan int, 1)` of mainproc: a queue of
 * capacity one, fed by the GUI command callback with a non-blocking send and
 * drained by the worker with non-blocking polls.
 */
module ControlQueue {
  import opened Wrappers

  /** What a non-blocking send leaves behind: the slot, and whether the value was dropped. */
  datatype Offered = Offered(slot: Option<int>, dropped: bool)

  /** One `select { case recv <- arg: default: ... }`: a value enters only an empty slot. */
  function Offer(slot: Option<int>, v: int): (r: Offered)
    ensures r.slot.Some?
    ensures r.dropped <==> slot.Some?
    ensures slot.Some? ==> r.slot == slot
  {
    if slot.None? then Offered(Some(v), false) else Offered(slot, true)
  }

  /** The slot, and the number of drops reported, after sending `vs` in order with no poll in between. */
  function SendAll(slot: Option<int>, vs: seq<int>): (r: (Option<int>, nat))
    ensures r.1 <= |vs|
    ensures r.0.Some? <==> slot.Some? || vs != []
    decreases vs
  {
    if vs == [] then (slot, 0)
    else
      var o := Offer(slot, vs[0]);
      var rest := SendAll(o.slot, vs[1..]);
      (rest.0, rest.1 + if o.dropped then 1 else 0)
  }

  /** Sends into an occupied slot never displace the pending value, and every one of them is reported. */
  lemma {:induction false} OccupiedSlotDropsAll(v: int, vs: seq<int>)
    ensures SendAll(Some(v), vs) == (Some(v), |vs|)
  {
    if vs != [] {
      OccupiedSlotDropsAll(v, vs[1..]);
    }
  }

  /** A burst of sends into an empty slot: the first value is kept, all later ones are dropped. */
  lemma FirstSendWins(vs: seq<int>)
    requires vs != []
    ensures SendAll(None, vs) == (Some(vs[0]), |vs| - 1)
  {
    OccupiedSlotDropsAll(vs[0], vs[1..]);
  }

  /** Whatever the slot holds after a burst was already there or was sent in it. */
  lemma {:induction false} PendingWasSent(slot: Option<int>, vs: seq<int>)
    ensures var s := SendAll(slot, vs).0;
            s == slot || (slot.None? && s.Some? && s.value in vs)
    decreases vs
  {
    if vs != [] {
      PendingWasSent(Offer(slot, vs[0]).slot, vs[1..]);
      if slot.None? {
        OccupiedSlotDropsAll(vs[0], vs[1..]);
      }
    }
  }

  /** The channel itself: the slot, and a count of the drops the callback reported. */
  class Channel {
    var slot: Option<int>
    var drops: nat

    constructor ()
      ensures slot == None && drops == 0
    {
      slot := None;
      drops := 0;
    }

    /** Non-blocking send: never waits; drops `v` and reports it when the slot is full. */
    method Send(v: int) returns (dropped: bool)
      modifies this
      ensures dropped <==> old(slot).Some?
      ensures slot == if dropped then old(slot) else Some(v)
      ensures drops == old(drops) + if dropped then 1 else 0
    {
      if slot.None? {
        slot := Some(v);
        dropped := false;
      } else {
        dropped := true;
        drops := drops + 1;
      }
    }

    /** Non-blocking poll: hands out the pending value, if any, and leaves the slot empty. */
    method TryReceive() returns (r: Option<int>)
      modifies this
      ensures r == old(slot) && slot == None && drops == old(drops)
    {
      r := slot;
      slot := None;
    }
  }
}
