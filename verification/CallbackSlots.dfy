/** The guest's table of timer callbacks (os-syscall-bindings/src/lib.rs, native branch). */
module CallbackSlots {
  import opened Options

  /** Stands for the boxed closure. */
  type Callback = nat

  type Slots = seq<Option<Callback>>

  function LiveIds(slots: Slots): set<nat> {
    set i | 0 <= i < |slots| && slots[i].Some?
  }

  /** The lowest id not in use. */
  ghost predicate IsLowestFree(live: set<nat>, id: nat) {
    id !in live && forall j :: 0 <= j < id ==> j in live
  }

  function FirstFree(slots: Slots): (f: nat)
    ensures f <= |slots|
    ensures forall j :: 0 <= j < f ==> slots[j].Some?
    ensures f < |slots| ==> slots[f].None?
  {
    if slots == [] || slots[0].None? then 0 else 1 + FirstFree(slots[1..])
  }

  function Filled(slots: Slots, callback: Callback): Slots {
    var f := FirstFree(slots);
    if f < |slots| then slots[f := Some(callback)] else slots + [Some(callback)]
  }

  function Freed(slots: Slots, id: nat): Slots {
    if id < |slots| then slots[id := None] else slots
  }

  class CallbackTable {
    var slots: Slots

    constructor ()
      ensures slots == []
    {
      slots := [];
    }

    method SetInterval(callback: Callback) returns (id: nat)
      modifies this
      ensures slots == Filled(old(slots), callback) && id == FirstFree(old(slots))
      ensures IsLowestFree(LiveIds(old(slots)), id)
      ensures LiveIds(slots) == LiveIds(old(slots)) + {id} && slots[id] == Some(callback)
      ensures forall j :: j in LiveIds(old(slots)) ==> slots[j] == old(slots)[j]
    {
      id := 0;
      while id < |slots| && slots[id].Some?
        invariant id <= |slots| && FirstFree(slots) == id + FirstFree(slots[id..])
      {
        id := id + 1;
      }
      if id == |slots| {
        slots := slots + [None];
      }
      slots := slots[id := Some(callback)];
    }

    method Clear(id: nat)
      modifies this
      ensures slots == Freed(old(slots), id)
      ensures LiveIds(slots) == LiveIds(old(slots)) - {id}
      ensures forall j :: j in LiveIds(old(slots)) && j != id ==> slots[j] == old(slots)[j]
    {
      if id < |slots| {
        slots := slots[id := None];
      }
    }
  }

  // ---- whole runs

  datatype Op = SetInterval(callback: Callback) | Clear(id: nat)

  function Apply(slots: Slots, op: Op): Slots {
    match op
    case SetInterval(callback) => Filled(slots, callback)
    case Clear(id) => Freed(slots, id)
  }

  function Replay(ops: seq<Op>): Slots {
    if ops == [] then [] else Apply(Replay(ops[..|ops| - 1]), ops[|ops| - 1])
  }

  /** The largest number of timers that were live at the same time during the run. */
  function Peak(ops: seq<Op>): nat {
    if ops == [] then 0
    else
      var now, before := |LiveIds(Replay(ops))|, Peak(ops[..|ops| - 1]);
      if now > before then now else before
  }

  lemma {:induction false} LiveAtMost(slots: Slots)
    ensures |LiveIds(slots)| <= |slots|
    ensures (forall i :: 0 <= i < |slots| ==> slots[i].Some?) ==> |LiveIds(slots)| == |slots|
  {
    if slots != [] {
      var rest := slots[..|slots| - 1];
      LiveAtMost(rest);
      if slots[|slots| - 1].Some? {
        assert LiveIds(slots) == LiveIds(rest) + {|slots| - 1};
      } else {
        assert LiveIds(slots) == LiveIds(rest);
      }
    }
  }

  /** The table never grows beyond need: its length is the peak number of live timers. */
  lemma {:induction false} LengthIsPeak(ops: seq<Op>)
    ensures |Replay(ops)| == Peak(ops)
  {
    if ops != [] {
      LengthIsPeak(ops[..|ops| - 1]);
      LiveAtMost(Replay(ops));
      if |Replay(ops)| > |Replay(ops[..|ops| - 1])| {
        assert forall i :: 0 <= i < |Replay(ops)| ==> Replay(ops)[i].Some?;
      }
    }
  }

  /**
   * The callback of a timer, by the log alone: the one last registered under its id, unless the id
   * was cleared since. A registration gets the lowest id that is not live at that time.
   */
  ghost function LastRegistered(ops: seq<Op>, id: nat): Option<Callback> {
    if ops == [] then None
    else
      var before := ops[..|ops| - 1];
      match ops[|ops| - 1]
      case SetInterval(callback) =>
        if IsLowestFree(LiveIds(Replay(before)), id) then Some(callback) else LastRegistered(before, id)
      case Clear(cleared) => if cleared == id then None else LastRegistered(before, id)
  }

  lemma FirstFreeIsLowest(slots: Slots, id: nat)
    ensures IsLowestFree(LiveIds(slots), id) <==> id == FirstFree(slots)
  {
    var f := FirstFree(slots);
    assert forall j :: 0 <= j < f ==> j in LiveIds(slots);
    assert f !in LiveIds(slots);
  }

  /** Over any run, every live timer has the callback it was last registered with, and no other timer is live. */
  lemma {:induction false} TimersKeepTheirCallbacks(ops: seq<Op>, id: nat)
    ensures LastRegistered(ops, id) == if id in LiveIds(Replay(ops)) then Replay(ops)[id] else None
  {
    if ops != [] {
      TimersKeepTheirCallbacks(ops[..|ops| - 1], id);
      FirstFreeIsLowest(Replay(ops[..|ops| - 1]), id);
    }
  }
}
