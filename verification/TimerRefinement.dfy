/** The host's methods and the threads' sleep loop are the steps of the timer protocol. */
module TimerRefinement {
  import opened TimerRegistry
  import opened TimerProtocol
  import opened TimerTheorems

  /** The flags in memory are those the threads of the protocol state watch. */
  ghost predicate FlagsOf(done: map<nat, bool>, s: System) {
    && (forall id :: id in done <==> id in s.threads)
    && (forall id :: id in done && id in s.threads ==> done[id] == s.threads[id].done)
  }

  /** The registry object and its flags are those of the protocol state. */
  ghost predicate Represents(h: Host, s: System)
    reads h
  {
    h.View() == s.reg && FlagsOf(h.done, s)
  }

  /** A new host is the initial state of the protocol. */
  method Boot() returns (h: Host)
    ensures fresh(h) && Represents(h, INIT)
  {
    h := new Host();
  }

  lemma RegisterLowersFlag(done: map<nat, bool>, s: System, ms: nat, name: string)
    requires FlagsOf(done, s) && Accepts(s.reg, ms)
    ensures FlagsOf(done[s.reg.nextId := false], Step(s, SetInterval(ms, name)))
  {
  }

  lemma ClearRaisesFlag(done: map<nat, bool>, s: System, id: nat)
    requires TablesAgree(s) && FlagsOf(done, s)
    ensures FlagsOf(if id in s.reg.timers then done[id := true] else done, Step(s, Clear(id)))
  {
  }

  lemma TurnKeepsFlags(done: map<nat, bool>, s: System, id: nat)
    requires FlagsOf(done, s)
    ensures FlagsOf(done, Step(s, RunThread(id)))
  {
  }

  /** What the caller of an operation gets back. */
  datatype Answer = NewId(id: nat) | Existed(existed: bool) | HandedOut(due: seq<(nat, string)>) | NoAnswer

  function AnswerTo(s: System, e: Event): Answer {
    match e
    case SetInterval(ms, _) => NewId(if Accepts(s.reg, ms) then s.reg.nextId else 0)
    case Clear(id) => Existed(id in s.reg.timers)
    case DrainFired => HandedOut(DueNow(s))
    case RunThread(_) => NoAnswer
  }

  /**
   * Any event of the protocol, carried out on the registry object: the host operations by its
   * methods, a thread's turn by the one critical section a thread has. The object then represents
   * the next state, and the answer is the one the protocol gives.
   */
  method Perform(h: Host, s: System, e: Event) returns (answer: Answer)
    requires TablesAgree(s) && Represents(h, s)
    modifies h
    ensures Represents(h, Step(s, e))
    ensures answer == AnswerTo(s, e)
  {
    ghost var flags := h.done;
    match e
    case SetInterval(ms, name) =>
      if Accepts(s.reg, ms) {
        RegisterLowersFlag(flags, s, ms, name);
      }
      var id := h.SetInterval(ms, name);
      answer := NewId(id);
    case Clear(id) =>
      ClearRaisesFlag(flags, s, id);
      var existed := h.Clear(id);
      answer := Existed(existed);
    case DrainFired =>
      var due := h.DrainFired();
      answer := HandedOut(due);
    case RunThread(id) =>
      TurnKeepsFlags(flags, s, id);
      if id in s.threads && s.threads[id].pc == Firing {
        h.Push(id);
      }
      answer := NoAnswer;
  }

  function IdsIn(answer: Answer): seq<nat> {
    if answer.NewId? then [answer.id] else []
  }

  function DueIn(answer: Answer): seq<(nat, string)> {
    if answer.HandedOut? then answer.due else []
  }

  /** The answer to the first event is the first part of what the rest of a run returns and delivers. */
  lemma AnswerIsFirstPart(ids: seq<nat>, s: System, events: seq<Event>)
    requires events != []
    ensures ids + Returned(s, events) == ids + IdsIn(AnswerTo(s, events[0])) + Returned(Step(s, events[0]), events[1..])
    ensures Step(s, events[0]).delivered == s.delivered + DueIn(AnswerTo(s, events[0]))
  {
  }

  /**
   * Any run of the protocol, carried out on a new registry object: the ids its registrations return
   * and the firings it hands out are those of the protocol.
   */
  method PerformAll(events: seq<Event>) returns (h: Host, ids: seq<nat>, due: seq<(nat, string)>)
    ensures fresh(h) && Represents(h, Run(INIT, events))
    ensures ids == Returned(INIT, events)
    ensures due == Run(INIT, events).delivered
  {
    h := Boot();
    ids, due := [], [];
    var s := INIT;
    for k := 0 to |events|
      invariant fresh(h) && Represents(h, s) && TablesAgree(s)
      invariant Run(s, events[k..]) == Run(INIT, events)
      invariant ids + Returned(s, events[k..]) == Returned(INIT, events)
      invariant due == s.delivered
    {
      ghost var rest := events[k..];
      assert rest[0] == events[k] && rest[1..] == events[k + 1..];
      AnswerIsFirstPart(ids, s, rest);
      TablesKept(s, events[k]);
      var answer := Perform(h, s, events[k]);
      ids, due := ids + IdsIn(answer), due + DueIn(answer);
      s := Step(s, events[k]);
    }
    assert events[|events|..] == [];
  }

  // ---- the sleep loop of a thread is the chunked sleep

  /** The thread with its flag as it reads after the sleep done so far. */
  function Reading(t: Thread, cancelled: nat -> bool): Thread {
    t.(done := cancelled(t.slept))
  }

  /** The turns of a thread from the check of its sleep loop until it leaves the loop. */
  function LeaveSleepLoop(t: Thread, cancelled: nat -> bool): Thread
    requires t.pc == ChunkCheck
    decreases t.remaining
  {
    var checked := ThreadStep(Reading(t, cancelled));
    if checked.pc == FireCheck then checked else LeaveSleepLoop(ThreadStep(checked), cancelled)
  }

  lemma {:induction false} LoopSleeps(t: Thread, interval: nat, cancelled: nat -> bool)
    requires t.pc == ChunkCheck && t.slept + t.remaining == interval
    requires t.remaining > 0 ==> t.slept % CHUNK_MS == 0
    requires forall u :: 0 <= u < t.slept && u % CHUNK_MS == 0 ==> !cancelled(u)
    ensures SleepsFor(interval, cancelled, LeaveSleepLoop(t, cancelled).slept)
    decreases t.remaining
  {
    var checked := ThreadStep(Reading(t, cancelled));
    if checked.pc != FireCheck {
      LoopSleeps(ThreadStep(checked), interval, cancelled);
    }
  }

  /**
   * A thread that enters its sleep loop leaves it having slept exactly as long as `SleepInChunks`
   * does, whenever its flag goes up: there is only one length `SleepsFor` allows.
   */
  lemma ThreadSleepsInChunks(t: Thread, cancelled: nat -> bool, slept: nat)
    requires t.pc == LoopTop && !t.done
    ensures SleepsFor(t.interval, cancelled, slept) <==> slept == LeaveSleepLoop(ThreadStep(t), cancelled).slept
  {
    LoopSleeps(ThreadStep(t), t.interval, cancelled);
  }
}
