/**
 * The registry as a concurrent protocol. The host operations and the steps of the timer threads
 * (one thread for each accepted registration) may interleave in any way; a run is any list of events.
 */
module TimerProtocol {
  import opened TimerRegistry

  /** Where a thread is in its loop. `Firing`: it has passed the last check of its flag and waits for the lock. */
  datatype Pc = LoopTop | ChunkCheck | Sleeping | FireCheck | Firing | Exited

  /** `slept` is how long the thread has slept since it last was at the top of its loop. */
  datatype Thread = Thread(pc: Pc, interval: nat, remaining: nat, slept: nat, done: bool)

  function ThreadStep(t: Thread): Thread {
    match t.pc
    case LoopTop => if t.done then t.(pc := Exited) else t.(pc := ChunkCheck, remaining := t.interval, slept := 0)
    case ChunkCheck => t.(pc := if t.remaining > 0 && !t.done then Sleeping else FireCheck)
    case Sleeping =>
      var chunk := if t.remaining < CHUNK_MS then t.remaining else CHUNK_MS;
      t.(pc := ChunkCheck, remaining := t.remaining - chunk, slept := t.slept + chunk)
    case FireCheck => t.(pc := if t.done then Exited else Firing)
    case Firing => t.(pc := LoopTop)
    case Exited => t
  }

  /**
   * The registry and the threads, with the history of the run: the name each timer was registered
   * under, every push in order, and everything handed out by draining, in order.
   */
  datatype System = System(
    reg: Registry, threads: map<nat, Thread>,
    names: map<nat, string>, pushed: seq<nat>, delivered: seq<(nat, string)>)

  const INIT := System(EMPTY, map[], map[], [], [])

  datatype Event =
    | SetInterval(intervalMs: nat, callbackName: string)
    | Clear(timerId: nat)
    | DrainFired
    | RunThread(timerId: nat)

  function Step(s: System, e: Event): System {
    match e
    case SetInterval(ms, name) =>
      if !Accepts(s.reg, ms) then s
      else
        s.(reg := Registered(s.reg, name),
           threads := s.threads[s.reg.nextId := Thread(LoopTop, ms, 0, 0, false)],
           names := s.names[s.reg.nextId := name])
    case Clear(id) =>
      s.(reg := Cleared(s.reg, id),
         threads := if id in s.reg.timers && id in s.threads then s.threads[id := s.threads[id].(done := true)]
                    else s.threads)
    case DrainFired =>
      s.(reg := s.reg.(fired := []), delivered := s.delivered + Due(s.reg.fired, s.reg.callbacks))
    case RunThread(id) =>
      if id !in s.threads then s
      else
        var moved := s.(threads := s.threads[id := ThreadStep(s.threads[id])]);
        if s.threads[id].pc != Firing then moved
        else moved.(reg := s.reg.(fired := s.reg.fired + [id]), pushed := s.pushed + [id])
  }

  function Run(s: System, events: seq<Event>): System
    decreases |events|
  {
    if events == [] then s else Run(Step(s, events[0]), events[1..])
  }

  // ---- sequences of ids

  function Ids(s: seq<(nat, string)>): (r: seq<nat>)
    ensures |r| == |s|
    ensures forall i :: 0 <= i < |s| ==> r[i] == s[i].0
  {
    seq(|s|, i requires 0 <= i < |s| => s[i].0)
  }

  /** The elements of `s` that are in `keep`, in order. */
  function Only(s: seq<nat>, keep: set<nat>): seq<nat> {
    if s == [] then [] else (if s[0] in keep then [s[0]] else []) + Only(s[1..], keep)
  }

  lemma {:induction false} OnlyAppends(s: seq<nat>, t: seq<nat>, keep: set<nat>)
    ensures Only(s + t, keep) == Only(s, keep) + Only(t, keep)
  {
    if s == [] {
      assert s + t == t;
    } else {
      var first := if s[0] in keep then [s[0]] else [];
      assert (s + t)[0] == s[0] && (s + t)[1..] == s[1..] + t;
      OnlyAppends(s[1..], t, keep);
      assert first + (Only(s[1..], keep) + Only(t, keep)) == (first + Only(s[1..], keep)) + Only(t, keep);
    }
  }

  lemma {:induction false} OnlyNarrows(s: seq<nat>, wide: set<nat>, narrow: set<nat>)
    requires narrow <= wide
    ensures Only(Only(s, wide), narrow) == Only(s, narrow)
  {
    if s != [] {
      OnlyAppends(if s[0] in wide then [s[0]] else [], Only(s[1..], wide), narrow);
      OnlyNarrows(s[1..], wide, narrow);
    }
  }

  lemma {:induction false} OnlyAgrees(s: seq<nat>, a: set<nat>, b: set<nat>)
    requires forall x :: x in s ==> (x in a <==> x in b)
    ensures Only(s, a) == Only(s, b)
  {
    if s != [] {
      OnlyAgrees(s[1..], a, b);
    }
  }

  lemma {:induction false} OnlyIgnores(s: seq<nat>, id: nat, keep: set<nat>)
    requires id !in keep
    ensures Only(Without(s, id), keep) == Only(s, keep)
  {
    if s != [] {
      OnlyAppends(if s[0] == id then [] else [s[0]], Without(s[1..], id), keep);
      OnlyIgnores(s[1..], id, keep);
    }
  }

  lemma {:induction false} DueIsOnly(fired: seq<nat>, callbacks: map<nat, string>)
    ensures Ids(Due(fired, callbacks)) == Only(fired, callbacks.Keys)
  {
    if fired != [] {
      DueIsOnly(fired[1..], callbacks);
    }
  }

  function Count(s: seq<nat>, id: nat): nat {
    multiset(s)[id]
  }

  // ---- the invariant

  /** The registry's own tables. */
  ghost predicate TablesAgree(s: System) {
    && s.reg.nextId >= 1
    && (forall id :: id in s.reg.timers <==> id in s.reg.callbacks)
    && (forall id :: id in s.threads <==> id in s.names)
    && (forall id :: id in s.threads <==> 1 <= id < s.reg.nextId)
    && (forall id :: id in s.reg.timers ==> id in s.threads && s.reg.callbacks[id] == s.names[id])
  }

  ghost predicate Bounded(s: System) {
    |s.reg.timers| <= MAX_TIMERS
  }

  /** A timer is registered exactly as long as its thread's flag is down. */
  ghost predicate FlagsAgree(s: System) {
    forall id :: id in s.threads ==> (id in s.reg.timers <==> !s.threads[id].done)
  }

  /** Everything in the logs was once registered, and delivered under the name it was registered with. */
  ghost predicate LogsAgree(s: System) {
    && (forall id :: id in s.reg.fired ==> id in s.threads)
    && (forall id :: id in s.pushed ==> id in s.threads)
    && (forall p :: p in s.delivered ==> p.0 in s.names && s.names[p.0] == p.1)
  }

  /** A thread about to fire has slept its whole interval since its last turn. */
  predicate SleepAddsUp(t: Thread) {
    && t.interval > 0
    && (t.pc == ChunkCheck || t.pc == Sleeping || t.pc == FireCheck ==> t.slept + t.remaining == t.interval)
    && (t.pc == Sleeping ==> t.remaining > 0)
    && (t.pc == FireCheck && !t.done ==> t.remaining == 0)
    && (t.pc == Firing ==> t.slept == t.interval)
  }

  /** The pushes a thread can still make once its flag is up. */
  function LastPush(t: Thread): nat {
    if t.pc == Firing then 1 else 0
  }

  ghost predicate AllSleepAddsUp(s: System) {
    forall id :: id in s.threads ==> SleepAddsUp(s.threads[id])
  }

  /** A cancelled timer has at most one stale firing, pending or still to come. */
  ghost predicate StaleAtMostOnce(s: System) {
    forall id :: id in s.threads && s.threads[id].done ==> Count(s.reg.fired, id) + LastPush(s.threads[id]) <= 1
  }

  /** As far as the registered timers go, what was pushed is what was delivered and then what is pending. */
  ghost predicate NothingLost(s: System) {
    Only(s.pushed, s.reg.timers) == Only(Ids(s.delivered), s.reg.timers) + Only(s.reg.fired, s.reg.timers)
  }

  ghost predicate Inv(s: System) {
    && TablesAgree(s) && Bounded(s) && FlagsAgree(s) && LogsAgree(s)
    && AllSleepAddsUp(s) && StaleAtMostOnce(s) && NothingLost(s)
  }

  lemma TablesKept(s: System, e: Event)
    requires TablesAgree(s)
    ensures TablesAgree(Step(s, e))
  {
    match e
    case SetInterval(ms, name) => TablesKeptOnRegister(s, ms, name);
    case Clear(id) => TablesKeptOnClear(s, id);
    case _ =>
  }

  lemma TablesKeptOnRegister(s: System, ms: nat, name: string)
    requires TablesAgree(s)
    ensures TablesAgree(Step(s, SetInterval(ms, name)))
  {
  }

  lemma TablesKeptOnClear(s: System, id: nat)
    requires TablesAgree(s)
    ensures TablesAgree(Step(s, Clear(id)))
  {
  }

  lemma SizeKept(s: System, e: Event)
    requires Bounded(s)
    ensures Bounded(Step(s, e))
  {
    if e.Clear? {
      assert s.reg.timers == (s.reg.timers - {e.timerId}) + (s.reg.timers * {e.timerId});
    }
  }

  lemma FlagsKept(s: System, e: Event)
    requires TablesAgree(s) && FlagsAgree(s)
    ensures FlagsAgree(Step(s, e))
  {
  }

  lemma LogsKept(s: System, e: Event)
    requires TablesAgree(s) && LogsAgree(s)
    ensures LogsAgree(Step(s, e))
  {
    match e
    case Clear(id) => WithoutKeepsOthers(s.reg.fired, id);
    case DrainFired => DueHaveCallbacks(s.reg.fired, s.reg.callbacks);
    case _ =>
  }

  lemma TurnKeepsSleep(t: Thread)
    requires SleepAddsUp(t)
    ensures SleepAddsUp(ThreadStep(t)) && SleepAddsUp(t.(done := true))
  {
  }

  lemma SleepKept(s: System, e: Event)
    requires AllSleepAddsUp(s)
    ensures AllSleepAddsUp(Step(s, e))
  {
    forall id | id in Step(s, e).threads
      ensures SleepAddsUp(Step(s, e).threads[id])
    {
      if id in s.threads {
        TurnKeepsSleep(s.threads[id]);
      }
    }
  }

  lemma StaleOnClear(s: System, id: nat)
    requires TablesAgree(s) && FlagsAgree(s) && StaleAtMostOnce(s)
    ensures StaleAtMostOnce(Step(s, Clear(id)))
  {
    var s2 := Step(s, Clear(id));
    forall x | x in s2.threads && s2.threads[x].done
      ensures Count(s2.reg.fired, x) + LastPush(s2.threads[x]) <= 1
    {
      CountWithout(s.reg.fired, id, x);
    }
  }

  lemma StaleOnRun(s: System, id: nat)
    requires StaleAtMostOnce(s)
    ensures StaleAtMostOnce(Step(s, RunThread(id)))
  {
  }

  lemma StaleOnRegister(s: System, ms: nat, name: string)
    requires TablesAgree(s) && LogsAgree(s) && StaleAtMostOnce(s)
    ensures StaleAtMostOnce(Step(s, SetInterval(ms, name)))
  {
  }

  lemma {:induction false} CountWithout(s: seq<nat>, id: nat, x: nat)
    ensures Count(Without(s, id), x) == if x == id then 0 else Count(s, x)
  {
    if s != [] {
      assert s == [s[0]] + s[1..];
      CountWithout(s[1..], id, x);
    }
  }

  lemma NothingLostOnRegister(s: System, ms: nat, name: string)
    requires TablesAgree(s) && LogsAgree(s) && NothingLost(s)
    ensures NothingLost(Step(s, SetInterval(ms, name)))
  {
    if Accepts(s.reg, ms) {
      var id, live := s.reg.nextId, s.reg.timers;
      forall x | x in Ids(s.delivered)
        ensures x != id
      {
        var i :| 0 <= i < |s.delivered| && Ids(s.delivered)[i] == x;
        assert s.delivered[i] in s.delivered;
      }
      OnlyAgrees(s.pushed, live, live + {id});
      OnlyAgrees(s.reg.fired, live, live + {id});
      OnlyAgrees(Ids(s.delivered), live, live + {id});
    }
  }

  lemma NothingLostOnClear(s: System, id: nat)
    requires NothingLost(s)
    ensures NothingLost(Step(s, Clear(id)))
  {
    var live := s.reg.timers - {id};
    OnlyNarrows(s.pushed, s.reg.timers, live);
    OnlyNarrows(Ids(s.delivered), s.reg.timers, live);
    OnlyNarrows(s.reg.fired, s.reg.timers, live);
    OnlyAppends(Only(Ids(s.delivered), s.reg.timers), Only(s.reg.fired, s.reg.timers), live);
    OnlyIgnores(s.reg.fired, id, live);
  }

  lemma DrainSends(s: System)
    ensures Ids(Step(s, DrainFired).delivered) == Ids(s.delivered) + Only(s.reg.fired, s.reg.callbacks.Keys)
  {
    DueIsOnly(s.reg.fired, s.reg.callbacks);
  }

  lemma NothingLostOnDrain(s: System)
    requires TablesAgree(s) && NothingLost(s)
    ensures NothingLost(Step(s, DrainFired))
  {
    var live := s.reg.timers;
    assert live == s.reg.callbacks.Keys;
    DrainSends(s);
    OnlyAppends(Ids(s.delivered), Only(s.reg.fired, live), live);
    OnlyNarrows(s.reg.fired, live, live);
  }

  lemma NothingLostOnRun(s: System, id: nat)
    requires NothingLost(s)
    ensures NothingLost(Step(s, RunThread(id)))
  {
    var live := s.reg.timers;
    if id in s.threads && s.threads[id].pc == Firing {
      OnlyAppends(s.pushed, [id], live);
      OnlyAppends(s.reg.fired, [id], live);
      assert Only(Ids(s.delivered), live) + (Only(s.reg.fired, live) + Only([id], live))
          == (Only(Ids(s.delivered), live) + Only(s.reg.fired, live)) + Only([id], live);
    }
  }

  lemma StepKeeps(s: System, e: Event)
    requires Inv(s)
    ensures Inv(Step(s, e))
  {
    TablesKept(s, e);
    SizeKept(s, e);
    FlagsKept(s, e);
    LogsKept(s, e);
    SleepKept(s, e);
    match e
    case SetInterval(ms, name) => StaleOnRegister(s, ms, name); NothingLostOnRegister(s, ms, name);
    case Clear(id) => StaleOnClear(s, id); NothingLostOnClear(s, id);
    case DrainFired => NothingLostOnDrain(s);
    case RunThread(id) => StaleOnRun(s, id); NothingLostOnRun(s, id);
  }

  lemma {:induction false} RunKeepsInv(s: System, events: seq<Event>)
    requires Inv(s)
    ensures Inv(Run(s, events))
    decreases |events|
  {
    if events != [] {
      StepKeeps(s, events[0]);
      RunKeepsInv(Step(s, events[0]), events[1..]);
    }
  }

  /** Every state of every run, however the host and the threads interleave. */
  lemma EveryRunKeepsInv(events: seq<Event>)
    ensures Inv(Run(INIT, events))
  {
    RunKeepsInv(INIT, events);
  }
}
