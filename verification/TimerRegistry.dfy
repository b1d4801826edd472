/** The host's timer registry (os-agent/src/wasm_runtime.rs): what each critical section does. */
module TimerRegistry {
  const MAX_TIMERS: nat := 64
  const CHUNK_MS: nat := 10

  /** The state under the mutex; `timers` are the ids with an entry. */
  datatype Registry = Registry(nextId: nat, timers: set<nat>, callbacks: map<nat, string>, fired: seq<nat>)

  const EMPTY := Registry(1, {}, map[], [])

  predicate Accepts(r: Registry, intervalMs: nat) {
    |r.timers| < MAX_TIMERS && intervalMs > 0
  }

  function Registered(r: Registry, callbackName: string): Registry {
    r.(nextId := r.nextId + 1, timers := r.timers + {r.nextId}, callbacks := r.callbacks[r.nextId := callbackName])
  }

  function Without(s: seq<nat>, id: nat): seq<nat> {
    if s == [] then [] else (if s[0] == id then [] else [s[0]]) + Without(s[1..], id)
  }

  lemma {:induction false} WithoutKeepsOthers(s: seq<nat>, id: nat)
    ensures forall x :: x in Without(s, id) <==> x in s && x != id
  {
    if s != [] {
      WithoutKeepsOthers(s[1..], id);
    }
  }

  function Cleared(r: Registry, id: nat): Registry {
    r.(timers := r.timers - {id}, callbacks := r.callbacks - {id}, fired := Without(r.fired, id))
  }

  /** The fired ids that still have a callback, each with its callback, in firing order. */
  function Due(fired: seq<nat>, callbacks: map<nat, string>): seq<(nat, string)> {
    if fired == [] then []
    else (if fired[0] in callbacks then [(fired[0], callbacks[fired[0]])] else []) + Due(fired[1..], callbacks)
  }

  lemma {:induction false} DueHaveCallbacks(fired: seq<nat>, callbacks: map<nat, string>)
    ensures forall p :: p in Due(fired, callbacks) ==> p.0 in fired && p.0 in callbacks && callbacks[p.0] == p.1
  {
    if fired != [] {
      DueHaveCallbacks(fired[1..], callbacks);
    }
  }

  /**
   * The registry shared by the host functions and the timer threads. `done` holds the cancellation
   * flags, which outlive their registry entries: the thread of timer `id` watches `done[id]`.
   */
  class Host {
    var nextId: nat
    var timers: set<nat>
    var callbacks: map<nat, string>
    var fired: seq<nat>
    var done: map<nat, bool>

    ghost function View(): Registry
      reads this
    {
      Registry(nextId, timers, callbacks, fired)
    }

    constructor ()
      ensures View() == EMPTY && done == map[]
    {
      nextId, timers, callbacks, fired, done := 1, {}, map[], [], map[];
    }

    /** Registers a timer and lowers the flag its new thread watches. Id 0 means refused. */
    method SetInterval(intervalMs: nat, callbackName: string) returns (id: nat)
      modifies this
      ensures if Accepts(old(View()), intervalMs)
              then View() == Registered(old(View()), callbackName) && id == old(nextId) && done == old(done)[id := false]
              else View() == old(View()) && id == 0 && done == old(done)
    {
      if |timers| >= MAX_TIMERS {
        return 0;
      }
      if intervalMs == 0 {
        return 0;
      }
      id := nextId;
      nextId := nextId + 1;
      done := done[id := false];
      callbacks := callbacks[id := callbackName];
      timers := timers + {id};
    }

    /** Cancels a timer: its flag goes up, and no other flag changes. */
    method Clear(timerId: nat) returns (existed: bool)
      modifies this
      ensures View() == Cleared(old(View()), timerId)
      ensures existed == (timerId in old(timers))
      ensures done == if existed then old(done)[timerId := true] else old(done)
    {
      callbacks := callbacks - {timerId};
      fired := Without(fired, timerId);
      existed := timerId in timers;
      timers := timers - {timerId};
      if existed {
        done := done[timerId := true];
      }
    }

    /** What the timer thread does under the lock. */
    method Push(timerId: nat)
      modifies this`fired
      ensures View() == old(View()).(fired := old(fired) + [timerId])
    {
      fired := fired + [timerId];
    }

    method DrainFired() returns (due: seq<(nat, string)>)
      modifies this`fired
      ensures due == Due(old(fired), callbacks)
      ensures View() == old(View()).(fired := [])
    {
      var pending := fired;
      fired := [];
      due := Due(pending, callbacks);
    }
  }

  /**
   * How long the chunked sleep lasts. `cancelled(t)` is the flag as read after `t` milliseconds of
   * sleep. The sleep ends at the first 10 ms checkpoint at which the flag is up, else after exactly
   * the interval.
   */
  ghost predicate SleepsFor(intervalMs: nat, cancelled: nat -> bool, slept: nat) {
    && slept <= intervalMs
    && (slept == intervalMs || (slept % 10 == 0 && cancelled(slept)))
    && forall t :: 0 <= t < slept && t % 10 == 0 ==> !cancelled(t)
  }

  /** The inner loop of a timer thread. */
  method SleepInChunks(intervalMs: nat, cancelled: nat -> bool) returns (slept: nat)
    ensures SleepsFor(intervalMs, cancelled, slept)
  {
    slept := 0;
    var remaining: nat := intervalMs;
    while remaining > 0 && !cancelled(slept)
      invariant slept + remaining == intervalMs
      invariant remaining > 0 ==> slept % CHUNK_MS == 0
      invariant forall t :: 0 <= t < slept && t % CHUNK_MS == 0 ==> !cancelled(t)
    {
      var chunk := if remaining < CHUNK_MS then remaining else CHUNK_MS;
      slept := slept + chunk;
      remaining := remaining - chunk;
    }
  }
}
