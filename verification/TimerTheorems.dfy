/** What the timer protocol guarantees over whole runs. */
module TimerTheorems {
  import opened TimerRegistry
  import opened TimerProtocol

  /** What draining would hand out now. */
  function DueNow(s: System): seq<(nat, string)> {
    Due(s.reg.fired, s.reg.callbacks)
  }

  // ---- safety of draining

  /**
   * In every reachable state, draining hands out only timers that are registered at that moment and
   * whose flag is down, each under the name it was registered with.
   */
  lemma DrainHandsOutLiveTimers(events: seq<Event>)
    ensures var s := Run(INIT, events);
      forall p :: p in DueNow(s) ==>
        p.0 in s.reg.timers && p.0 in s.threads && !s.threads[p.0].done
        && p.0 in s.names && s.names[p.0] == p.1
  {
    EveryRunKeepsInv(events);
    DueHaveCallbacks(Run(INIT, events).reg.fired, Run(INIT, events).reg.callbacks);
  }

  // ---- after a timer is cleared

  /** The timer was issued and is cancelled: no registry entry is left, and its thread's flag is up. */
  ghost predicate Settled(s: System, id: nat) {
    && id in s.threads && s.threads[id].done && id < s.reg.nextId
    && id !in s.reg.timers && id !in s.reg.callbacks
  }

  lemma ClearSettles(s: System, id: nat)
    requires Inv(s) && id in s.threads
    ensures Settled(Step(s, Clear(id)), id)
  {
  }

  lemma StepStaysSettled(s: System, e: Event, id: nat)
    requires Settled(s, id)
    ensures Settled(Step(s, e), id)
  {
  }

  /** An upper bound on the turns a cancelled thread still takes. */
  function TurnsLeft(t: Thread): nat {
    match t.pc
    case Exited => 0
    case LoopTop => 1
    case FireCheck => 1
    case ChunkCheck => 2
    case Firing => 2
    case Sleeping => 3
  }

  /** The sleep a cancelled thread still does. */
  function SleepLeft(t: Thread): nat {
    if t.pc == Sleeping then CHUNK_MS else 0
  }

  lemma StepMovesThread(s: System, e: Event, id: nat)
    requires Settled(s, id)
    ensures Step(s, e).threads[id] == if e == RunThread(id) then ThreadStep(s.threads[id]) else s.threads[id]
    ensures Count(Step(s, e).pushed, id)
         == Count(s.pushed, id) + if e == RunThread(id) then LastPush(s.threads[id]) else 0
  {
  }

  lemma StepDelivers(s: System, e: Event, id: nat)
    requires Settled(s, id)
    ensures var d := Step(s, e).delivered;
      |d| >= |s.delivered| && d[..|s.delivered|] == s.delivered && id !in Ids(d[|s.delivered|..])
  {
    var d := Step(s, e).delivered;
    if e == DrainFired {
      assert d[|s.delivered|..] == DueNow(s);
      NotDue(s.reg.fired, s.reg.callbacks, id);
    } else {
      assert d == s.delivered;
    }
  }

  lemma NotDue(fired: seq<nat>, callbacks: map<nat, string>, id: nat)
    requires id !in callbacks
    ensures id !in Ids(Due(fired, callbacks))
  {
    var due := Due(fired, callbacks);
    DueHaveCallbacks(fired, callbacks);
    assert forall i :: 0 <= i < |due| ==> due[i] in due;
  }

  function Turns(events: seq<Event>, id: nat): nat {
    if events == [] then 0 else (if events[0] == RunThread(id) then 1 else 0) + Turns(events[1..], id)
  }

  lemma {:induction false} SettledDelivers(s: System, events: seq<Event>, id: nat)
    requires Settled(s, id)
    ensures var d := Run(s, events).delivered;
      |d| >= |s.delivered| && d[..|s.delivered|] == s.delivered && id !in Ids(d[|s.delivered|..])
    decreases |events|
  {
    if events != [] {
      var s1 := Step(s, events[0]);
      StepStaysSettled(s, events[0], id);
      StepDelivers(s, events[0], id);
      SettledDelivers(s1, events[1..], id);
      DeliveriesJoin(s.delivered, s1.delivered, Run(s1, events[1..]).delivered, id);
    }
  }

  lemma DeliveriesJoin(d0: seq<(nat, string)>, d1: seq<(nat, string)>, d2: seq<(nat, string)>, id: nat)
    requires |d1| >= |d0| && d1[..|d0|] == d0 && id !in Ids(d1[|d0|..])
    requires |d2| >= |d1| && d2[..|d1|] == d1 && id !in Ids(d2[|d1|..])
    ensures d2[..|d0|] == d0 && id !in Ids(d2[|d0|..])
  {
  }

  lemma {:induction false} SettledWindsDown(s: System, events: seq<Event>, id: nat)
    requires Settled(s, id)
    ensures var s2 := Run(s, events);
      && id in s2.threads
      && Count(s2.pushed, id)
         == Count(s.pushed, id) + (if Turns(events, id) >= 1 then LastPush(s.threads[id]) else 0)
      && (Turns(events, id) >= TurnsLeft(s.threads[id]) ==> s2.threads[id].pc == Exited)
      && s2.threads[id].slept + SleepLeft(s2.threads[id]) <= s.threads[id].slept + SleepLeft(s.threads[id])
    decreases |events|
  {
    if events != [] {
      StepStaysSettled(s, events[0], id);
      StepMovesThread(s, events[0], id);
      SettledWindsDown(Step(s, events[0]), events[1..], id);
    }
  }

  /**
   * After `clear(id)` on an issued timer, at any point of any run, no drain ever hands that timer
   * out again, although its thread may still push its id.
   */
  lemma ClearedNeverSurfaces(before: seq<Event>, id: nat, after: seq<Event>)
    requires id in Run(INIT, before).threads
    ensures var s := Step(Run(INIT, before), Clear(id));
      var d := Run(s, after).delivered;
      |d| >= |s.delivered| && d[..|s.delivered|] == s.delivered && id !in Ids(d[|s.delivered|..])
  {
    EveryRunKeepsInv(before);
    ClearSettles(Run(INIT, before), id);
    SettledDelivers(Step(Run(INIT, before), Clear(id)), after, id);
  }

  /**
   * After `clear(id)` the thread makes exactly one more push if it had already passed its last check
   * and gets another turn, and none otherwise; it exits within three of its own turns, sleeping at
   * most one more chunk.
   */
  lemma ClearedThreadWindsDown(before: seq<Event>, id: nat, after: seq<Event>)
    requires id in Run(INIT, before).threads
    ensures var s0 := Run(INIT, before);
      var s2 := Run(Step(s0, Clear(id)), after);
      && id in s2.threads
      && Count(s2.pushed, id)
         == Count(s0.pushed, id) + (if s0.threads[id].pc == Firing && Turns(after, id) >= 1 then 1 else 0)
      && (Turns(after, id) >= 3 ==> s2.threads[id].pc == Exited)
      && s2.threads[id].slept <= s0.threads[id].slept + 10
  {
    EveryRunKeepsInv(before);
    ClearSettles(Run(INIT, before), id);
    SettledWindsDown(Step(Run(INIT, before), Clear(id)), after, id);
  }

  /** In every reachable state the id of a cancelled timer is in the fired list at most once. */
  lemma StaleFiringsAreBounded(events: seq<Event>)
    ensures var s := Run(INIT, events);
      forall id :: id in s.threads && s.threads[id].done ==> Count(s.reg.fired, id) <= 1
  {
    EveryRunKeepsInv(events);
  }

  // ---- conservation

  lemma {:induction false} CountOnly(s: seq<nat>, keep: set<nat>, id: nat)
    requires id in keep
    ensures Count(Only(s, keep), id) == Count(s, id)
  {
    if s != [] {
      assert s == [s[0]] + s[1..];
      CountOnly(s[1..], keep, id);
    }
  }

  /**
   * In every reachable state: restricted to the registered timers, the pushes, in order, are the
   * deliveries followed by what is pending; so each registered timer has as many pushes as
   * deliveries and pending entries together.
   */
  lemma FiringsAreConserved(events: seq<Event>)
    ensures var s := Run(INIT, events);
      && Only(s.pushed, s.reg.timers) == Only(Ids(s.delivered), s.reg.timers) + Only(s.reg.fired, s.reg.timers)
      && forall id :: id in s.reg.timers ==>
           Count(s.pushed, id) == Count(Ids(s.delivered), id) + Count(s.reg.fired, id)
  {
    EveryRunKeepsInv(events);
    var s := Run(INIT, events);
    forall id | id in s.reg.timers
      ensures Count(s.pushed, id) == Count(Ids(s.delivered), id) + Count(s.reg.fired, id)
    {
      PushesOfRegistered(s, id);
    }
  }

  lemma PushesOfRegistered(s: System, id: nat)
    requires NothingLost(s) && id in s.reg.timers
    ensures Count(s.pushed, id) == Count(Ids(s.delivered), id) + Count(s.reg.fired, id)
  {
    CountOnly(s.pushed, s.reg.timers, id);
    CountOnly(Ids(s.delivered), s.reg.timers, id);
    CountOnly(s.reg.fired, s.reg.timers, id);
  }

  // ---- order, for cleared timers too

  /** `s` is left of `t` when some elements of `t` are deleted. */
  predicate IsSubsequence(s: seq<nat>, t: seq<nat>) {
    s == [] || (t != [] && ((s[0] == t[0] && IsSubsequence(s[1..], t[1..])) || IsSubsequence(s, t[1..])))
  }

  lemma {:induction false} SubsequenceOfItself(s: seq<nat>)
    ensures IsSubsequence(s, s)
  {
    if s != [] {
      SubsequenceOfItself(s[1..]);
    }
  }

  lemma {:induction false} SubsequenceChain(a: seq<nat>, b: seq<nat>, c: seq<nat>)
    requires IsSubsequence(a, b) && IsSubsequence(b, c)
    ensures IsSubsequence(a, c)
    decreases |c|
  {
    if a != [] {
      if b[0] == c[0] && IsSubsequence(b[1..], c[1..]) {
        if a[0] == b[0] && IsSubsequence(a[1..], b[1..]) {
          SubsequenceChain(a[1..], b[1..], c[1..]);
        } else {
          SubsequenceChain(a, b[1..], c[1..]);
        }
      } else {
        SubsequenceChain(a, b, c[1..]);
      }
    }
  }

  lemma {:induction false} SubsequenceAfter(front: seq<nat>, s: seq<nat>, t: seq<nat>)
    requires IsSubsequence(s, t)
    ensures IsSubsequence(front + s, front + t)
  {
    if front == [] {
      assert front + s == s && front + t == t;
    } else {
      SubsequenceAfter(front[1..], s, t);
      assert (front + s)[1..] == front[1..] + s && (front + t)[1..] == front[1..] + t;
    }
  }

  lemma {:induction false} SubsequenceGrows(s: seq<nat>, t: seq<nat>, x: nat)
    requires IsSubsequence(s, t)
    ensures IsSubsequence(s + [x], t + [x])
    decreases |t|
  {
    if t == [] {
      assert s + [x] == [x] && t + [x] == [x];
      assert IsSubsequence([x], [x]);
    } else {
      assert (t + [x])[1..] == t[1..] + [x];
      if s != [] && s[0] == t[0] && IsSubsequence(s[1..], t[1..]) {
        SubsequenceGrows(s[1..], t[1..], x);
        assert (s + [x])[1..] == s[1..] + [x];
      } else {
        SubsequenceGrows(s, t[1..], x);
      }
    }
  }

  lemma {:induction false} DeletingKeepsOrder(s: seq<nat>, id: nat, keep: set<nat>)
    ensures IsSubsequence(Without(s, id), s) && IsSubsequence(Only(s, keep), s)
  {
    if s != [] {
      DeletingKeepsOrder(s[1..], id, keep);
      assert Without(s, id) == if s[0] == id then Without(s[1..], id) else [s[0]] + Without(s[1..], id);
      assert Only(s, keep) == if s[0] in keep then [s[0]] + Only(s[1..], keep) else Only(s[1..], keep);
    }
  }

  /** What was handed out, followed by what is pending, is what was pushed with some pushes left out. */
  ghost predicate InPushOrder(s: System) {
    IsSubsequence(Ids(s.delivered) + s.reg.fired, s.pushed)
  }

  lemma StepKeepsOrder(s: System, e: Event)
    requires InPushOrder(s)
    ensures InPushOrder(Step(s, e))
  {
    match e
    case SetInterval(_, _) =>
    case Clear(id) => ClearKeepsOrder(s, id);
    case DrainFired => DrainKeepsOrder(s);
    case RunThread(id) =>
      SubsequenceGrows(Ids(s.delivered) + s.reg.fired, s.pushed, id);
      assert Ids(s.delivered) + (s.reg.fired + [id]) == (Ids(s.delivered) + s.reg.fired) + [id];
  }

  lemma ClearKeepsOrder(s: System, id: nat)
    requires InPushOrder(s)
    ensures InPushOrder(Step(s, Clear(id)))
  {
    var sent, fired := Ids(s.delivered), s.reg.fired;
    DeletingKeepsOrder(fired, id, {});
    SubsequenceAfter(sent, Without(fired, id), fired);
    SubsequenceChain(sent + Without(fired, id), sent + fired, s.pushed);
  }

  lemma DrainKeepsOrder(s: System)
    requires InPushOrder(s)
    ensures InPushOrder(Step(s, DrainFired))
  {
    var sent, fired, live := Ids(s.delivered), s.reg.fired, s.reg.callbacks.Keys;
    DeletingKeepsOrder(fired, 0, live);
    SubsequenceAfter(sent, Only(fired, live), fired);
    SubsequenceChain(sent + Only(fired, live), sent + fired, s.pushed);
    DrainSends(s);
    assert sent + Only(fired, live) + [] == sent + Only(fired, live);
  }

  lemma {:induction false} RunKeepsOrder(s: System, events: seq<Event>)
    requires InPushOrder(s)
    ensures InPushOrder(Run(s, events))
    decreases |events|
  {
    if events != [] {
      StepKeepsOrder(s, events[0]);
      RunKeepsOrder(Step(s, events[0]), events[1..]);
    }
  }

  /**
   * In every reachable state and for all timers, cleared ones included: what was handed out,
   * followed by what is pending, is a subsequence of what was pushed. So nothing is handed out
   * twice, out of order, or without a push.
   */
  lemma DeliveryKeepsOrder(events: seq<Event>)
    ensures var s := Run(INIT, events);
      IsSubsequence(Ids(s.delivered) + s.reg.fired, s.pushed)
  {
    RunKeepsOrder(INIT, events);
  }

  // ---- ids

  /** The ids the registrations of a run return, in order; 0 for a refused one. */
  function Returned(s: System, events: seq<Event>): seq<nat>
    decreases |events|
  {
    if events == [] then []
    else
      var rest := Returned(Step(s, events[0]), events[1..]);
      if !events[0].SetInterval? then rest
      else [if Accepts(s.reg, events[0].intervalMs) then s.reg.nextId else 0] + rest
  }

  /** Leaving the refusals out, the ids start at `next` or above and grow strictly. */
  ghost predicate Fresh(ids: seq<nat>, next: nat) {
    && (forall i :: 0 <= i < |ids| && ids[i] != 0 ==> ids[i] >= next)
    && (forall i, j :: 0 <= i < j < |ids| && ids[i] != 0 && ids[j] != 0 ==> ids[i] < ids[j])
  }

  /**
   * Successful registrations return ids that grow strictly over the whole run, so none is ever
   * issued twice, whatever is cleared in between.
   */
  lemma {:induction false} IdsNeverReissued(s: System, events: seq<Event>)
    ensures Fresh(Returned(s, events), s.reg.nextId)
    decreases |events|
  {
    if events != [] {
      var s1 := Step(s, events[0]);
      IdsNeverReissued(s1, events[1..]);
      if events[0].SetInterval? {
        FreshGrows(if Accepts(s.reg, events[0].intervalMs) then s.reg.nextId else 0, Returned(s1, events[1..]),
                   s.reg.nextId, s1.reg.nextId);
      }
    }
  }

  lemma FreshGrows(first: nat, rest: seq<nat>, next: nat, later: nat)
    requires Fresh(rest, later) && next <= later
    requires first != 0 ==> next <= first < later
    ensures Fresh([first] + rest, next)
  {
  }

  /** A refused registration changes nothing; an accepted one gets an id never issued before. */
  lemma RegistrationIsFresh(before: seq<Event>, intervalMs: nat, name: string)
    ensures var s := Run(INIT, before);
      if |s.reg.timers| >= 64 || intervalMs == 0
      then Step(s, SetInterval(intervalMs, name)) == s
      else s.reg.nextId != 0 && s.reg.nextId !in s.threads && s.reg.nextId !in s.reg.timers
           && s.reg.nextId !in s.reg.fired && s.reg.nextId !in s.pushed
  {
    EveryRunKeepsInv(before);
  }

  ghost predicate AllRegister(events: seq<Event>) {
    forall i :: 0 <= i < |events| ==> events[i].SetInterval? && events[i].intervalMs > 0
  }

  /** One more registration takes up one more place, as long as there is one. */
  lemma RegisterOne(s: System, e: Event)
    requires TablesAgree(s) && e.SetInterval? && e.intervalMs > 0
    ensures var s1 := Step(s, e);
      if |s.reg.timers| < 64
      then s1.reg.nextId == s.reg.nextId + 1 && |s1.reg.timers| == |s.reg.timers| + 1
      else s1 == s
  {
    assert s.reg.nextId !in s.reg.timers;
  }

  lemma {:induction false} RegistrationsCountUp(s: System, events: seq<Event>)
    requires TablesAgree(s) && |s.reg.timers| == (if s.reg.nextId <= 65 then s.reg.nextId - 1 else 64)
    requires AllRegister(events) && s.reg.nextId <= 65
    ensures |Returned(s, events)| == |events|
    ensures forall i :: 0 <= i < |events| ==>
      Returned(s, events)[i] == if s.reg.nextId + i <= 64 then s.reg.nextId + i else 0
    decreases |events|
  {
    if events != [] {
      assert forall i :: 0 <= i < |events[1..]| ==> events[1..][i] == events[i + 1];
      TablesKept(s, events[0]);
      RegisterOne(s, events[0]);
      RegistrationsCountUp(Step(s, events[0]), events[1..]);
    }
  }

  /**
   * However many registrations with positive intervals a new registry gets, and nothing is cleared:
   * the first 64 return 1 to 64, and all others are refused.
   */
  lemma FirstRegistrationsSucceed(events: seq<Event>)
    requires AllRegister(events)
    ensures |Returned(INIT, events)| == |events|
    ensures forall i :: 0 <= i < |events| ==> Returned(INIT, events)[i] == if i < 64 then i + 1 else 0
  {
    RegistrationsCountUp(INIT, events);
  }

  /** The tables of every reachable state: at most 64 timers, each with exactly one callback. */
  lemma RegistryStaysBounded(events: seq<Event>)
    ensures var r := Run(INIT, events).reg;
      && |r.timers| <= 64
      && r.timers == r.callbacks.Keys
      && (forall id :: id in r.timers || id in r.fired ==> 1 <= id < r.nextId)
  {
    EveryRunKeepsInv(events);
  }

  // ---- a timer that is left alone fires once every interval

  /** A thread after `n` turns. */
  function After(t: Thread, n: nat): Thread
    decreases n
  {
    if n == 0 then t else After(ThreadStep(t), n - 1)
  }

  /** How many of the next `n` turns push. */
  function Fires(t: Thread, n: nat): nat
    decreases n
  {
    if n == 0 then 0 else LastPush(t) + Fires(ThreadStep(t), n - 1)
  }

  lemma {:induction false} TurnsSplit(t: Thread, a: nat, b: nat)
    ensures After(t, a + b) == After(After(t, a), b)
    ensures Fires(t, a + b) == Fires(t, a) + Fires(After(t, a), b)
    decreases a
  {
    if a > 0 {
      TurnsSplit(ThreadStep(t), a - 1, b);
    }
  }

  lemma TwoTurns(t: Thread)
    ensures After(t, 2) == ThreadStep(ThreadStep(t))
    ensures Fires(t, 2) == LastPush(t) + LastPush(ThreadStep(t))
  {
    assert After(ThreadStep(t), 1) == ThreadStep(ThreadStep(t));
    assert Fires(ThreadStep(t), 1) == LastPush(ThreadStep(t));
  }

  /** The chunks it takes to sleep for `ms` milliseconds. */
  function Chunks(ms: nat): nat {
    (ms + CHUNK_MS - 1) / CHUNK_MS
  }

  /** The turns from one push to the next: two for each chunk, and four for the checks and the push. */
  function Period(interval: nat): nat {
    2 * Chunks(interval) + 4
  }

  lemma {:induction false} SleepLoopRunsDown(t: Thread)
    requires t.pc == ChunkCheck && !t.done
    ensures After(t, 2 * Chunks(t.remaining)) == t.(remaining := 0, slept := t.slept + t.remaining)
    ensures Fires(t, 2 * Chunks(t.remaining)) == 0
    decreases t.remaining
  {
    if t.remaining > 0 {
      var t2 := ThreadStep(ThreadStep(t));
      SleepLoopRunsDown(t2);
      assert Chunks(t.remaining) == Chunks(t2.remaining) + 1;
      TwoTurns(t);
      TurnsSplit(t, 2, 2 * Chunks(t2.remaining));
    }
  }

  /** Undisturbed for one period, a thread sleeps exactly its interval, pushes once, and is back where it was. */
  lemma OnePeriodOnePush(t: Thread)
    requires t.pc == LoopTop && !t.done
    ensures After(t, Period(t.interval)) == t.(remaining := 0, slept := t.interval)
    ensures Fires(t, Period(t.interval)) == 1
    ensures After(t, Period(t.interval) - 1).pc == Firing
  {
    var n := 2 * Chunks(t.interval);
    var t1 := ThreadStep(t);
    var t2 := t1.(remaining := 0, slept := t.interval);
    SleepLoopRunsDown(t1);
    TurnsSplit(t, 1, n);
    assert After(t, 1) == t1 && Fires(t, 1) == 0;
    TurnsSplit(t, 1 + n, 3);
    TurnsSplit(t2, 2, 1);
    TwoTurns(t2);
    TurnsSplit(t, 1 + n, 2);
  }

  /** Before its period is over, a thread does not push. */
  lemma NoPushWithinPeriod(t: Thread, r: nat)
    requires t.pc == LoopTop && !t.done && r < Period(t.interval)
    ensures Fires(t, r) == 0
  {
    var p := Period(t.interval);
    OnePeriodOnePush(t);
    TurnsSplit(t, p - 1, 1);
    TurnsSplit(t, r, p - 1 - r);
    assert Fires(After(t, p - 1), 1) == LastPush(After(t, p - 1));
  }

  lemma OneLess(k: nat, p: nat)
    requires k > 0
    ensures (k - 1) * p >= 0 && k * p == p + (k - 1) * p
  {
  }

  lemma {:induction false} PeriodsAddUp(t: Thread, k: nat, r: nat, n: nat)
    requires t.pc == LoopTop && !t.done && r < Period(t.interval) && n == k * Period(t.interval) + r
    ensures Fires(t, n) == k
    decreases k
  {
    if k == 0 {
      NoPushWithinPeriod(t, r);
    } else {
      var p := Period(t.interval);
      OneLess(k, p);
      var rest: nat := (k - 1) * p + r;
      OnePeriodOnePush(t);
      PeriodsAddUp(After(t, p), k - 1, r, rest);
      TurnsSplit(t, p, rest);
    }
  }

  lemma StepIsLocal(s: System, e: Event, id: nat)
    requires id in s.threads && id < s.reg.nextId && e != Clear(id)
    ensures id in Step(s, e).threads && id < Step(s, e).reg.nextId
    ensures Step(s, e).threads[id] == if e == RunThread(id) then ThreadStep(s.threads[id]) else s.threads[id]
    ensures Count(Step(s, e).pushed, id)
         == Count(s.pushed, id) + if e == RunThread(id) then LastPush(s.threads[id]) else 0
  {
  }

  /** As long as a timer is not cleared, only its own turns move its thread. */
  lemma {:induction false} OnlyOwnTurnsMatter(s: System, events: seq<Event>, id: nat)
    requires id in s.threads && id < s.reg.nextId
    requires forall i :: 0 <= i < |events| ==> events[i] != Clear(id)
    ensures var s2 := Run(s, events);
      && id in s2.threads
      && s2.threads[id] == After(s.threads[id], Turns(events, id))
      && Count(s2.pushed, id) == Count(s.pushed, id) + Fires(s.threads[id], Turns(events, id))
    decreases |events|
  {
    if events != [] {
      StepIsLocal(s, events[0], id);
      assert forall i :: 0 <= i < |events[1..]| ==> events[1..][i] == events[i + 1];
      OnlyOwnTurnsMatter(Step(s, events[0]), events[1..], id);
    }
  }

  /**
   * A timer that nobody clears fires once every interval: from the top of its loop on, whatever
   * number of turns its thread takes, it pushes once for every whole period among them, however the
   * other events are interleaved.
   */
  lemma FiresOncePerInterval(before: seq<Event>, id: nat, after: seq<Event>, k: nat, r: nat)
    requires var s := Run(INIT, before);
      && id in s.threads && s.threads[id].pc == LoopTop && !s.threads[id].done
      && r < Period(s.threads[id].interval)
      && Turns(after, id) == k * Period(s.threads[id].interval) + r
    requires forall i :: 0 <= i < |after| ==> after[i] != Clear(id)
    ensures var s := Run(INIT, before);
      Count(Run(s, after).pushed, id) == Count(s.pushed, id) + k
  {
    EveryRunKeepsInv(before);
    OnlyOwnTurnsMatter(Run(INIT, before), after, id);
    PeriodsAddUp(Run(INIT, before).threads[id], k, r, Turns(after, id));
  }

  lemma RegisteredIsLive(s: System, ms: nat, name: string)
    requires Inv(s) && |s.reg.timers| < 64 && ms > 0
    ensures var s1, id := Step(s, SetInterval(ms, name)), s.reg.nextId;
      && s1.threads.Keys == s.threads.Keys + {id} && s1.threads[id] == Thread(LoopTop, ms, 0, 0, false)
      && s1.reg.nextId > id && s1.names[id] == name && s1.pushed == s.pushed
      && Count(s1.pushed, id) == 0
  {
  }

  lemma {:induction false} ThreadStaysUp(t: Thread, n: nat)
    ensures After(t, n).done == t.done && After(t, n).interval == t.interval
    decreases n
  {
    if n > 0 {
      ThreadStaysUp(ThreadStep(t), n - 1);
    }
  }

  /** A thread that starts and is left alone pushes once a period, and all its pushes are accounted for. */
  lemma StartedThreadFires(s: System, id: nat, after: seq<Event>, k: nat, r: nat)
    requires Inv(s) && id in s.threads && s.threads[id].pc == LoopTop && !s.threads[id].done && Count(s.pushed, id) == 0
    requires forall i :: 0 <= i < |after| ==> after[i] != Clear(id)
    requires r < Period(s.threads[id].interval) && Turns(after, id) == k * Period(s.threads[id].interval) + r
    ensures var s2 := Run(s, after);
      Count(s2.pushed, id) == k && Count(Ids(s2.delivered), id) + Count(s2.reg.fired, id) == k
  {
    OnlyOwnTurnsMatter(s, after, id);
    PeriodsAddUp(s.threads[id], k, r, Turns(after, id));
    RunKeepsInv(s, after);
    ThreadStaysUp(s.threads[id], Turns(after, id));
    PushesOfRegistered(Run(s, after), id);
  }

  /**
   * From registration on: a timer with the interval `ms`, registered while fewer than 64 are, and not
   * cleared, fires once for every whole period of `ms` among its thread's turns, and each of those
   * firings has been handed out or is pending.
   */
  lemma RegisteredTimerFires(before: seq<Event>, ms: nat, name: string, after: seq<Event>, k: nat, r: nat)
    requires |Run(INIT, before).reg.timers| < 64 && ms > 0
    requires forall i :: 0 <= i < |after| ==> after[i] != Clear(Run(INIT, before).reg.nextId)
    requires r < Period(ms) && Turns(after, Run(INIT, before).reg.nextId) == k * Period(ms) + r
    ensures var id := Run(INIT, before).reg.nextId;
      var s := Run(Step(Run(INIT, before), SetInterval(ms, name)), after);
      && Count(s.pushed, id) == k
      && Count(Ids(s.delivered), id) + Count(s.reg.fired, id) == k
  {
    var s0 := Run(INIT, before);
    EveryRunKeepsInv(before);
    StepKeeps(s0, SetInterval(ms, name));
    RegisteredIsLive(s0, ms, name);
    StartedThreadFires(Step(s0, SetInterval(ms, name)), s0.reg.nextId, after, k, r);
  }

  /** Every push comes after exactly the interval of sleep since the thread's last turn at the top. */
  lemma PushAfterWholeInterval(before: seq<Event>, id: nat)
    requires var s := Run(INIT, before); id in s.threads && s.threads[id].pc == Firing
    ensures var t := Run(INIT, before).threads[id]; t.slept == t.interval
  {
    EveryRunKeepsInv(before);
  }

  function Alone(id: nat, n: nat): (r: seq<Event>)
    ensures |r| == n && forall i :: 0 <= i < n ==> r[i] == RunThread(id)
  {
    seq(n, _ => RunThread(id))
  }

  lemma {:induction false} AloneTurns(id: nat, n: nat)
    ensures Turns(Alone(id, n), id) == n
  {
    if n > 0 {
      assert Alone(id, n)[1..] == Alone(id, n - 1);
      AloneTurns(id, n - 1);
    }
  }

  lemma {:induction false} RunAppends(s: System, a: seq<Event>, b: seq<Event>)
    ensures Run(s, a + b) == Run(Run(s, a), b)
    decreases |a|
  {
    if a == [] {
      assert a + b == b;
    } else {
      assert (a + b)[1..] == a[1..] + b;
      RunAppends(Step(s, a[0]), a[1..], b);
    }
  }

  /**
   * The race is real: for every interval there is a run in which a timer is cleared after its thread
   * passed the last check, and the late push leaves an unregistered id in the fired list.
   */
  lemma LatePushHappens(ms: nat, name: string)
    requires ms > 0
    ensures var s := Run(INIT, [SetInterval(ms, name)] + Alone(1, Period(ms) - 1) + [Clear(1), RunThread(1)]);
      1 in s.reg.fired && 1 !in s.reg.timers
  {
    var n := Period(ms) - 1;
    var s0 := Step(INIT, SetInterval(ms, name));
    var s1 := Run(s0, Alone(1, n));
    assert Run(INIT, [SetInterval(ms, name)]) == s0;
    RunAppends(INIT, [SetInterval(ms, name)], Alone(1, n));
    RunAppends(INIT, [SetInterval(ms, name)] + Alone(1, n), [Clear(1), RunThread(1)]);
    OnePeriodOnePush(s0.threads[1]);
    AloneTurns(1, n);
    OnlyOwnTurnsMatter(s0, Alone(1, n), 1);
    assert s1.threads[1].pc == Firing;
    ClearThenPush(s1, 1);
  }

  lemma ClearThenPush(s: System, id: nat)
    requires id in s.threads && s.threads[id].pc == Firing
    ensures var s2 := Run(s, [Clear(id), RunThread(id)]);
      id in s2.reg.fired && id !in s2.reg.timers
  {
    var s1 := Step(s, Clear(id));
    assert Run(s1, [RunThread(id)]) == Run(Step(s1, RunThread(id)), []);
    assert [Clear(id), RunThread(id)][1..] == [RunThread(id)];
  }
}
