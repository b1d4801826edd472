/** The document cache with least-recently-used eviction (gui-renderer/src/cache.rs). */
module UidlCache {
  import opened Options
  import opened Uidl

  datatype Entry = Entry(document: Document, lastAccessed: int)

  type Entries = map<string, Entry>

  /** Every two entries were last accessed at different instants, all before `now`. */
  ghost predicate Clocked(entries: Entries, now: int) {
    && (forall k :: k in entries ==> entries[k].lastAccessed < now)
    && (forall i, j :: i in entries && j in entries && i != j ==> entries[i].lastAccessed != entries[j].lastAccessed)
  }

  /** `k` is an entry that no other entry is older than. */
  predicate IsOldest(entries: Entries, k: string) {
    k in entries && forall j :: j in entries ==> entries[k].lastAccessed <= entries[j].lastAccessed
  }

  lemma {:induction false} OldestExists(entries: Entries, among: set<string>) returns (k: string)
    requires among != {} && among <= entries.Keys
    ensures k in among && forall j :: j in among ==> entries[k].lastAccessed <= entries[j].lastAccessed
    decreases |among|
  {
    k :| k in among;
    if among != {k} {
      var other := OldestExists(entries, among - {k});
      if entries[other].lastAccessed < entries[k].lastAccessed {
        k := other;
      }
    }
  }

  /** The entry that is evicted from a full cache. */
  ghost function Oldest(entries: Entries): (k: string)
    requires |entries| > 0
    ensures IsOldest(entries, k)
  {
    assert exists k :: IsOldest(entries, k) by {
      var k := OldestExists(entries, entries.Keys);
      assert IsOldest(entries, k);
    }
    var k :| IsOldest(entries, k);
    k
  }

  function Removed(entries: Entries, key: string): (r: Entries)
    ensures r.Keys == entries.Keys - {key}
    ensures forall k :: k in r ==> r[k] == entries[k]
  {
    map k | k in entries && k != key :: entries[k]
  }

  /** Makes room: a full cache loses its oldest entry. */
  ghost function MakeRoom(entries: Entries, maxEntries: nat): Entries {
    if |entries| >= maxEntries && |entries| > 0 then Removed(entries, Oldest(entries)) else entries
  }

  // ---- operations and whole runs

  datatype Op =
    | Get(key: string)
    | Insert(key: string, document: Document)
    | Invalidate(key: string)
    | Clear

  /** An operation and the instant it happens at. */
  datatype Timed = At(now: int, op: Op)

  ghost function Apply(entries: Entries, maxEntries: nat, t: Timed): Entries {
    match t.op
    case Get(key) => if key in entries then entries[key := entries[key].(lastAccessed := t.now)] else entries
    case Insert(key, document) => MakeRoom(entries, maxEntries)[key := Entry(document, t.now)]
    case Invalidate(key) => Removed(entries, key)
    case Clear => map[]
  }

  /** The cache after a log of operations, the last of the list being the latest. */
  ghost function Replay(log: seq<Timed>, maxEntries: nat): Entries {
    if log == [] then map[] else Apply(Replay(log[..|log| - 1], maxEntries), maxEntries, log[|log| - 1])
  }

  /** The monotonic clock: each operation happens later than the one before. */
  ghost predicate Ticking(log: seq<Timed>) {
    forall i, j :: 0 <= i < j < |log| ==> log[i].now < log[j].now
  }

  lemma OldestIsUnique(entries: Entries, now: int, i: string, j: string)
    requires Clocked(entries, now) && IsOldest(entries, i) && IsOldest(entries, j)
    ensures i == j
  {
  }

  /** Goes through the entries in any order. */
  method LeastRecentlyUsed(entries: Entries) returns (lru: string)
    requires |entries| > 0
    ensures IsOldest(entries, lru)
  {
    assert entries.Keys != {};
    var rest := entries.Keys;
    lru :| lru in rest;
    rest := rest - {lru};
    while rest != {}
      invariant rest <= entries.Keys && lru in entries
      invariant forall k :: k in entries && k !in rest ==> entries[lru].lastAccessed <= entries[k].lastAccessed
      decreases |rest|
    {
      var k :| k in rest;
      if entries[k].lastAccessed < entries[lru].lastAccessed {
        lru := k;
      }
      rest := rest - {k};
    }
  }

  class Cache {
    var entries: Entries
    const maxEntries: nat

    constructor (maxEntries: nat)
      ensures entries == map[] && this.maxEntries == maxEntries
    {
      this.maxEntries := maxEntries;
      entries := map[];
    }

    /** Looks a document up, and notes the access. */
    method Get(key: string, now: int) returns (document: Option<Document>)
      modifies this
      ensures document == if key in old(entries) then Some(old(entries)[key].document) else None
      ensures entries == Apply(old(entries), maxEntries, At(now, Op.Get(key)))
      ensures old(Clocked(entries, now)) ==> Clocked(entries, now + 1)
    {
      if key in entries {
        entries := entries[key := entries[key].(lastAccessed := now)];
        document := Some(entries[key].document);
      } else {
        document := None;
      }
    }

    /**
     * Stores a document; if the cache is full, a least recently used entry goes first. With a
     * ticking clock there is only one such entry, and this is the step of `Apply`.
     */
    method Insert(key: string, document: Document, now: int)
      modifies this
      ensures if |old(entries)| >= maxEntries && |old(entries)| > 0
              then exists lru :: (IsOldest(old(entries), lru)
                                  && entries == Removed(old(entries), lru)[key := Entry(document, now)])
              else entries == old(entries)[key := Entry(document, now)]
      ensures old(Clocked(entries, now)) ==>
        && entries == Apply(old(entries), maxEntries, At(now, Op.Insert(key, document)))
        && Clocked(entries, now + 1)
    {
      ghost var before := entries;
      if |entries| >= maxEntries && |entries| > 0 {
        var lru := LeastRecentlyUsed(entries);
        if Clocked(entries, now) {
          OldestIsUnique(entries, now, lru, Oldest(entries));
        }
        entries := Removed(entries, lru);
        assert IsOldest(before, lru) && entries == Removed(before, lru);
      }
      entries := entries[key := Entry(document, now)];
    }

    method Invalidate(key: string)
      modifies this
      ensures forall now :: entries == Apply(old(entries), maxEntries, At(now, Op.Invalidate(key)))
    {
      entries := Removed(entries, key);
    }

    method Clear()
      modifies this
      ensures entries == map[]
    {
      entries := map[];
    }
  }

  // ---- the clock and the size

  lemma {:induction false} RunsAreClocked(log: seq<Timed>, maxEntries: nat, now: int)
    requires Ticking(log) && (log != [] ==> log[|log| - 1].now < now)
    ensures Clocked(Replay(log, maxEntries), now)
  {
    if log != [] {
      RunsAreClocked(log[..|log| - 1], maxEntries, log[|log| - 1].now);
    }
  }

  /** However it is used, the cache holds at most `max(1, maxEntries)` documents. */
  lemma {:induction false} SizeIsBounded(log: seq<Timed>, maxEntries: nat)
    ensures |Replay(log, maxEntries)| <= if maxEntries == 0 then 1 else maxEntries
  {
    if log != [] {
      var before := Replay(log[..|log| - 1], maxEntries);
      SizeIsBounded(log[..|log| - 1], maxEntries);
      match log[|log| - 1].op
      case Get(key) =>
        assert key in before ==> Replay(log, maxEntries).Keys == before.Keys;
      case Insert(key, document) =>
        var room := MakeRoom(before, maxEntries);
        assert room[key := Entry(document, 0)].Keys == room.Keys + {key};
        assert |before| == |before.Keys|;
      case Invalidate(key) =>
        assert |before.Keys - {key}| <= |before.Keys|;
      case Clear =>
    }
  }

  /** The promised bound, `maxEntries` itself, is kept exactly by the caches created for at least one document. */
  lemma CapacityIsKept(maxEntries: nat, document: Document)
    ensures (forall log: seq<Timed> :: |Replay(log, maxEntries)| <= maxEntries) <==> maxEntries >= 1
  {
    if maxEntries == 0 {
      var log := [At(0, Insert("a", document))];
      assert log[..0] == [];
      assert Replay(log, 0) == map["a" := Entry(document, 0)];
      assert |Replay(log, 0)| == 1;
    } else {
      forall log: seq<Timed>
        ensures |Replay(log, maxEntries)| <= maxEntries
      {
        SizeIsBounded(log, maxEntries);
      }
    }
  }

  // ---- coherence with a map that forgets nothing

  /** The same operations on a map without a bound. */
  function Unbounded(log: seq<Timed>): map<string, Document> {
    if log == [] then map[]
    else
      var before := Unbounded(log[..|log| - 1]);
      match log[|log| - 1].op
      case Get(_) => before
      case Insert(key, document) => before[key := document]
      case Invalidate(key) => map k | k in before && k != key :: before[k]
      case Clear => map[]
  }

  /**
   * Whatever the cache still holds is what the unbounded map holds: the document most recently
   * inserted under that key, and not invalidated or cleared since.
   */
  lemma {:induction false} CacheIsCoherent(log: seq<Timed>, maxEntries: nat)
    ensures forall k :: k in Replay(log, maxEntries) ==>
      k in Unbounded(log) && Unbounded(log)[k] == Replay(log, maxEntries)[k].document
  {
    if log != [] {
      CacheIsCoherent(log[..|log| - 1], maxEntries);
    }
  }

  // ---- recency

  predicate Touches(op: Op, key: string) {
    (op.Get? || op.Insert?) && op.key == key
  }

  /** Whether and when the key was last read or written, by the log alone. */
  function LastTouch(log: seq<Timed>, key: string): Option<int> {
    if log == [] then None
    else if Touches(log[|log| - 1].op, key) then Some(log[|log| - 1].now)
    else LastTouch(log[..|log| - 1], key)
  }

  /** The recorded access times are those of the log. */
  lemma {:induction false} StampsAreLastTouches(log: seq<Timed>, maxEntries: nat)
    ensures forall k :: k in Replay(log, maxEntries) ==>
      LastTouch(log, k) == Some(Replay(log, maxEntries)[k].lastAccessed)
  {
    if log != [] {
      StampsAreLastTouches(log[..|log| - 1], maxEntries);
    }
  }

  ghost predicate LaterTouched(log: seq<Timed>, key: string, other: string) {
    && other != key && LastTouch(log, other).Some? && LastTouch(log, key).Some?
    && LastTouch(log, other).value > LastTouch(log, key).value
  }

  /**
   * If an insertion into the cache of a ticking log makes room by dropping `victim`, then at least
   * `maxEntries - 1` other keys have been touched after the last touch of `victim`, and every key
   * that stays is one of them.
   */
  lemma EvictedIsLeastRecent(log: seq<Timed>, maxEntries: nat, victim: string) returns (others: set<string>)
    requires Ticking(log)
    requires var cached := Replay(log, maxEntries);
      victim in cached && victim !in MakeRoom(cached, maxEntries)
    ensures |others| >= maxEntries - 1
    ensures forall k :: k in others ==> LaterTouched(log, victim, k)
    ensures MakeRoom(Replay(log, maxEntries), maxEntries).Keys == others
  {
    var cached := Replay(log, maxEntries);
    RunsAreClocked(log, maxEntries, if log == [] then 0 else log[|log| - 1].now + 1);
    StampsAreLastTouches(log, maxEntries);
    others := cached.Keys - {victim};
  }

  /**
   * When an insertion costs another key its entry: exactly when the cache is full and the oldest
   * entry belongs to a different key. An overwrite in a full cache can do that too.
   */
  lemma InsertDropsOther(entries: Entries, maxEntries: nat, now: int, key: string, document: Document)
    ensures (exists k :: k in entries && k != key && k !in Apply(entries, maxEntries, At(now, Insert(key, document))))
       <==> |entries| >= maxEntries && |entries| > 0 && Oldest(entries) != key
  {
  }

  // ---- retention

  /** The keys other than `key` that the operations touch. */
  function OthersTouched(ops: seq<Timed>, key: string): set<string> {
    set t | t in ops && (t.op.Get? || t.op.Insert?) && t.op.key != key :: t.op.key
  }

  ghost predicate Drops(op: Op, key: string) {
    op.Clear? || (op.Invalidate? && op.key == key)
  }

  lemma {:induction false} TouchedInTail(log: seq<Timed>, tail: seq<Timed>, key: string, other: string)
    requires Ticking(log + tail)
    requires LastTouch(log, key).Some? && log != [] && Touches(log[|log| - 1].op, key)
    requires LaterTouched(log + tail, key, other)
    ensures other in OthersTouched(tail, key)
  {
    var all := log + tail;
    if tail == [] {
      assert all == log;
      TouchBefore(log, other);
    } else {
      var last := tail[|tail| - 1];
      assert all[|all| - 1] == last && all[..|all| - 1] == log + tail[..|tail| - 1];
      assert last in tail;
      if !Touches(last.op, other) {
        if Touches(last.op, key) {
          TouchBefore(all, other);
        } else {
          TouchedInTail(log, tail[..|tail| - 1], key, other);
          assert forall t :: t in tail[..|tail| - 1] ==> t in tail;
        }
      }
    }
  }

  lemma {:induction false} TouchBefore(log: seq<Timed>, key: string)
    requires Ticking(log) && log != []
    ensures LastTouch(log, key).Some? ==> LastTouch(log, key).value <= log[|log| - 1].now
  {
    if !Touches(log[|log| - 1].op, key) && |log| > 1 {
      TouchBefore(log[..|log| - 1], key);
    }
  }

  /** Fewer other keys than this leave a key that was just touched in its place. */
  function Spare(maxEntries: nat): nat {
    if maxEntries >= 2 then maxEntries - 1 else 1
  }

  /** The last operation of `log` touched the key, the key is cached, and no operation of `tail` drops it by name. */
  ghost predicate JustTouched(log: seq<Timed>, tail: seq<Timed>, maxEntries: nat, key: string) {
    && Ticking(log + tail)
    && log != [] && Touches(log[|log| - 1].op, key) && key in Replay(log, maxEntries)
    && forall t :: t in tail ==> !Drops(t.op, key)
  }

  /**
   * A guarantee to the user of the cache: a key that was just read or written and is cached stays
   * cached as long as it is not invalidated and fewer than `Spare` other keys are touched.
   */
  lemma {:induction false} RecentKeysAreKept(
    log: seq<Timed>, tail: seq<Timed>, maxEntries: nat, key: string)
    requires JustTouched(log, tail, maxEntries, key)
    requires |OthersTouched(tail, key)| < Spare(maxEntries)
    ensures key in Replay(log + tail, maxEntries)
    decreases |tail|
  {
    if tail == [] {
      assert log + tail == log;
    } else {
      var most, last := tail[..|tail| - 1], tail[|tail| - 1];
      assert (log + tail)[..|log + tail| - 1] == log + most && (log + tail)[|log + tail| - 1] == last;
      assert last in tail;
      FewerTouched(most, tail, key);
      RecentKeysAreKept(log, most, maxEntries, key);
      if last.op.Insert? && last.op.key != key {
        assert last.op.key in OthersTouched(tail, key);
        if key !in MakeRoom(Replay(log + most, maxEntries), maxEntries) {
          var others := EvictedIsLeastRecent(log + most, maxEntries, key);
          forall k | k in others
            ensures k in OthersTouched(most, key)
          {
            TouchedInTail(log, most, key, k);
          }
          SubsetSize(others, OthersTouched(most, key));
          assert false;
        }
      }
    }
  }

  lemma {:induction false} UnboundedKeeps(log: seq<Timed>, tail: seq<Timed>, key: string)
    requires key in Unbounded(log)
    requires forall t :: t in tail ==> !Drops(t.op, key) && !(t.op.Insert? && t.op.key == key)
    ensures key in Unbounded(log + tail) && Unbounded(log + tail)[key] == Unbounded(log)[key]
    decreases |tail|
  {
    if tail == [] {
      assert log + tail == log;
    } else {
      var last := tail[|tail| - 1];
      assert (log + tail)[..|log + tail| - 1] == log + tail[..|tail| - 1] && (log + tail)[|log + tail| - 1] == last;
      assert last in tail && forall t :: t in tail[..|tail| - 1] ==> t in tail;
      UnboundedKeeps(log, tail[..|tail| - 1], key);
    }
  }

  /**
   * Read what you wrote: the document inserted last under a key is the one the cache returns for it,
   * as long as the key is not written again or dropped by name and fewer than `Spare` other keys are
   * touched.
   */
  lemma RecentInsertIsServed(log: seq<Timed>, tail: seq<Timed>, maxEntries: nat, key: string, document: Document)
    requires Ticking(log + tail)
    requires log != [] && log[|log| - 1].op == Insert(key, document)
    requires forall t :: t in tail ==> !Drops(t.op, key) && !(t.op.Insert? && t.op.key == key)
    requires |OthersTouched(tail, key)| < Spare(maxEntries)
    ensures key in Replay(log + tail, maxEntries) && Replay(log + tail, maxEntries)[key].document == document
  {
    assert key in Replay(log, maxEntries);
    RecentKeysAreKept(log, tail, maxEntries, key);
    UnboundedKeeps(log, tail, key);
    CacheIsCoherent(log + tail, maxEntries);
  }

  // ---- the guarantee is sharp

  /** Keys that are pairwise different. */
  function Key(i: nat): string {
    seq(i, _ => 'k')
  }

  function Keys(lo: nat, hi: nat): set<string> {
    set i: nat | lo <= i < hi :: Key(i)
  }

  lemma {:induction false} KeysAreDistinct(lo: nat, hi: nat)
    requires lo <= hi
    ensures |Keys(lo, hi)| == hi - lo
    ensures forall i: nat :: Key(i) in Keys(lo, hi) <==> lo <= i < hi
    decreases hi
  {
    assert forall i: nat :: |Key(i)| == i;
    if lo < hi {
      KeysAreDistinct(lo, hi - 1);
      assert Keys(lo, hi) == Keys(lo, hi - 1) + {Key(hi - 1)};
    }
  }

  /** The first `n` keys, inserted one after the other. */
  function Fill(n: nat, document: Document): seq<Timed> {
    seq(n, i requires 0 <= i < n => At(i, Insert(Key(i), document)))
  }

  function FillThen(n: nat, key: string, document: Document): (log: seq<Timed>)
    ensures |log| == n + 1 && log[..n] == Fill(n, document)
    ensures forall t :: t in log ==> t.op.Insert?
  {
    Fill(n, document) + [At(n, Insert(key, document))]
  }

  ghost predicate IsFilled(entries: Entries, n: nat, document: Document) {
    && entries.Keys == Keys(0, n)
    && |entries| == n
    && forall i: nat :: i < n ==> entries[Key(i)] == Entry(document, i)
  }

  lemma {:induction false} FillKeepsAll(n: nat, document: Document, maxEntries: nat)
    requires n <= 1 || n <= maxEntries
    ensures IsFilled(Replay(Fill(n, document), maxEntries), n, document)
  {
    if n > 0 {
      var before := Replay(Fill(n - 1, document), maxEntries);
      FillKeepsAll(n - 1, document, maxEntries);
      assert Fill(n, document)[..n - 1] == Fill(n - 1, document);
      var last := At(n - 1, Insert(Key(n - 1), document));
      assert Fill(n, document)[n - 1] == last;
      assert Apply(before, maxEntries, last) == before[Key(n - 1) := Entry(document, n - 1)];
      FillOne(before, n - 1, document);
    }
  }

  lemma FillOne(entries: Entries, n: nat, document: Document)
    requires IsFilled(entries, n, document)
    ensures IsFilled(entries[Key(n) := Entry(document, n)], n + 1, document)
  {
    var more := entries[Key(n) := Entry(document, n)];
    KeysAreDistinct(0, n);
    KeysAreDistinct(0, n + 1);
    assert more.Keys == entries.Keys + {Key(n)};
    assert Keys(0, n + 1) == Keys(0, n) + {Key(n)};
    assert |more| == |more.Keys|;
    assert forall i: nat :: |Key(i)| == i;
  }

  /** A cache filled up with keys loses the first of them to any insertion of another key. */
  lemma OneMoreDropsFirst(n: nat, document: Document, maxEntries: nat, key: string)
    requires n >= 1 && maxEntries <= n && (n <= 1 || n <= maxEntries) && key != Key(0)
    ensures Key(0) in Replay(Fill(n, document), maxEntries)
    ensures Key(0) !in Replay(FillThen(n, key, document), maxEntries)
  {
    var full := Replay(Fill(n, document), maxEntries);
    var all := FillThen(n, key, document);
    FillKeepsAll(n, document, maxEntries);
    KeysAreDistinct(0, n);
    assert all[..|all| - 1] == Fill(n, document);
    assert IsOldest(full, Oldest(full)) && full[Key(0)].lastAccessed == 0;
    assert Oldest(full) in Keys(0, n);
    var i: nat :| i < n && Oldest(full) == Key(i);
    assert i == 0;
  }

  /**
   * The bound of `RecentKeysAreKept` cannot be raised, at any capacity: there is a run that touches
   * exactly `Spare` other keys after the last touch of `key`, and `key` is gone.
   */
  lemma RetentionBoundIsSharp(maxEntries: nat, document: Document)
    returns (log: seq<Timed>, tail: seq<Timed>, key: string)
    ensures JustTouched(log, tail, maxEntries, key)
    ensures |OthersTouched(tail, key)| == Spare(maxEntries)
    ensures key !in Replay(log + tail, maxEntries)
  {
    var n := if maxEntries >= 1 then maxEntries else 1;
    var other := if n >= 2 then n - 1 else 1;
    var all := FillThen(n, Key(other), document);
    log, tail, key := all[..1], all[1..], Key(0);
    assert log + tail == all;
    FirstIsJustTouched(n, Key(other), document, maxEntries);
    assert |Key(other)| == other && |Key(0)| == 0;
    OneMoreDropsFirst(n, document, maxEntries, Key(other));
    KeysAreDistinct(1, other + 1);
    TailTouches(n, other, document);
  }

  lemma FirstIsJustTouched(n: nat, key: string, document: Document, maxEntries: nat)
    requires n >= 1
    ensures JustTouched(FillThen(n, key, document)[..1], FillThen(n, key, document)[1..], maxEntries, Key(0))
  {
    var all := FillThen(n, key, document);
    var log, tail := all[..1], all[1..];
    assert log == Fill(1, document) && log + tail == all;
    assert Touches(log[0].op, Key(0));
    assert forall t :: t in tail ==> t in all;
    FillKeepsAll(1, document, maxEntries);
    KeysAreDistinct(0, 1);
    assert Key(0) in Replay(log, maxEntries);
  }

  lemma TailTouches(n: nat, other: nat, document: Document)
    requires n >= 1 && other == if n >= 2 then n - 1 else 1
    ensures OthersTouched(FillThen(n, Key(other), document)[1..], Key(0)) == Keys(1, other + 1)
  {
    var tail := FillThen(n, Key(other), document)[1..];
    assert forall i: nat :: |Key(i)| == i;
    assert tail[|tail| - 1] == At(n, Insert(Key(other), document));
    assert forall i :: 1 <= i < n ==> tail[i - 1] == At(i, Insert(Key(i), document));
    forall k | k in Keys(1, other + 1)
      ensures k in OthersTouched(tail, Key(0))
    {
      var i: nat :| 1 <= i < other + 1 && k == Key(i);
      var t := if i == other then tail[|tail| - 1] else tail[i - 1];
      assert t in tail && t.op.key == k;
    }
  }

  /**
   * At every capacity of two or more, a run can fill the cache and then overwrite a key that is
   * cached, and a different key loses its entry although no room was needed.
   */
  lemma OverwriteCanDropOther(maxEntries: nat, document: Document) returns (log: seq<Timed>, lost: string)
    requires maxEntries >= 2
    ensures Ticking(log) && log != [] && log[|log| - 1].op.Insert?
    ensures var before, key := Replay(log[..|log| - 1], maxEntries), log[|log| - 1].op.key;
      && key in before && lost in before && lost != key
      && lost !in Replay(log, maxEntries)
  {
    var n := maxEntries;
    log := FillThen(n, Key(n - 1), document);
    lost := Key(0);
    assert |Key(n - 1)| == n - 1 && |Key(0)| == 0;
    assert log[..|log| - 1] == Fill(n, document);
    FillKeepsAll(n, document, maxEntries);
    KeysAreDistinct(0, n);
    OneMoreDropsFirst(n, document, maxEntries, Key(n - 1));
  }

  lemma FewerTouched(most: seq<Timed>, tail: seq<Timed>, key: string)
    requires tail != [] && most == tail[..|tail| - 1]
    ensures |OthersTouched(most, key)| <= |OthersTouched(tail, key)|
    ensures forall t :: t in most ==> t in tail
  {
    SubsetSize(OthersTouched(most, key), OthersTouched(tail, key));
  }

  lemma {:induction false} SubsetSize<T>(a: set<T>, b: set<T>)
    requires a <= b
    ensures |a| <= |b|
  {
    assert b == a + (b - a);
  }
}
