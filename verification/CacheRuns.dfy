/**
 Every interleaving of gets and background computes over the fragment cache.
 A get is one step, as it holds the mutex throughout. A compute is a worker that
 returns or panics, stores what it has, gives its slot back and only then clears
 the entry's flag, in the source's order.
 */
module CacheRuns {
  import opened Bytes
  import opened FragmentCache

  datatype Phase = Computing | Storing(html: Html) | Releasing | Clearing

  datatype Worker = Worker(key: Key, entry: nat, phase: Phase)

  // `returned` and `peak` are history: what computes returned, and the most entries ever computing.
  datatype System = System(
    c: Cache,
    now: int,
    workers: map<nat, Worker>,
    spawned: nat,
    returned: set<(Key, Html)>,
    peak: nat)

  datatype Step =
    | Get(key: Key, ttl: int, victim: Option<Key>)
    | Return(w: nat, html: Html)
    | Panic(w: nat)
    | Store(w: nat)
    | Release(w: nat)
    | Clear(w: nat)
    | Tick(to: int)

  // An empty cache, with no compute under way.
  ghost predicate IsInitial(s: System) {
    && s.c.m == map[] && s.c.entries == [] && s.c.slots == 0
    && s.now > 0 && s.workers == map[] && s.spawned == 0 && s.returned == {} && s.peak == 0
  }

  ghost function ComputingKeys(c: Cache): set<Key>
    requires c.Valid()
  {
    set k | k in c.m && c.Entry(k).computing
  }

  ghost predicate InPhase(s: System, w: nat, phase: Phase) {
    w in s.workers && s.workers[w].phase == phase
  }

  // A worker whose entry handle is good; every reachable one is.
  ghost predicate Sound(s: System, w: nat) {
    w in s.workers && s.workers[w].entry < |s.c.entries|
  }

  ghost predicate Enabled(s: System, step: Step) {
    match step
    case Get(key, ttl, victim) =>
      s.c.Valid() && (key !in s.c.m && Full(s.c) ==> MayEvict(s.c, victim))
    case Return(w, html) => InPhase(s, w, Computing)
    case Panic(w) => InPhase(s, w, Computing)
    case Store(w) => Sound(s, w) && s.workers[w].phase.Storing?
    case Release(w) => InPhase(s, w, Releasing) && s.c.slots > 0
    case Clear(w) => Sound(s, w) && s.workers[w].phase == Clearing
    case Tick(to) => s.now <= to
  }

  ghost function MoveTo(s: System, w: nat, phase: Phase): System
    requires w in s.workers
  {
    s.(workers := s.workers[w := s.workers[w].(phase := phase)])
  }

  ghost function Max(a: nat, b: nat): nat {
    if a < b then b else a
  }

  // A get that starts nothing: the map may lose an idle entry and gain a fresh one.
  ghost function LookedSystem(s: System, key: Key, victim: Option<Key>): System {
    s.(c := Looked(s.c, key, victim))
  }

  // Starting a compute for `key` on an idle entry.
  ghost function StartedSystem(s: System, key: Key, peak: nat): System
    requires key in s.c.m && s.c.m[key] < |s.c.entries|
  {
    s.(c := Started(s.c, key),
       workers := s.workers[s.spawned := Worker(key, s.c.m[key], Computing)],
       spawned := s.spawned + 1,
       peak := peak)
  }

  ghost function ApplyGet(s: System, key: Key, ttl: int, victim: Option<Key>): System
    requires s.c.Valid()
  {
    var looked := LookedSystem(s, key, victim);
    if Starts(looked.c, key, ttl, s.now)
    then StartedSystem(looked, key, Max(s.peak, 1 + |ComputingKeys(s.c)|)) else looked
  }

  ghost function Apply(s: System, step: Step): System
    requires Enabled(s, step)
  {
    match step
    case Get(key, ttl, victim) => ApplyGet(s, key, ttl, victim)
    case Return(w, html) =>
      MoveTo(s, w, if html != "" then Storing(html) else Releasing)
        .(returned := s.returned + {(s.workers[w].key, html)})
    case Panic(w) => MoveTo(s, w, Releasing)
    case Store(w) =>
      MoveTo(s, w, Releasing).(c := Stored(s.c, s.workers[w].entry, s.workers[w].phase.html, s.now))
    case Release(w) => MoveTo(s, w, Clearing).(c := Released(s.c))
    case Clear(w) => s.(c := Cleared(s.c, s.workers[w].entry), workers := s.workers - {w})
    case Tick(to) => s.(now := to)
  }

  // ---- The invariant ----

  ghost function Holders(s: System): set<nat> {
    set w | w in s.workers && s.workers[w].phase != Clearing
  }

  // The entry a live compute will write is still the one in the map, and flagged.
  ghost predicate Live(s: System) {
    && s.c.Valid()
    && forall w :: w in s.workers ==>
      var worker := s.workers[w];
      && w < s.spawned && worker.key in s.c.m && s.c.m[worker.key] == worker.entry
      && s.c.entries[worker.entry].computing
  }

  ghost predicate OnePerKey(s: System) {
    forall v, w :: v in s.workers && w in s.workers && s.workers[v].key == s.workers[w].key ==> v == w
  }

  ghost predicate Serves(s: System, w: nat, k: Key) {
    w in s.workers && s.workers[w].key == k
  }

  // Every flag in the map belongs to a live compute.
  ghost predicate FlagsLive(s: System)
    requires s.c.Valid()
  {
    forall k :: k in s.c.m && s.c.Entry(k).computing ==> exists w :: Serves(s, w, k)
  }

  // Held slots are the workers that have not released theirs.
  ghost predicate SlotsHeld(s: System) {
    s.c.slots == |Holders(s)| <= s.c.capacity
  }

  ghost predicate Dated(s: System) {
    && s.now > 0
    && forall i :: 0 <= i < |s.c.entries| ==>
      && (s.c.entries[i].html == "" <==> s.c.entries[i].at == 0)
      && 0 <= s.c.entries[i].at <= s.now
  }

  // What is kept under a key, or about to be, was returned by a compute for that key.
  ghost predicate Honest(s: System)
    requires s.c.Valid()
  {
    && (forall k :: k in s.c.m && s.c.Entry(k).html != "" ==> (k, s.c.Entry(k).html) in s.returned)
    && (forall w :: w in s.workers && s.workers[w].phase.Storing? ==>
          s.workers[w].phase.html != "" && (s.workers[w].key, s.workers[w].phase.html) in s.returned)
  }

  // All of the invariant that does not look at slots.
  ghost predicate Consistent(s: System) {
    Live(s) && OnePerKey(s) && FlagsLive(s) && Dated(s) && Honest(s)
  }

  ghost predicate Inv(s: System) {
    Consistent(s) && SlotsHeld(s)
  }

  lemma HoldersMove(s: System, w: nat, phase: Phase)
    requires w in s.workers
    ensures Holders(MoveTo(s, w, phase)) == if phase == Clearing then Holders(s) - {w} else Holders(s) + {w}
  {
  }

  lemma HoldersWithout(s: System, w: nat, c: Cache)
    requires w in s.workers && s.workers[w].phase == Clearing
    ensures Holders(s.(c := c, workers := s.workers - {w})) == Holders(s)
  {
  }

  lemma HoldersSame(s: System, s': System)
    requires s'.workers == s.workers
    ensures Holders(s') == Holders(s)
  {
  }

  lemma InvInitial(s: System)
    requires IsInitial(s)
    ensures Inv(s)
  {
    assert Holders(s) == {};
  }

  lemma LookedLive(s: System, key: Key, victim: Option<Key>)
    requires Live(s) && Enabled(s, Get(key, 0, victim))
    ensures Live(LookedSystem(s, key, victim)) && key in LookedSystem(s, key, victim).c.m
    ensures forall k :: k in LookedSystem(s, key, victim).c.m && k != key ==>
      k in s.c.m && LookedSystem(s, key, victim).c.Entry(k) == s.c.Entry(k)
    ensures key in s.c.m ==> LookedSystem(s, key, victim) == s
    ensures key !in s.c.m ==> LookedSystem(s, key, victim).c.Entry(key) == Fragment("", 0, false)
  {
  }

  lemma LookedFlags(s: System, key: Key, victim: Option<Key>)
    requires Live(s) && FlagsLive(s) && Enabled(s, Get(key, 0, victim))
    ensures Live(LookedSystem(s, key, victim)) && FlagsLive(LookedSystem(s, key, victim))
  {
    var s' := LookedSystem(s, key, victim);
    LookedLive(s, key, victim);
    forall k | k in s'.c.m && s'.c.Entry(k).computing
      ensures exists w :: Serves(s', w, k)
    {
      assert k in s.c.m && s.c.Entry(k).computing;
      var w :| Serves(s, w, k);
      assert Serves(s', w, k);
    }
  }

  lemma LookedHonest(s: System, key: Key, victim: Option<Key>)
    requires Live(s) && Honest(s) && Dated(s) && Enabled(s, Get(key, 0, victim))
    ensures var looked := LookedSystem(s, key, victim);
      Live(looked) && Honest(looked) && Dated(looked)
  {
    LookedLive(s, key, victim);
  }

  lemma StartedLive(s: System, key: Key, peak: nat)
    requires Live(s) && OnePerKey(s) && FlagsLive(s) && key in s.c.m && !s.c.Entry(key).computing
    ensures Live(StartedSystem(s, key, peak)) && OnePerKey(StartedSystem(s, key, peak))
  {
  }

  lemma StartedFlags(s: System, key: Key, peak: nat)
    requires Live(s) && FlagsLive(s) && key in s.c.m && StartedSystem(s, key, peak).c.Valid()
    ensures FlagsLive(StartedSystem(s, key, peak))
  {
    var s' := StartedSystem(s, key, peak);
    forall k | k in s'.c.m && s'.c.Entry(k).computing
      ensures exists w :: Serves(s', w, k)
    {
      if k == key {
        assert Serves(s', s.spawned, k);
      } else {
        assert s.c.Entry(k).computing;
        var w :| Serves(s, w, k);
        assert Serves(s', w, k);
      }
    }
  }

  lemma StartedHonest(s: System, key: Key, peak: nat)
    requires Live(s) && Dated(s) && Honest(s) && key in s.c.m && StartedSystem(s, key, peak).c.Valid()
    ensures Dated(StartedSystem(s, key, peak)) && Honest(StartedSystem(s, key, peak))
  {
  }

  lemma StartedSlots(s: System, key: Key, peak: nat)
    requires Live(s) && SlotsHeld(s) && key in s.c.m && s.c.slots < s.c.capacity
    ensures SlotsHeld(StartedSystem(s, key, peak))
  {
    assert s.spawned !in s.workers;
    assert Holders(StartedSystem(s, key, peak)) == Holders(s) + {s.spawned};
  }

  lemma StartedInv(s: System, key: Key, peak: nat)
    requires Inv(s) && key in s.c.m && !s.c.Entry(key).computing && s.c.slots < s.c.capacity
    ensures Inv(StartedSystem(s, key, peak))
  {
    StartedLive(s, key, peak);
    StartedFlags(s, key, peak);
    StartedHonest(s, key, peak);
    StartedSlots(s, key, peak);
  }

  lemma LookedInv(s: System, key: Key, victim: Option<Key>)
    requires Inv(s) && Enabled(s, Get(key, 0, victim))
    ensures Inv(LookedSystem(s, key, victim)) && key in LookedSystem(s, key, victim).c.m
  {
    LookedLive(s, key, victim);
    LookedFlags(s, key, victim);
    LookedHonest(s, key, victim);
    HoldersSame(s, LookedSystem(s, key, victim));
  }

  lemma InvGet(s: System, key: Key, ttl: int, victim: Option<Key>)
    requires Inv(s) && Enabled(s, Get(key, ttl, victim))
    ensures Inv(Apply(s, Get(key, ttl, victim)))
  {
    LookedInv(s, key, victim);
    GetInv(s, LookedSystem(s, key, victim), key, ttl);
  }

  lemma GetInv(s: System, looked: System, key: Key, ttl: int)
    requires Inv(looked) && key in looked.c.m && s.c.Valid()
    ensures Starts(looked.c, key, ttl, s.now) ==>
      Inv(StartedSystem(looked, key, Max(s.peak, 1 + |ComputingKeys(s.c)|)))
  {
    if Starts(looked.c, key, ttl, s.now) {
      StartedInv(looked, key, Max(s.peak, 1 + |ComputingKeys(s.c)|));
    }
  }

  lemma MoveLive(s: System, w: nat, phase: Phase)
    requires Live(s) && OnePerKey(s) && w in s.workers
    ensures Live(MoveTo(s, w, phase)) && OnePerKey(MoveTo(s, w, phase))
  {
  }

  // A worker moves to another phase; the cache does not change.
  lemma MoveConsistent(s: System, w: nat, phase: Phase)
    requires Consistent(s) && w in s.workers
    requires phase.Storing? ==> phase.html != "" && (s.workers[w].key, phase.html) in s.returned
    ensures Consistent(MoveTo(s, w, phase))
  {
    MoveLive(s, w, phase);
    FlagsCarry(s, MoveTo(s, w, phase), {});
  }

  lemma MoveInv(s: System, w: nat, phase: Phase)
    requires Inv(s) && w in s.workers && s.workers[w].phase != Clearing && phase != Clearing
    requires phase.Storing? ==> phase.html != "" && (s.workers[w].key, phase.html) in s.returned
    ensures Inv(MoveTo(s, w, phase))
  {
    MoveConsistent(s, w, phase);
    MoveSlots(s, w, phase);
  }

  lemma MoveSlots(s: System, w: nat, phase: Phase)
    requires SlotsHeld(s) && w in s.workers && s.workers[w].phase != Clearing && phase != Clearing
    ensures SlotsHeld(MoveTo(s, w, phase))
  {
    HoldersMove(s, w, phase);
    assert Holders(s) + {w} == Holders(s);
  }

  lemma FlagsCarry(s: System, s': System, gone: set<Key>)
    requires s.c.Valid() && s'.c.Valid() && FlagsLive(s) && s'.c.m == s.c.m
    requires forall k :: k in s'.c.m && s'.c.Entry(k).computing ==> s.c.Entry(k).computing && k !in gone
    requires forall w, k :: Serves(s, w, k) && k !in gone ==> Serves(s', w, k)
    ensures FlagsLive(s')
  {
    forall k | k in s'.c.m && s'.c.Entry(k).computing
      ensures exists w :: Serves(s', w, k)
    {
      var w :| Serves(s, w, k);
      assert Serves(s', w, k);
    }
  }

  lemma InvReturn(s: System, w: nat, html: Html)
    requires Inv(s) && Enabled(s, Return(w, html))
    ensures Inv(Apply(s, Return(w, html)))
  {
    var told := s.(returned := s.returned + {(s.workers[w].key, html)});
    HoldersSame(s, told);
    FlagsCarry(s, told, {});
    assert Inv(told);
    MoveInv(told, w, if html != "" then Storing(html) else Releasing);
  }

  lemma InvStore(s: System, w: nat)
    requires Inv(s) && Enabled(s, Store(w))
    ensures Inv(Apply(s, Store(w)))
  {
    var moved := MoveTo(s, w, Releasing);
    MoveInv(s, w, Releasing);
    StoredInv(moved, s.workers[w].key, s.workers[w].phase.html);
  }

  lemma StoredInv(s: System, key: Key, html: Html)
    requires Inv(s) && key in s.c.m && html != "" && (key, html) in s.returned
    ensures Inv(s.(c := Stored(s.c, s.c.m[key], html, s.now)))
  {
    var s' := s.(c := Stored(s.c, s.c.m[key], html, s.now));
    HoldersSame(s, s');
    FlagsCarry(s, s', {});
  }

  lemma ReleasedConsistent(s: System)
    requires Consistent(s) && s.c.slots > 0
    ensures Consistent(s.(c := Released(s.c)))
  {
    FlagsCarry(s, s.(c := Released(s.c)), {});
  }

  lemma InvRelease(s: System, w: nat)
    requires Inv(s) && Enabled(s, Release(w))
    ensures Inv(Apply(s, Release(w)))
  {
    var moved := MoveTo(s, w, Clearing);
    MoveConsistent(s, w, Clearing);
    ReleasedConsistent(moved);
    HoldersMove(s, w, Clearing);
    ReleasedSlots(s, moved, w);
  }

  lemma ReleasedSlots(s: System, moved: System, w: nat)
    requires SlotsHeld(s) && s.c.slots > 0 && w in Holders(s) && Holders(moved) == Holders(s) - {w} && moved.c == s.c
    ensures SlotsHeld(moved.(c := Released(moved.c)))
  {
    HoldersSame(moved, moved.(c := Released(moved.c)));
  }

  lemma ClearedLive(s: System, w: nat)
    requires Live(s) && OnePerKey(s) && w in s.workers
    ensures var s' := s.(c := Cleared(s.c, s.workers[w].entry), workers := s.workers - {w});
      Live(s') && OnePerKey(s')
  {
  }

  lemma ClearedConsistent(s: System, w: nat)
    requires Consistent(s) && w in s.workers
    ensures Consistent(s.(c := Cleared(s.c, s.workers[w].entry), workers := s.workers - {w}))
  {
    var s' := s.(c := Cleared(s.c, s.workers[w].entry), workers := s.workers - {w});
    ClearedLive(s, w);
    ClearedFlags(s, s', w);
  }

  lemma ClearedFlags(s: System, s': System, w: nat)
    requires Live(s) && OnePerKey(s) && FlagsLive(s) && w in s.workers && s'.c.Valid()
    requires s' == s.(c := Cleared(s.c, s.workers[w].entry), workers := s.workers - {w})
    ensures FlagsLive(s')
  {
    var key := s.workers[w].key;
    forall v, k | Serves(s, v, k) && k != key
      ensures Serves(s', v, k)
    {
    }
    FlagsCarry(s, s', {key});
  }

  lemma InvClear(s: System, w: nat)
    requires Inv(s) && Enabled(s, Clear(w))
    ensures Inv(Apply(s, Clear(w)))
  {
    ClearedConsistent(s, w);
    HoldersWithout(s, w, Cleared(s.c, s.workers[w].entry));
  }

  /** Every enabled step keeps the invariant. */
  lemma InvStep(s: System, step: Step)
    requires Inv(s) && Enabled(s, step)
    ensures Inv(Apply(s, step))
  {
    match step
    case Get(key, ttl, victim) => InvGet(s, key, ttl, victim);
    case Return(w, html) => InvReturn(s, w, html);
    case Panic(w) => MoveInv(s, w, Releasing);
    case Store(w) => InvStore(s, w);
    case Release(w) => InvRelease(s, w);
    case Clear(w) => InvClear(s, w);
    case Tick(to) =>
      HoldersSame(s, Apply(s, step));
      FlagsCarry(s, Apply(s, step), {});
  }

  // ---- Runs ----

  ghost predicate IsRun(s: System, steps: seq<Step>)
    decreases |steps|
  {
    steps == [] || (Enabled(s, steps[0]) && IsRun(Apply(s, steps[0]), steps[1..]))
  }

  ghost function Final(s: System, steps: seq<Step>): System
    requires IsRun(s, steps)
    decreases |steps|
  {
    if steps == [] then s else Final(Apply(s, steps[0]), steps[1..])
  }

  lemma {:induction false} RunInv(s: System, steps: seq<Step>)
    requires Inv(s) && IsRun(s, steps)
    ensures Inv(Final(s, steps))
    decreases |steps|
  {
    if steps != [] {
      InvStep(s, steps[0]);
      RunInv(Apply(s, steps[0]), steps[1..]);
    }
  }

  // Some step of worker w itself is possible now.
  ghost predicate CanMove(s: System, w: nat) {
    Enabled(s, Panic(w)) || Enabled(s, Store(w)) || Enabled(s, Release(w)) || Enabled(s, Clear(w))
  }

  /**
   In every run: held slots are exactly the workers that have not released theirs and never
   exceed the capacity, no worker ever waits (giving a slot back never blocks), each key has at
   most one live compute, and the entry it will write is the flagged one still in the map.
   */
  lemma CacheIsSafe(initial: System, steps: seq<Step>)
    requires IsInitial(initial) && IsRun(initial, steps)
    ensures Inv(Final(initial, steps)) && Safe(Final(initial, steps))
  {
    InvInitial(initial);
    RunInv(initial, steps);
    InvIsSafe(Final(initial, steps));
  }

  ghost predicate Flagged(c: Cache, k: Key) {
    k in c.m && c.m[k] < |c.entries| && c.entries[c.m[k]].computing
  }

  ghost predicate Safe(s: System) {
    && s.c.slots == |Holders(s)| <= s.c.capacity
    && (forall w :: w in s.workers ==> CanMove(s, w))
    && (forall v, w :: v in s.workers && w in s.workers && s.workers[v].key == s.workers[w].key ==> v == w)
    && (forall w :: w in s.workers ==> s.workers[w].key in s.c.m && s.c.m[s.workers[w].key] == s.workers[w].entry)
    && (forall k :: Flagged(s.c, k) <==> exists w :: Serves(s, w, k))
  }

  lemma InvIsSafe(s: System)
    requires Inv(s)
    ensures Safe(s)
  {
    forall w | w in s.workers
      ensures CanMove(s, w)
    {
      if s.workers[w].phase == Releasing {
        assert w in Holders(s);
      }
    }
    forall k
      ensures Flagged(s.c, k) <==> exists w :: Serves(s, w, k)
    {
      if Flagged(s.c, k) {
        assert s.c.Entry(k).computing;
      }
    }
  }

  // ---- Every flag is a held slot or a worker about to clear it ----

  ghost function Clearers(s: System): set<nat> {
    set w | w in s.workers && s.workers[w].phase == Clearing
  }

  ghost function KeysOf(workers: map<nat, Worker>): set<Key> {
    set w | w in workers :: workers[w].key
  }

  lemma {:induction false} ImageSize(ws: set<nat>, key: nat -> Key)
    requires forall v, w :: v in ws && w in ws && key(v) == key(w) ==> v == w
    ensures |set w | w in ws :: key(w)| == |ws|
  {
    if w :| w in ws {
      var rest := ws - {w};
      ImageSize(rest, key);
      assert (set v | v in ws :: key(v)) == (set v | v in rest :: key(v)) + {key(w)};
    }
  }

  lemma KeysOfSize(workers: map<nat, Worker>)
    requires forall v, w :: v in workers && w in workers && workers[v].key == workers[w].key ==> v == w
    ensures |KeysOf(workers)| == |workers.Keys|
  {
    var key := (w: nat) => if w in workers then workers[w].key else "";
    ImageSize(workers.Keys, key);
    assert KeysOf(workers) == set w | w in workers.Keys :: key(w);
  }

  lemma ComputingAreServed(s: System)
    requires Live(s) && FlagsLive(s)
    ensures ComputingKeys(s.c) == KeysOf(s.workers)
  {
    forall k | k in ComputingKeys(s.c)
      ensures k in KeysOf(s.workers)
    {
      var w :| Serves(s, w, k);
    }
  }

  lemma FlagCount(s: System)
    requires Inv(s)
    ensures |ComputingKeys(s.c)| == s.c.slots + |Clearers(s)|
  {
    ComputingAreServed(s);
    KeysOfSize(s.workers);
    assert s.workers.Keys == Holders(s) + Clearers(s);
  }

  /** In every run the flagged entries number the held slots and the workers past their release. */
  lemma FlagsAreCounted(initial: System, steps: seq<Step>)
    requires IsInitial(initial) && IsRun(initial, steps)
    ensures var s := Final(initial, steps);
      s.c.Valid() && |ComputingKeys(s.c)| == s.c.slots + |Clearers(s)|
  {
    InvInitial(initial);
    RunInv(initial, steps);
    FlagCount(Final(initial, steps));
  }
}
