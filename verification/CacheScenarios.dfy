/**
 Particular runs of the fragment cache: more flags than slots, and an eviction that
 the empty key misleads.
 */
module CacheScenarios {
  import opened Bytes
  import opened FragmentCache
  import opened CacheRuns

  // ---- Runs that reach a given state ----

  ghost predicate Reaches(s: System, t: System) {
    exists steps :: IsRun(s, steps) && Final(s, steps) == t
  }

  lemma {:induction false} RunSnoc(s: System, steps: seq<Step>, step: Step)
    requires IsRun(s, steps) && Enabled(Final(s, steps), step)
    ensures IsRun(s, steps + [step]) && Final(s, steps + [step]) == Apply(Final(s, steps), step)
    decreases |steps|
  {
    if steps == [] {
      assert steps + [step] == [step] && [step][1..] == [];
    } else {
      RunSnoc(Apply(s, steps[0]), steps[1..], step);
      assert (steps + [step])[1..] == steps[1..] + [step];
    }
  }

  lemma ReachesSelf(s: System)
    ensures Reaches(s, s)
  {
    assert IsRun(s, []) && Final(s, []) == s;
  }

  lemma ReachesNext(s: System, t: System, step: Step)
    requires Reaches(s, t) && Enabled(t, step)
    ensures Reaches(s, Apply(t, step))
  {
    var steps :| IsRun(s, steps) && Final(s, steps) == t;
    RunSnoc(s, steps, step);
  }

  ghost predicate OneWorker(s: System, phase: Phase, slots: nat) {
    && s.c == Cache(map["a" := 0], [Fragment("", 0, true)], slots, 1, 0)
    && s.workers == map[0 := Worker("a", 0, phase)] && s.now > 0
  }

  lemma FirstGet(s: System)
    requires IsInitial(s) && s.c.capacity == 1 && s.c.max == 0
    ensures Enabled(s, Get("a", 0, None)) && OneWorker(Apply(s, Get("a", 0, None)), Computing, 1)
  {
    assert Looked(s.c, "a", None) == Cache(map["a" := 0], [Fragment("", 0, false)], 0, 1, 0);
  }

  lemma FirstRelease(s: System)
    requires OneWorker(s, Computing, 1)
    ensures Enabled(s, Panic(0)) && OneWorker(Apply(s, Panic(0)), Releasing, 1)
    ensures Enabled(Apply(s, Panic(0)), Release(0))
    ensures OneWorker(Apply(Apply(s, Panic(0)), Release(0)), Clearing, 0)
  {
  }

  /** Flags outlive slots: with one slot, two entries can be computing at once. */
  lemma FlagsCanExceedCapacity(s: System)
    requires IsInitial(s) && s.c.capacity == 1 && s.c.max == 0
    ensures exists t :: Reaches(s, t) && TwoFlagsOneSlot(t.c)
  {
    FirstGet(s);
    var s1 := Apply(s, Get("a", 0, None));
    FirstRelease(s1);
    var s2 := Apply(s1, Panic(0));
    var s3 := Apply(s2, Release(0));
    SecondGet(s3);
    ReachesSelf(s);
    ReachesNext(s, s, Get("a", 0, None));
    ReachesNext(s, s1, Panic(0));
    ReachesNext(s, s2, Release(0));
    ReachesNext(s, s3, Get("b", 0, None));
  }

  ghost predicate TwoFlagsOneSlot(c: Cache) {
    Flagged(c, "a") && Flagged(c, "b") && c.slots == c.capacity == 1
  }

  lemma SecondGet(s: System)
    requires OneWorker(s, Clearing, 0)
    ensures Enabled(s, Get("b", 0, None))
    ensures TwoFlagsOneSlot(Apply(s, Get("b", 0, None)).c)
  {
    assert Looked(s.c, "b", None).m == map["a" := 0, "b" := 1];
  }

  // ---- A run into the configuration that misleads eviction ----

  // The cache once worker w is done with its entry.
  ghost function DoneWith(s: System, w: nat, c: Cache): System
    requires Sound(s, w) && c.slots > 0 && s.workers[w].entry < |c.entries|
  {
    s.(c := Cleared(Released(c), s.workers[w].entry), workers := s.workers - {w})
  }

  lemma FinishReaches(s: System, t: System, w: nat)
    requires Reaches(s, t) && InPhase(t, w, Releasing) && Sound(t, w) && t.c.slots > 0
    ensures Reaches(s, DoneWith(t, w, t.c))
  {
    ReachesNext(s, t, Release(w));
    var t' := Apply(t, Release(w));
    ReachesNext(s, t', Clear(w));
    assert t.workers[w := t'.workers[w]] - {w} == t.workers - {w};
  }

  lemma PanicReaches(s: System, t: System, w: nat)
    requires Reaches(s, t) && InPhase(t, w, Computing) && Sound(t, w) && t.c.slots > 0
    ensures Reaches(s, DoneWith(t, w, t.c))
  {
    var t' := Apply(t, Panic(w));
    ReachesNext(s, t, Panic(w));
    FinishReaches(s, t', w);
    assert t'.workers - {w} == t.workers - {w};
  }

  lemma StoreReaches(s: System, t: System, w: nat, html: Html)
    requires Reaches(s, t) && InPhase(t, w, Computing) && Sound(t, w) && t.c.slots > 0 && html != ""
    ensures var stored := Stored(t.c, t.workers[w].entry, html, t.now);
      Reaches(s, DoneWith(t, w, stored).(returned := t.returned + {(t.workers[w].key, html)}))
  {
    var t1 := Apply(t, Return(w, html));
    ReachesNext(s, t, Return(w, html));
    var t2 := Apply(t1, Store(w));
    ReachesNext(s, t1, Store(w));
    FinishReaches(s, t2, w);
    assert t2.workers - {w} == t.workers - {w};
  }

  // Full, both entries idle and "" strictly the older: one order of the walk takes away the newer
  // entry, and the other nothing, so that the map outgrows its limit with nothing computing.
  ghost predicate Misled(c: Cache) {
    && c.Valid() && Full(c) && EmptyKeyIsOldest(c) && Idle(c, "a")
    && IsWalk(c, ["", "a"]) && Walked(c, ["", "a"]) == "a"
    && IsWalk(c, ["a", ""]) && Walked(c, ["a", ""]) == ""
    && |Looked(c, "b", None).m| == c.max + 1 && ComputingKeys(c) == {}
  }

  // The two entries it takes.
  ghost predicate TwoIdle(c: Cache, now: int) {
    && c.m == map["" := 0, "a" := 1] && c.max == 2 && now > 0
    && c.entries == [Fragment("", 0, false), Fragment("x", now, false)]
  }

  lemma MisledIs(c: Cache, now: int)
    requires TwoIdle(c, now)
    ensures Misled(c)
  {
    EmptyIsOlder(c, now);
    BothWalks(c, now);
    Outgrows(c, now);
  }

  lemma EmptyIsOlder(c: Cache, now: int)
    requires TwoIdle(c, now)
    ensures c.Valid() && Full(c) && EmptyKeyIsOldest(c) && Idle(c, "a") && ComputingKeys(c) == {}
  {
    assert c.m.Keys == {"", "a"};
  }

  lemma Outgrows(c: Cache, now: int)
    requires TwoIdle(c, now)
    ensures |Looked(c, "b", None).m| == 3
  {
    assert Looked(c, "b", None).m.Keys == {"", "a", "b"};
  }

  lemma BothWalks(c: Cache, now: int)
    requires TwoIdle(c, now) && c.Valid()
    ensures IsWalk(c, ["", "a"]) && Walked(c, ["", "a"]) == "a"
    ensures IsWalk(c, ["a", ""]) && Walked(c, ["a", ""]) == ""
  {
    WalkOfTwo(c, "", "a");
    WalkOfTwo(c, "a", "");
  }

  lemma WalkOfTwo(c: Cache, j: Key, k: Key)
    requires c.Valid() && c.m.Keys == {j, k} && j != k && !c.Entry(j).computing && !c.Entry(k).computing
    ensures IsWalk(c, [j, k])
    ensures Walked(c, [j, k]) == if j == "" || c.Entry(k).at < c.Entry(j).at then k else j
  {
    assert [] + [j] == [j] && [j] + [k] == [j, k];
    WalkGrows(c, [], j);
    WalkGrows(c, [j], k);
    assert forall i :: i in c.m <==> i in c.m.Keys;
  }

  ghost predicate Holds(s: System, m: map<Key, nat>, entries: seq<Fragment>, slots: nat) {
    s.c == Cache(m, entries, slots, 1, 2) && s.now > 0
  }

  lemma EmptyGet(s: System)
    requires IsInitial(s) && s.c.capacity == 1 && s.c.max == 2
    ensures Enabled(s, Get("", 0, None))
    ensures var t := Apply(s, Get("", 0, None));
      && Holds(t, map["" := 0], [Fragment("", 0, true)], 1)
      && t.workers == map[0 := Worker("", 0, Computing)] && t.spawned == 1
  {
    assert Looked(s.c, "", None) == Cache(map["" := 0], [Fragment("", 0, false)], 0, 1, 2);
  }

  lemma NamedGet(s: System)
    requires Holds(s, map["" := 0], [Fragment("", 0, false)], 0) && s.workers == map[] && s.spawned == 1
    ensures Enabled(s, Get("a", 0, None))
    ensures var t := Apply(s, Get("a", 0, None));
      && Holds(t, map["" := 0, "a" := 1], [Fragment("", 0, false), Fragment("", 0, true)], 1)
      && t.workers == map[1 := Worker("a", 1, Computing)]
  {
    var entries := [Fragment("", 0, false), Fragment("", 0, false)];
    assert Looked(s.c, "a", None) == Cache(map["" := 0, "a" := 1], entries, 0, 1, 2);
  }

  lemma EmptyFails(s: System) returns (t: System)
    requires IsInitial(s) && s.c.capacity == 1 && s.c.max == 2
    ensures Reaches(s, t) && Holds(t, map["" := 0], [Fragment("", 0, false)], 0)
    ensures t.workers == map[] && t.spawned == 1
  {
    ReachesSelf(s);
    EmptyGet(s);
    var s1 := Apply(s, Get("", 0, None));
    ReachesNext(s, s, Get("", 0, None));
    PanicReaches(s, s1, 0);
    t := DoneWith(s1, 0, s1.c);
    assert t.workers == map[];
  }

  lemma NamedStored(s: System, s2: System) returns (t: System)
    requires Reaches(s, s2) && Holds(s2, map["" := 0], [Fragment("", 0, false)], 0)
    requires s2.workers == map[] && s2.spawned == 1
    ensures Reaches(s, t) && TwoIdle(t.c, t.now)
  {
    NamedGet(s2);
    var s3 := Apply(s2, Get("a", 0, None));
    ReachesNext(s, s2, Get("a", 0, None));
    StoreReaches(s, s3, 1, "x");
    t := DoneWith(s3, 1, Stored(s3.c, 1, "x", s3.now)).(returned := s3.returned + {("a", "x")});
  }

  /** Eviction can be misled in a real run: with room for two, "" fails and another key is stored. */
  lemma EvictionCanBeMisled(s: System)
    requires IsInitial(s) && s.c.capacity == 1 && s.c.max == 2
    ensures exists t :: Reaches(s, t) && Misled(t.c)
  {
    var s2 := EmptyFails(s);
    var t := NamedStored(s, s2);
    MisledIs(t.c, t.now);
  }
}
