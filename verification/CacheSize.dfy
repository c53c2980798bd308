/**
 How large the map of the fragment cache gets over its runs.
 */
module CacheSize {
  import opened Bytes
  import opened FragmentCache
  import opened CacheRuns

  // ---- How large the map gets ----

  ghost predicate NamedKeys(s: System) {
    forall k :: k in s.c.m ==> k != ""
  }

  ghost predicate Bounded(s: System)
    requires s.c.Valid()
  {
    && NamedKeys(s)
    && |ComputingKeys(s.c)| <= s.peak
    && (s.c.max > 0 ==> |s.c.m| <= Max(s.c.max, s.peak + 1))
  }

  lemma GrowsWhenAllCompute(c: Cache, key: Key, victim: Option<Key>)
    requires c.Valid() && key !in c.m && Full(c) && MayEvict(c, victim) && !exists j :: Idle(c, j)
    ensures victim == None && |Looked(c, key, victim).m| == |c.m| + 1
  {
    assert Looked(c, key, victim).m.Keys == c.m.Keys + {key};
  }

  lemma KeepsSizeOtherwise(c: Cache, key: Key, victim: Option<Key>)
    requires c.Valid() && key !in c.m && Full(c) && MayEvict(c, victim)
    requires (exists j :: Idle(c, j)) && forall k :: k in c.m ==> k != ""
    ensures victim.Some? && Oldest(c, victim.value) && |Looked(c, key, victim).m| == |c.m|
  {
    OldestExists(c);
    var kept := c.m - {victim.value};
    assert kept.Keys == c.m.Keys - {victim.value};
    assert Looked(c, key, victim).m.Keys == kept.Keys + {key};
  }

  lemma AllComputing(c: Cache)
    requires c.Valid() && !exists j :: Idle(c, j)
    ensures ComputingKeys(c) == c.m.Keys
  {
    forall k | k in c.m
      ensures k in ComputingKeys(c)
    {
      assert !Idle(c, k);
    }
  }

  /** Eviction makes room whenever anything is idle; a full map grows only when every entry is computing. */
  lemma LookedSize(c: Cache, key: Key, victim: Option<Key>)
    requires c.Valid() && (forall k :: k in c.m ==> k != "") && (key !in c.m && Full(c) ==> MayEvict(c, victim))
    ensures c.max > 0 ==>
      || |Looked(c, key, victim).m| <= Max(c.max, |c.m|)
      || (|Looked(c, key, victim).m| == |c.m| + 1 && ComputingKeys(c) == c.m.Keys)
  {
    if key !in c.m {
      if !Full(c) {
        assert Looked(c, key, victim).m.Keys == c.m.Keys + {key};
      } else if exists j :: Idle(c, j) {
        KeepsSizeOtherwise(c, key, victim);
      } else {
        GrowsWhenAllCompute(c, key, victim);
        AllComputing(c);
      }
    }
  }

  lemma LookedComputing(c: Cache, key: Key, victim: Option<Key>)
    requires c.Valid() && (key !in c.m && Full(c) ==> MayEvict(c, victim)) && Looked(c, key, victim).Valid()
    ensures ComputingKeys(Looked(c, key, victim)) == ComputingKeys(c)
  {
  }

  lemma StartedComputing(c: Cache, key: Key)
    requires c.Valid() && key in c.m && Started(c, key).Valid()
    ensures ComputingKeys(Started(c, key)) == ComputingKeys(c) + {key}
  {
  }

  lemma BoundedLooked(s: System, key: Key, victim: Option<Key>)
    requires s.c.Valid() && Bounded(s) && key != "" && Enabled(s, Get(key, 0, victim))
    requires Looked(s.c, key, victim).Valid()
    ensures Bounded(LookedSystem(s, key, victim))
    ensures ComputingKeys(LookedSystem(s, key, victim).c) == ComputingKeys(s.c)
  {
    LookedSize(s.c, key, victim);
    LookedComputing(s.c, key, victim);
  }

  lemma BoundedStarted(s: System, key: Key, peak: nat)
    requires s.c.Valid() && Bounded(s) && key in s.c.m && StartedSystem(s, key, peak).c.Valid()
    requires peak >= s.peak && peak >= 1 + |ComputingKeys(s.c)|
    ensures Bounded(StartedSystem(s, key, peak))
  {
    StartedComputing(s.c, key);
  }

  lemma GetValid(s: System, key: Key, ttl: int, victim: Option<Key>)
    requires Inv(s) && Enabled(s, Get(key, ttl, victim))
    ensures var looked := LookedSystem(s, key, victim);
      && looked.c.Valid() && key in looked.c.m
      && (Starts(looked.c, key, ttl, s.now) ==>
            StartedSystem(looked, key, Max(s.peak, 1 + |ComputingKeys(s.c)|)).c.Valid())
  {
    LookedInv(s, key, victim);
    InvGet(s, key, ttl, victim);
  }

  lemma BoundedGet(s: System, key: Key, ttl: int, victim: Option<Key>)
    requires s.c.Valid() && Bounded(s) && key != "" && Enabled(s, Get(key, ttl, victim))
    requires var looked := LookedSystem(s, key, victim);
      && looked.c.Valid() && key in looked.c.m
      && (Starts(looked.c, key, ttl, s.now) ==>
            StartedSystem(looked, key, Max(s.peak, 1 + |ComputingKeys(s.c)|)).c.Valid())
    ensures ApplyGet(s, key, ttl, victim).c.Valid() && Bounded(ApplyGet(s, key, ttl, victim))
  {
    var looked := LookedSystem(s, key, victim);
    BoundedLooked(s, key, victim);
    if Starts(looked.c, key, ttl, s.now) {
      BoundedStarted(looked, key, Max(s.peak, 1 + |ComputingKeys(s.c)|));
    }
  }

  lemma BoundedFewer(s: System, s': System)
    requires s.c.Valid() && s'.c.Valid() && Bounded(s) && s'.c.m == s.c.m && s'.c.max == s.c.max && s'.peak == s.peak
    requires forall k :: k in s.c.m && s'.c.Entry(k).computing ==> s.c.Entry(k).computing
    ensures Bounded(s')
  {
    FewerKeys(ComputingKeys(s'.c), ComputingKeys(s.c));
  }

  lemma OtherKeepsMap(s: System, step: Step)
    requires s.c.Valid() && Enabled(s, step) && !step.Get?
    ensures var s' := Apply(s, step);
      && s'.c.m == s.c.m && s'.c.max == s.c.max && s'.peak == s.peak && |s'.c.entries| == |s.c.entries|
      && forall k :: k in s.c.m && s'.c.Entry(k).computing ==> s.c.Entry(k).computing
  {
  }

  lemma BoundedStep(s: System, step: Step)
    requires Inv(s) && Bounded(s) && Enabled(s, step) && (step.Get? ==> step.key != "")
    ensures Inv(Apply(s, step)) && Bounded(Apply(s, step))
  {
    InvStep(s, step);
    if step.Get? {
      GetValid(s, step.key, step.ttl, step.victim);
      BoundedGet(s, step.key, step.ttl, step.victim);
    } else {
      OtherKeepsMap(s, step);
      BoundedFewer(s, Apply(s, step));
    }
  }

  lemma FewerKeys(a: set<Key>, b: set<Key>)
    requires a <= b
    ensures |a| <= |b|
  {
    assert b == a + (b - a);
  }

  lemma MaxKept(s: System, step: Step)
    requires Enabled(s, step)
    ensures Apply(s, step).c.max == s.c.max
  {
  }

  // The claim about one state of a run.
  ghost predicate Fits(s: System, max: nat) {
    s.c.Valid() && |ComputingKeys(s.c)| <= s.peak && |s.c.m| <= Max(max, s.peak + 1)
  }

  lemma BoundedFits(s: System, max: nat)
    requires s.c.Valid() && Bounded(s) && s.c.max == max > 0
    ensures Fits(s, max)
  {
  }

  lemma {:induction false} RunBounded(s: System, steps: seq<Step>, max: nat)
    requires Inv(s) && Bounded(s) && s.c.max == max > 0 && IsRun(s, steps)
    requires forall i :: 0 <= i < |steps| && steps[i].Get? ==> steps[i].key != ""
    ensures Fits(Final(s, steps), max)
    decreases |steps|
  {
    if steps == [] {
      BoundedFits(s, max);
    } else {
      BoundedStep(s, steps[0]);
      MaxKept(s, steps[0]);
      RunBounded(Apply(s, steps[0]), steps[1..], max);
    }
  }

  // ---- The peak is the most entries ever computing ----

  lemma PeakGet(s: System, key: Key, ttl: int, victim: Option<Key>)
    requires s.c.Valid() && Enabled(s, Get(key, ttl, victim))
    requires var looked := LookedSystem(s, key, victim);
      && looked.c.Valid() && key in looked.c.m
      && (Starts(looked.c, key, ttl, s.now) ==>
            StartedSystem(looked, key, Max(s.peak, 1 + |ComputingKeys(s.c)|)).c.Valid())
    ensures var s', count := ApplyGet(s, key, ttl, victim), |ComputingKeys(s.c)|;
      && s'.c.Valid()
      && (|| (s'.peak == s.peak && |ComputingKeys(s'.c)| == count)
          || (s'.peak == Max(s.peak, count + 1) && |ComputingKeys(s'.c)| == count + 1))
  {
    var looked := LookedSystem(s, key, victim);
    LookedComputing(s.c, key, victim);
    if Starts(looked.c, key, ttl, s.now) {
      OneMoreComputing(looked.c, key);
    }
  }

  lemma OneMoreComputing(c: Cache, key: Key)
    requires c.Valid() && key in c.m && !c.Entry(key).computing && Started(c, key).Valid()
    ensures |ComputingKeys(Started(c, key))| == |ComputingKeys(c)| + 1
  {
    StartedComputing(c, key);
  }

  lemma PeakStep(s: System, step: Step)
    requires Inv(s) && Enabled(s, step) && |ComputingKeys(s.c)| <= s.peak
    ensures var s' := Apply(s, step);
      && Inv(s') && |ComputingKeys(s'.c)| <= s'.peak && s.peak <= s'.peak
      && (s'.peak == s.peak || s'.peak == |ComputingKeys(s'.c)|)
  {
    InvStep(s, step);
    if step.Get? {
      GetValid(s, step.key, step.ttl, step.victim);
      PeakGet(s, step.key, step.ttl, step.victim);
    } else {
      OtherKeepsMap(s, step);
      FewerKeys(ComputingKeys(Apply(s, step).c), ComputingKeys(s.c));
    }
  }

  // The state after the first n steps of a run.
  ghost function StateAt(s: System, steps: seq<Step>, n: nat): System
    requires IsRun(s, steps) && n <= |steps|
    decreases n
  {
    if n == 0 then s else StateAt(Apply(s, steps[0]), steps[1..], n - 1)
  }

  ghost predicate Computes(s: System, count: nat) {
    s.c.Valid() && |ComputingKeys(s.c)| == count
  }

  ghost predicate ComputesAtMost(s: System, count: nat) {
    s.c.Valid() && |ComputingKeys(s.c)| <= count
  }

  lemma {:induction false} PeakAbove(s: System, steps: seq<Step>, n: nat)
    requires Inv(s) && IsRun(s, steps) && |ComputingKeys(s.c)| <= s.peak && n <= |steps|
    ensures ComputesAtMost(StateAt(s, steps, n), Final(s, steps).peak) && s.peak <= Final(s, steps).peak
    decreases |steps|
  {
    if steps != [] {
      PeakStep(s, steps[0]);
      PeakAbove(Apply(s, steps[0]), steps[1..], if n == 0 then 0 else n - 1);
    }
  }

  lemma {:induction false} PeakAttained(s: System, steps: seq<Step>) returns (n: nat)
    requires Inv(s) && IsRun(s, steps) && |ComputingKeys(s.c)| <= s.peak
    ensures n <= |steps|
    ensures Final(s, steps).peak == s.peak || Computes(StateAt(s, steps, n), Final(s, steps).peak)
    decreases |steps|
  {
    n := 0;
    if steps != [] {
      var s' := Apply(s, steps[0]);
      PeakStep(s, steps[0]);
      var rest := PeakAttained(s', steps[1..]);
      n := if Final(s', steps[1..]).peak == s'.peak then 1 else rest + 1;
    }
  }

  // `most` is the greatest number of entries computing at once over the run.
  ghost predicate IsMost(s: System, steps: seq<Step>, most: nat)
    requires IsRun(s, steps)
  {
    && (forall n: nat :: n <= |steps| ==> ComputesAtMost(StateAt(s, steps, n), most))
    && exists n: nat :: n <= |steps| && Computes(StateAt(s, steps, n), most)
  }

  lemma PeakIsMost(initial: System, steps: seq<Step>)
    requires IsInitial(initial) && IsRun(initial, steps)
    ensures IsMost(initial, steps, Final(initial, steps).peak)
  {
    InvInitial(initial);
    BoundedInitial(initial);
    forall n: nat | n <= |steps|
      ensures ComputesAtMost(StateAt(initial, steps, n), Final(initial, steps).peak)
    {
      PeakAbove(initial, steps, n);
    }
    var n := PeakAttained(initial, steps);
    assert Computes(StateAt(initial, steps, 0), 0);
  }

  /**
   With a limit set and no empty keys, in every run the map holds at most the larger of the
   limit and one more than the most entries that were ever computing at once.
   */
  lemma SizeStaysBounded(initial: System, steps: seq<Step>)
    requires IsInitial(initial) && initial.c.max > 0 && IsRun(initial, steps)
    requires forall i :: 0 <= i < |steps| && steps[i].Get? ==> steps[i].key != ""
    ensures Fits(Final(initial, steps), initial.c.max)
    ensures IsMost(initial, steps, Final(initial, steps).peak)
  {
    InvInitial(initial);
    BoundedInitial(initial);
    RunBounded(initial, steps, initial.c.max);
    PeakIsMost(initial, steps);
  }

  lemma BoundedInitial(s: System)
    requires IsInitial(s)
    ensures s.c.Valid() && Bounded(s) && ComputingKeys(s.c) == {}
  {
    assert ComputingKeys(s.c) == {};
  }
}
