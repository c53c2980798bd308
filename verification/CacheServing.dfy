/**
 What gets of the fragment cache start and serve over its runs.
 */
module CacheServing {
  import opened Bytes
  import opened FragmentCache
  import opened CacheRuns

  // ---- What is started and served ----

  lemma ServedIsFlagged(s: System, looked: System, key: Key)
    requires Live(s) && FlagsLive(s) && looked.c.Valid() && key in looked.c.m
    requires key in s.c.m ==> looked.c.Entry(key) == s.c.Entry(key)
    requires key !in s.c.m ==> looked.c.Entry(key) == Fragment("", 0, false)
    ensures looked.c.Entry(key).computing <==> exists w :: Serves(s, w, key)
  {
  }

  /**
   A get starts a compute exactly when no compute for the key is live, a slot is free, and there
   is no fragment yet or the one there is at least ttl old.
   */
  lemma GetStartsExactly(s: System, key: Key, ttl: int, victim: Option<Key>)
    requires Inv(s) && Enabled(s, Get(key, ttl, victim))
    ensures var e := LookedSystem(s, key, victim).c;
      key in e.m && e.m[key] < |e.entries|
      && (Apply(s, Get(key, ttl, victim)).spawned > s.spawned <==>
            && !(exists w :: Serves(s, w, key)) && |Holders(s)| < s.c.capacity
            && (e.Entry(key).html == "" || s.now - e.Entry(key).at >= ttl))
  {
    LookedLive(s, key, victim);
    LookedHonest(s, key, victim);
    ServedIsFlagged(s, LookedSystem(s, key, victim), key);
  }

  /** In any reachable state a get serves nothing, or a fragment some compute for that key returned. */
  lemma ServedWasReturned(s: System, key: Key, victim: Option<Key>)
    requires Inv(s) && Enabled(s, Get(key, 0, victim))
    ensures var served := Looked(s.c, key, victim).Entry(key).html;
      served != "" ==> (key, served) in s.returned
  {
    LookedInv(s, key, victim);
  }

  /** Only a store changes a fragment or its time: an empty or panicking compute leaves the last one. */
  lemma OnlyStoreChanges(s: System, step: Step, e: nat)
    requires Inv(s) && Enabled(s, step) && e < |s.c.entries| && !step.Store?
    ensures var s' := Apply(s, step);
      e < |s'.c.entries| && s'.c.entries[e].html == s.c.entries[e].html && s'.c.entries[e].at == s.c.entries[e].at
  {
  }

  // ---- A store takes effect and is what gets serve ----

  // The entry holds this fragment, computed at this time.
  ghost predicate HoldsFragment(c: Cache, e: nat, html: Html, at: int) {
    e < |c.entries| && c.entries[e].html == html && c.entries[e].at == at
  }

  // The step is one of worker w's own.
  ghost predicate IsOf(step: Step, w: nat) {
    match step
    case Return(v, _) => v == w
    case Panic(v) => v == w
    case Store(v) => v == w
    case Release(v) => v == w
    case Clear(v) => v == w
    case _ => false
  }

  // The step stores into entry e.
  ghost predicate StoresInto(s: System, step: Step, e: nat) {
    step.Store? && step.w in s.workers && s.workers[step.w].entry == e
  }

  ghost predicate NoStoreInto(s: System, steps: seq<Step>, e: nat)
    requires IsRun(s, steps)
    decreases |steps|
  {
    steps == [] || (!StoresInto(s, steps[0], e) && NoStoreInto(Apply(s, steps[0]), steps[1..], e))
  }

  /** After a store the entry of the worker's key, still in the map, holds exactly what the worker returned. */
  lemma StoreTakesEffect(s: System, w: nat)
    requires Inv(s) && Enabled(s, Store(w))
    ensures var s', worker := Apply(s, Store(w)), s.workers[w];
      && worker.key in s'.c.m && s'.c.m[worker.key] == worker.entry
      && HoldsFragment(s'.c, worker.entry, worker.phase.html, s.now)
  {
  }

  lemma StepKeepsFragment(s: System, step: Step, e: nat, html: Html, at: int)
    requires Inv(s) && Enabled(s, step) && HoldsFragment(s.c, e, html, at) && !StoresInto(s, step, e)
    ensures HoldsFragment(Apply(s, step).c, e, html, at)
  {
    if !step.Store? {
      OnlyStoreChanges(s, step, e);
    }
  }

  lemma {:induction false} FragmentStays(s: System, steps: seq<Step>, e: nat, html: Html, at: int)
    requires Inv(s) && IsRun(s, steps) && HoldsFragment(s.c, e, html, at) && NoStoreInto(s, steps, e)
    ensures Inv(Final(s, steps)) && HoldsFragment(Final(s, steps).c, e, html, at)
    decreases |steps|
  {
    if steps != [] {
      StepKeepsFragment(s, steps[0], e, html, at);
      InvStep(s, steps[0]);
      FragmentStays(Apply(s, steps[0]), steps[1..], e, html, at);
    }
  }

  // What worker w is about to store, and where.
  ghost predicate WillStore(s: System, w: nat, key: Key, e: nat, html: Html) {
    w in s.workers && s.workers[w] == Worker(key, e, Storing(html))
  }

  lemma OthersKeepWorker(s: System, step: Step, w: nat)
    requires Live(s) && Enabled(s, step) && w in s.workers && !IsOf(step, w)
    ensures w in Apply(s, step).workers && Apply(s, step).workers[w] == s.workers[w]
  {
  }

  lemma {:induction false} StillWillStore(s: System, steps: seq<Step>, w: nat, key: Key, e: nat, html: Html)
    requires Inv(s) && IsRun(s, steps) && WillStore(s, w, key, e, html)
    requires forall i :: 0 <= i < |steps| ==> !IsOf(steps[i], w)
    ensures Inv(Final(s, steps)) && WillStore(Final(s, steps), w, key, e, html)
    decreases |steps|
  {
    if steps != [] {
      OthersKeepWorker(s, steps[0], w);
      InvStep(s, steps[0]);
      StillWillStore(Apply(s, steps[0]), steps[1..], w, key, e, html);
    }
  }

  // Any get of the key from here, if the entry is still the key's, serves this fragment.
  ghost predicate Serving(s: System, key: Key, e: nat, html: Html) {
    forall victim :: key in s.c.m && s.c.m[key] == e && Enabled(s, Get(key, 0, victim)) ==>
      var looked := Looked(s.c, key, victim);
      key in looked.m && looked.m[key] < |looked.entries| && looked.Entry(key).html == html
  }

  /** From a store until the next into the same entry, every get of the key that the entry serves gives it. */
  lemma LatestStoreIsServed(s: System, w: nat, after: seq<Step>)
    requires Inv(s) && Enabled(s, Store(w)) && IsRun(Apply(s, Store(w)), after)
    requires NoStoreInto(Apply(s, Store(w)), after, s.workers[w].entry)
    ensures var s', worker := Final(Apply(s, Store(w)), after), s.workers[w];
      && HoldsFragment(s'.c, worker.entry, worker.phase.html, s.now)
      && Serving(s', worker.key, worker.entry, worker.phase.html)
  {
    StoreTakesEffect(s, w);
    InvStep(s, Store(w));
    FragmentStays(Apply(s, Store(w)), after, s.workers[w].entry, s.workers[w].phase.html, s.now);
  }

  /**
   What a compute returns reaches the readers: whatever else happens between its return and its
   store, and from the store until the next one into that entry, gets of the key serve exactly it.
   */
  lemma ReturnedIsServed(s: System, w: nat, html: Html, before: seq<Step>, after: seq<Step>)
    requires Inv(s) && Enabled(s, Return(w, html)) && html != "" && IsRun(Apply(s, Return(w, html)), before)
    requires forall i :: 0 <= i < |before| ==> !IsOf(before[i], w)
    ensures var stored := Final(Apply(s, Return(w, html)), before);
      && Enabled(stored, Store(w))
      && (IsRun(Apply(stored, Store(w)), after)
          && NoStoreInto(Apply(stored, Store(w)), after, s.workers[w].entry) ==>
            Serving(Final(Apply(stored, Store(w)), after), s.workers[w].key, s.workers[w].entry, html))
  {
    var s1, worker := Apply(s, Return(w, html)), s.workers[w];
    InvStep(s, Return(w, html));
    StillWillStore(s1, before, w, worker.key, worker.entry, html);
    var stored := Final(s1, before);
    StoringIsEnabled(stored, w);
    if IsRun(Apply(stored, Store(w)), after) && NoStoreInto(Apply(stored, Store(w)), after, worker.entry) {
      LatestStoreIsServed(stored, w, after);
    }
  }

  lemma StoringIsEnabled(s: System, w: nat)
    requires Live(s) && w in s.workers && s.workers[w].phase.Storing?
    ensures Enabled(s, Store(w))
  {
  }

  lemma {:induction false} TimesGrow(s: System, steps: seq<Step>, e: nat)
    requires Inv(s) && IsRun(s, steps) && e < |s.c.entries|
    ensures var s' := Final(s, steps);
      e < |s'.c.entries| && s.c.entries[e].at <= s'.c.entries[e].at
    decreases |steps|
  {
    if steps != [] {
      var step := steps[0];
      if !step.Store? {
        OnlyStoreChanges(s, step, e);
      }
      InvStep(s, step);
      TimesGrow(Apply(s, step), steps[1..], e);
    }
  }

  /** After a store at time t, no get with a given ttl starts a compute on that kept entry before t + ttl. */
  lemma NoEarlyRecompute(s: System, w: nat, steps: seq<Step>, ttl: int)
    requires Inv(s) && Enabled(s, Store(w)) && IsRun(Apply(s, Store(w)), steps)
    ensures var s', worker := Final(Apply(s, Store(w)), steps), s.workers[w];
      (worker.key in s'.c.m && s'.c.m[worker.key] == worker.entry && worker.entry < |s'.c.entries|
       && Starts(s'.c, worker.key, ttl, s'.now)) ==> s'.now >= s.now + ttl
  {
    var s1, e := Apply(s, Store(w)), s.workers[w].entry;
    InvStep(s, Store(w));
    assert s1.c.entries[e].at == s.now;
    TimesGrow(s1, steps, e);
  }
}
