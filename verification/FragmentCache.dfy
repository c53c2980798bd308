/**
 The background fragment cache of the admin dashboard: a map from keys to
 entries, a counting semaphore for computes, and eviction once the map is full.
 An entry is a handle into an arena, as the source shares a reference between the
 map and the goroutine that fills it.
 */
module FragmentCache {
  import opened Bytes

  type Key = string
  type Html = string

  // Time zero is "never"; the clock itself is always later.
  datatype Fragment = Fragment(html: Html, at: int, computing: bool)

  datatype Cache = Cache(m: map<Key, nat>, entries: seq<Fragment>, slots: nat, capacity: nat, max: nat) {
    ghost predicate Valid() {
      && (forall k :: k in m ==> m[k] < |entries|)
      && (forall k, j :: k in m && j in m && m[k] == m[j] ==> k == j)
    }

    function Entry(k: Key): Fragment
      requires k in m && m[k] < |entries|
    {
      entries[m[k]]
    }
  }

  // ---- Eviction ----

  ghost predicate Idle(c: Cache, k: Key)
    requires c.Valid()
  {
    k in c.m && !c.Entry(k).computing
  }

  // A non-computing entry computed no later than any other, under a non-empty key.
  ghost predicate Oldest(c: Cache, k: Key)
    requires c.Valid()
  {
    k != "" && Idle(c, k) && forall j :: Idle(c, j) ==> c.Entry(k).at <= c.Entry(j).at
  }

  // What the eviction loop may pick: an oldest entry whenever one has a non-empty key.
  // The loop uses "" for "none yet", so an idle "" that is strictly oldest upsets it.
  ghost predicate MayEvict(c: Cache, victim: Option<Key>)
    requires c.Valid()
  {
    && (victim.Some? ==> victim.value != "" && Idle(c, victim.value))
    && ((exists k :: Oldest(c, k)) ==> victim.Some? && Oldest(c, victim.value))
  }

  // The key the loop ends with when it walks the map in this order; "" when it has none.
  ghost function Walked(c: Cache, order: seq<Key>): (oldest: Key)
    requires c.Valid() && forall k :: k in order ==> k in c.m
    ensures oldest != "" ==> oldest in c.m
  {
    if order == [] then "" else
      var before, k := Walked(c, order[..|order| - 1]), order[|order| - 1];
      if c.Entry(k).computing then before
      else if before == "" || c.Entry(k).at < c.Entry(before).at then k else before
  }

  // An order in which a walk can meet the keys of the map.
  ghost predicate IsWalk(c: Cache, order: seq<Key>) {
    && (forall k :: k in order <==> k in c.m)
    && forall i, j :: 0 <= i < j < |order| ==> order[i] != order[j]
  }

  function Evict(c: Cache, victim: Option<Key>): Cache {
    if victim.Some? then c.(m := c.m - {victim.value}) else c
  }

  lemma WalkGrows(c: Cache, order: seq<Key>, k: Key)
    requires c.Valid() && k in c.m && k !in order && forall j :: j in order ==> j in c.m
    ensures forall j :: j in order + [k] ==> j in c.m
    ensures (forall i, j :: 0 <= i < j < |order| ==> order[i] != order[j]) ==>
      forall i, j :: 0 <= i < j < |order + [k]| ==> (order + [k])[i] != (order + [k])[j]
    ensures var before := Walked(c, order);
      Walked(c, order + [k]) ==
        if c.Entry(k).computing then before
        else if before == "" || c.Entry(k).at < c.Entry(before).at then k else before
  {
    assert (order + [k])[..|order|] == order;
    assert forall i :: 0 <= i < |order| ==> order[i] in order;
  }

  lemma {:induction false} WalkedIdle(c: Cache, order: seq<Key>)
    requires c.Valid() && forall k :: k in order ==> k in c.m
    ensures Walked(c, order) != "" ==> Idle(c, Walked(c, order))
  {
    if order != [] {
      WalkedIdle(c, order[..|order| - 1]);
    }
  }

  lemma {:induction false} WalkedLeast(c: Cache, order: seq<Key>, k: Key)
    requires c.Valid() && (forall j :: j in order ==> j in c.m) && k in order && Oldest(c, k)
    ensures Walked(c, order) != "" && c.Entry(Walked(c, order)).at <= c.Entry(k).at
  {
    var n := |order| - 1;
    WalkedIdle(c, order[..n]);
    if k in order[..n] {
      WalkedLeast(c, order[..n], k);
      if order[n] == "" && !c.Entry("").computing {
        assert Idle(c, "") && c.Entry(k).at <= c.Entry("").at;
        assert Idle(c, Walked(c, order[..n]));
      }
    } else {
      assert order[n] == k;
    }
  }

  /** Whatever the order of the walk, it ends with an oldest idle entry if one has a non-empty key. */
  lemma WalkMayEvict(c: Cache, order: seq<Key>)
    requires c.Valid() && IsWalk(c, order)
    ensures MayEvict(c, if Walked(c, order) == "" then None else Some(Walked(c, order)))
  {
    WalkedIdle(c, order);
    if k :| Oldest(c, k) {
      WalkedLeast(c, order, k);
    }
  }

  // ---- A get, up to where it decides whether to compute ----

  function Full(c: Cache): bool {
    c.max > 0 && |c.m| >= c.max
  }

  function Looked(c: Cache, key: Key, victim: Option<Key>): Cache {
    if key in c.m then c else
      var room := if Full(c) then Evict(c, victim) else c;
      room.(m := room.m[key := |c.entries|], entries := c.entries + [Fragment("", 0, false)])
  }

  predicate Stale(e: Fragment, ttl: int, now: int) {
    e.at == 0 || now - e.at >= ttl
  }

  predicate Starts(c: Cache, key: Key, ttl: int, now: int)
    requires key in c.m && c.m[key] < |c.entries|
  {
    Stale(c.Entry(key), ttl, now) && !c.Entry(key).computing && c.slots < c.capacity
  }

  // Take a slot and flag the entry.
  function Started(c: Cache, key: Key): Cache
    requires key in c.m && c.m[key] < |c.entries|
  {
    c.(slots := c.slots + 1, entries := c.entries[c.m[key] := c.Entry(key).(computing := true)])
  }

  function AfterGet(c: Cache, key: Key, ttl: int, now: int, victim: Option<Key>): Cache
    requires c.Valid()
  {
    var looked := Looked(c, key, victim);
    if Starts(looked, key, ttl, now) then Started(looked, key) else looked
  }

  /** The class of the source, with each locked section one method. */
  class AdminFragmentCache {
    var m: map<Key, nat>
    var entries: seq<Fragment>
    var slots: nat
    const capacity: nat
    const max: nat

    ghost function Value(): Cache
      reads this
    {
      Cache(m, entries, slots, capacity, max)
    }

    constructor (maxConcurrent: int, max: nat)
      ensures Value() == Cache(map[], [], 0, if maxConcurrent < 1 then 1 else maxConcurrent, max)
      ensures Value().Valid()
    {
      this.capacity := if maxConcurrent < 1 then 1 else maxConcurrent;
      this.max := max;
      m, entries, slots := map[], [], 0;
    }

    /** `evictOldest`, whatever order the map is walked in. */
    method EvictOldest() returns (victim: Option<Key>, ghost order: seq<Key>)
      requires Value().Valid()
      modifies this
      ensures MayEvict(old(Value()), victim) && Value() == Evict(old(Value()), victim)
      ensures IsWalk(old(Value()), order)
      ensures var oldest := Walked(old(Value()), order);
        victim == if oldest == "" then None else Some(oldest)
    {
      var oldest: Key := "";
      var at := 0;
      var todo := m.Keys;
      order := [];
      while todo != {}
        invariant todo <= m.Keys && Value() == old(Value())
        invariant oldest != "" ==> oldest in m && at == Value().Entry(oldest).at
        invariant forall k :: k in order <==> k in m && k !in todo
        invariant forall i, j :: 0 <= i < j < |order| ==> order[i] != order[j]
        invariant oldest == Walked(Value(), order)
        decreases todo
      {
        var k :| k in todo;
        todo := todo - {k};
        WalkGrows(Value(), order, k);
        order := order + [k];
        var e := entries[m[k]];
        if e.computing {
          continue;
        }
        if oldest == "" || e.at < at {
          oldest, at := k, e.at;
        }
      }
      WalkMayEvict(Value(), order);
      victim := None;
      if oldest != "" {
        victim := Some(oldest);
        m := m - {oldest};
      }
    }

    // The first half of `get`: the entry for `key`, made if there was none.
    method Look(key: Key) returns (victim: Option<Key>)
      requires Value().Valid()
      modifies this
      ensures key !in old(m) && Full(old(Value())) ==> MayEvict(old(Value()), victim)
      ensures Value() == Looked(old(Value()), key, victim) && key in m && m[key] < |entries|
    {
      victim := None;
      if key !in m {
        if max > 0 && |m| >= max {
          ghost var order;
          victim, order := EvictOldest();
        }
        entries := entries + [Fragment("", 0, false)];
        m := m[key := |entries| - 1];
      }
    }

    /** `get`: what it serves, and the entry of the compute it schedules, if any. */
    method Get(key: Key, ttl: int, now: int)
      returns (html: Html, ready: bool, started: Option<nat>, victim: Option<Key>)
      requires Value().Valid()
      modifies this
      ensures key !in old(m) && Full(old(Value())) ==> MayEvict(old(Value()), victim)
      ensures Value() == AfterGet(old(Value()), key, ttl, now, victim)
      ensures var looked := Looked(old(Value()), key, victim);
        && html == looked.Entry(key).html && ready == (html != "")
        && started == if Starts(looked, key, ttl, now) then Some(looked.m[key]) else None
    {
      victim := Look(key);
      var e := m[key];
      html := entries[e].html;
      ready := html != "";
      started := None;
      var stale := entries[e].at == 0 || now - entries[e].at >= ttl;
      if stale && !entries[e].computing && slots < capacity {
        slots := slots + 1;
        entries := entries[e := entries[e].(computing := true)];
        started := Some(e);
      }
    }

    /** The locked section that keeps a compute's result. */
    method Store(e: nat, html: Html, now: int)
      requires e < |entries|
      modifies this
      ensures Value() == Stored(old(Value()), e, html, now)
    {
      entries := entries[e := entries[e].(html := html, at := now)];
    }

    /** The receive that gives a slot back; it needs a slot to be taken. */
    method Release()
      requires slots > 0
      modifies this
      ensures Value() == Released(old(Value()))
    {
      slots := slots - 1;
    }

    /** The last locked section of a compute. */
    method Clear(e: nat)
      requires e < |entries|
      modifies this
      ensures Value() == Cleared(old(Value()), e)
    {
      entries := entries[e := entries[e].(computing := false)];
    }

    /** `keys`: every key that starts with the prefix, each once. */
    method Keys(prefix: string) returns (out: seq<Key>)
      ensures forall k :: k in out <==> k in m && prefix <= k
      ensures forall i, j :: 0 <= i < j < |out| ==> out[i] != out[j]
    {
      out := [];
      var todo := m.Keys;
      while todo != {}
        invariant todo <= m.Keys
        invariant forall k :: k in out <==> k in m && k !in todo && prefix <= k
        invariant forall i, j :: 0 <= i < j < |out| ==> out[i] != out[j]
        decreases todo
      {
        var k :| k in todo;
        todo := todo - {k};
        if prefix <= k {
          assert forall i :: 0 <= i < |out| ==> out[i] in out;
          out := out + [k];
        }
      }
    }
  }

  function Stored(c: Cache, e: nat, html: Html, now: int): Cache
    requires e < |c.entries|
  {
    c.(entries := c.entries[e := c.entries[e].(html := html, at := now)])
  }

  function Released(c: Cache): Cache
    requires c.slots > 0
  {
    c.(slots := c.slots - 1)
  }

  function Cleared(c: Cache, e: nat): Cache
    requires e < |c.entries|
  {
    c.(entries := c.entries[e := c.entries[e].(computing := false)])
  }

  // ---- When eviction works ----

  // The one configuration the loop's sentinel gets wrong.
  ghost predicate EmptyKeyIsOldest(c: Cache)
    requires c.Valid()
  {
    Idle(c, "") && forall j :: Idle(c, j) && j != "" ==> c.Entry("").at < c.Entry(j).at
  }

  lemma {:induction false} LeastOf(c: Cache, keys: set<Key>) returns (k: Key)
    requires c.Valid() && keys != {} && keys <= c.m.Keys
    ensures k in keys && forall j :: j in keys ==> c.Entry(k).at <= c.Entry(j).at
    decreases |keys|
  {
    var first :| first in keys;
    var rest := keys - {first};
    assert forall j :: j in keys ==> j == first || j in rest;
    k := first;
    if rest != {} {
      var least := LeastOf(c, rest);
      if c.Entry(least).at < c.Entry(first).at {
        k := least;
      }
    }
  }

  /** An oldest entry can be picked exactly when something is idle and "" is not strictly oldest. */
  lemma OldestExists(c: Cache)
    requires c.Valid()
    ensures (exists k :: Oldest(c, k)) <==> (exists j :: Idle(c, j)) && !EmptyKeyIsOldest(c)
  {
    var named := set k | k in c.m && k != "" && Idle(c, k);
    assert forall j :: Idle(c, j) && j != "" ==> j in named;
    if named != {} {
      var k := LeastOf(c, named);
      assert Idle(c, k);
      assert Oldest(c, k) || EmptyKeyIsOldest(c);
    }
  }

  /** A permitted eviction removes an oldest idle entry exactly outside the empty-key configuration. */
  lemma EvictionExact(c: Cache, victim: Option<Key>)
    requires c.Valid() && MayEvict(c, victim) && exists j :: Idle(c, j)
    ensures (victim.Some? && forall j :: Idle(c, j) ==> c.Entry(victim.value).at <= c.Entry(j).at)
      <==> !EmptyKeyIsOldest(c)
  {
    OldestExists(c);
    if EmptyKeyIsOldest(c) && victim.Some? {
      assert c.Entry("").at < c.Entry(victim.value).at;
    }
  }
}
