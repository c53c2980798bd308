/**
 The media library's memo of where files are used: requests read the last
 complete scan and may start another off the request path; a file is called "not
 used" only on the word of a scan that could have seen it.
 */
module MediaScan {
  import opened Bytes

  // Times are in ticks, zero meaning never; a second is this many of them.
  const SECOND: nat := 1_000_000_000
  const TTL: nat := 5 * 60 * SECOND

  type Uses = map<string, seq<string>>

  function Unix(t: nat): nat {
    t / SECOND
  }

  // The last complete scan's result and when it began.
  datatype Memo = Memo(uses: Uses, at: nat, refreshing: bool)

  predicate WantsScan(memo: Memo, newest: int, now: nat) {
    memo.at == 0 || now - memo.at >= TTL || newest >= Unix(memo.at)
  }

  // ---- One file's verdict ----

  datatype Verdict = NotKnown | UsedIn(places: seq<string>)

  function PlacesOf(uses: Uses, name: string): seq<string> {
    if name in uses then uses[name] else []
  }

  function VerdictOf(uses: Uses, at: nat, name: string, modified: int): Verdict {
    if at != 0 && modified < Unix(at) then UsedIn(PlacesOf(uses, name)) else NotKnown
  }

  datatype Item = Item(name: string, modified: int, verdict: Verdict)

  /** The newest time of any file not dated in the future; zero when there is none. */
  method Newest(items: seq<Item>, nowUnix: int) returns (newest: int)
    ensures newest >= 0
    ensures forall i :: 0 <= i < |items| && items[i].modified <= nowUnix ==> items[i].modified <= newest
    ensures newest == 0 || exists i :: 0 <= i < |items| && items[i].modified == newest <= nowUnix
  {
    newest := 0;
    for i := 0 to |items|
      invariant newest >= 0
      invariant forall k :: 0 <= k < i && items[k].modified <= nowUnix ==> items[k].modified <= newest
      invariant newest == 0 || exists k :: 0 <= k < i && items[k].modified == newest <= nowUnix
    {
      if items[i].modified <= nowUnix && items[i].modified > newest {
        newest := items[i].modified;
      }
    }
  }

  /** The verdict loop of the list handler. */
  method FillVerdicts(items: array<Item>, uses: Uses, at: nat)
    modifies items
    ensures forall i :: 0 <= i < items.Length ==>
      items[i] == old(items[i]).(verdict := VerdictOf(uses, at, old(items[i]).name, old(items[i]).modified))
  {
    for i := 0 to items.Length
      invariant forall k :: 0 <= k < i ==>
        items[k] == old(items[k]).(verdict := VerdictOf(uses, at, old(items[k]).name, old(items[k]).modified))
      invariant forall k :: i <= k < items.Length ==> items[k] == old(items[k])
    {
      var verdict := NotKnown;
      if at != 0 && items[i].modified < Unix(at) {
        verdict := UsedIn(PlacesOf(uses, items[i].name));
      }
      items[i] := items[i].(verdict := verdict);
    }
  }

  /** The memo of the source, with each locked section one method. */
  class MediaUsesMemo {
    var uses: Uses
    var at: nat
    var refreshing: bool

    ghost function Value(): Memo
      reads this
    {
      Memo(uses, at, refreshing)
    }

    constructor ()
      ensures Value() == Memo(map[], 0, false)
    {
      uses, at, refreshing := map[], 0, false;
    }

    /** `mediaUses`: the last scan, and whether a new one must be launched now. */
    method Read(newest: int, now: nat) returns (result: Uses, began: nat, scanning: bool, launch: bool)
      modifies this
      ensures launch == (WantsScan(old(Value()), newest, now) && !old(refreshing))
      ensures Value() == old(Value()).(refreshing := old(refreshing) || launch)
      ensures result == uses && began == at && scanning == refreshing
    {
      began := at;
      var unseen := at != 0 && newest >= Unix(at);
      launch := (at == 0 || now - at >= TTL || unseen) && !refreshing;
      if launch {
        refreshing := true;
      }
      result, scanning := uses, refreshing;
    }

    /** The end of `refreshMediaUses`: a failed scan leaves the previous one in place. */
    method Finish(scanned: Option<Uses>, started: nat)
      modifies this
      ensures Value() ==
        if scanned.Some? then Memo(scanned.value, started, false) else old(Value()).(refreshing := false)
    {
      refreshing := false;
      if scanned.None? {
        return;
      }
      uses, at := scanned.value, started;
    }
  }

  /** A file with no verdict yet, not dated past the newest, makes a request want a scan: an answer is coming. */
  lemma UnknownWantsScan(memo: Memo, name: string, modified: int, newest: int, now: nat)
    requires VerdictOf(memo.uses, memo.at, name, modified) == NotKnown && modified <= newest
    ensures WantsScan(memo, newest, now)
  {
  }

  // ---- Every run of requests, scans and failures ----

  datatype Scan = Launched | Running(started: nat)

  datatype Done = Done(started: nat, uses: Uses)

  // `completed` is history: every scan that finished, in order.
  datatype System = System(memo: Memo, now: nat, scans: map<nat, Scan>, launched: nat, completed: seq<Done>)

  datatype Step =
    | Request(newest: int)
    | Begin(id: nat)
    | Complete(id: nat, uses: Uses)
    | Fail(id: nat)
    | Tick(to: nat)

  ghost predicate IsInitial(s: System) {
    s.memo == Memo(map[], 0, false) && s.now > 0 && s.scans == map[] && s.launched == 0 && s.completed == []
  }

  ghost predicate Enabled(s: System, step: Step) {
    match step
    case Request(newest) => true
    case Begin(id) => id in s.scans && s.scans[id].Launched?
    case Complete(id, uses) => id in s.scans && s.scans[id].Running?
    case Fail(id) => id in s.scans && s.scans[id].Running?
    case Tick(to) => s.now <= to
  }

  ghost function Apply(s: System, step: Step): System
    requires Enabled(s, step)
  {
    match step
    case Request(newest) =>
      if WantsScan(s.memo, newest, s.now) && !s.memo.refreshing
      then s.(memo := s.memo.(refreshing := true), scans := s.scans[s.launched := Launched], launched := s.launched + 1)
      else s
    case Begin(id) => s.(scans := s.scans[id := Running(s.now)])
    case Complete(id, uses) =>
      var started := s.scans[id].started;
      s.(memo := Memo(uses, started, false), scans := s.scans - {id}, completed := s.completed + [Done(started, uses)])
    case Fail(id) => s.(memo := s.memo.(refreshing := false), scans := s.scans - {id})
    case Tick(to) => s.(now := to)
  }

  // Scans never overlap, and one is under way exactly when the memo says so.
  ghost predicate OneScan(s: System) {
    && (forall a, b :: a in s.scans && b in s.scans ==> a == b)
    && (s.memo.refreshing <==> s.scans != map[])
    && (forall a :: a in s.scans ==> a < s.launched)
  }

  // The memo is the last scan that completed, result and start time together.
  ghost predicate Published(s: System) {
    if s.completed == [] then s.memo.at == 0
    else s.completed[|s.completed| - 1] == Done(s.memo.at, s.memo.uses)
  }

  ghost predicate Ordered(s: System) {
    && s.now > 0 && s.memo.at <= s.now
    && (forall i :: 0 <= i < |s.completed| ==> 0 < s.completed[i].started <= s.memo.at)
    && (forall i, j :: 0 <= i < j < |s.completed| ==> s.completed[i].started <= s.completed[j].started)
    && (forall a :: a in s.scans && s.scans[a].Running? ==>
          0 < s.scans[a].started <= s.now && s.memo.at <= s.scans[a].started)
  }

  ghost predicate Inv(s: System) {
    OneScan(s) && Published(s) && Ordered(s)
  }

  lemma InvRequest(s: System, newest: int)
    requires Inv(s)
    ensures Inv(Apply(s, Request(newest)))
  {
    assert s.launched !in s.scans;
    var s' := Apply(s, Request(newest));
    if s' != s {
      assert s.scans == map[];
      assert s.launched in s'.scans;
    }
  }

  lemma InvEnd(s: System, id: nat, scanned: Option<Uses>)
    requires Inv(s) && id in s.scans && s.scans[id].Running?
    ensures Inv(Apply(s, if scanned.Some? then Complete(id, scanned.value) else Fail(id)))
  {
    assert (s.scans - {id}).Keys == {};
    assert s.scans - {id} == map[];
  }

  lemma InvStep(s: System, step: Step)
    requires Inv(s) && Enabled(s, step)
    ensures Inv(Apply(s, step)) && s.memo.at <= Apply(s, step).memo.at
  {
    match step
    case Request(newest) => InvRequest(s, newest);
    case Begin(id) => assert id in Apply(s, step).scans;
    case Complete(id, uses) => InvEnd(s, id, Some(uses));
    case Fail(id) => InvEnd(s, id, None);
    case Tick(to) =>
  }

  ghost predicate IsRun(s: System, steps: seq<Step>)
    decreases |steps|
  {
    steps == [] || (Enabled(s, steps[0]) && IsRun(Apply(s, steps[0]), steps[1..]))
  }

  ghost function Final(s: System, steps: seq<Step>): System
    requires IsRun(s, steps)
    decreases |steps|
  {
    if steps == [] then s else Final(Apply(s, steps[0]), steps[1..])
  }

  /** Over every run the invariant holds and the published start time never goes back. */
  lemma {:induction false} RunInv(s: System, steps: seq<Step>)
    requires Inv(s) && IsRun(s, steps)
    ensures Inv(Final(s, steps)) && s.memo.at <= Final(s, steps).memo.at
    decreases |steps|
  {
    if steps != [] {
      InvStep(s, steps[0]);
      RunInv(Apply(s, steps[0]), steps[1..]);
    }
  }

  // A completed scan that began in a later second than the file's own and found no use of it.
  ghost predicate ClearedBy(done: Done, name: string, modified: int) {
    modified < Unix(done.started) && PlacesOf(done.uses, name) == []
  }

  /**
   Over every run of requests, scans and failures a file is reported as not used only if a scan
   that completed, and began in a later second than the file's time, found no reference to it.
   */
  lemma NotUsedIsSubstantiated(initial: System, steps: seq<Step>, name: string, modified: int)
    requires IsInitial(initial) && IsRun(initial, steps)
    ensures var s := Final(initial, steps);
      && Inv(s)
      && (VerdictOf(s.memo.uses, s.memo.at, name, modified) == UsedIn([]) ==>
            exists i :: 0 <= i < |s.completed| && ClearedBy(s.completed[i], name, modified))
  {
    RunInv(initial, steps);
    var s := Final(initial, steps);
    if VerdictOf(s.memo.uses, s.memo.at, name, modified) == UsedIn([]) {
      assert ClearedBy(s.completed[|s.completed| - 1], name, modified);
    }
  }

  /**
   Over every run a file has a verdict exactly when some scan has completed and the last began in
   a later second than the file's own, and the verdict is then every place that scan found.
   */
  lemma VerdictExact(initial: System, steps: seq<Step>, name: string, modified: int, places: seq<string>)
    requires IsInitial(initial) && IsRun(initial, steps)
    ensures var s := Final(initial, steps);
      VerdictOf(s.memo.uses, s.memo.at, name, modified) == UsedIn(places) <==>
        && s.completed != []
        && var last := s.completed[|s.completed| - 1];
           modified < last.started / 1_000_000_000 && places == if name in last.uses then last.uses[name] else []
  {
    RunInv(initial, steps);
    InvKnows(Final(initial, steps), name, modified, places);
  }

  lemma InvKnows(s: System, name: string, modified: int, places: seq<string>)
    requires Inv(s)
    ensures VerdictOf(s.memo.uses, s.memo.at, name, modified) == UsedIn(places) <==>
      && s.completed != []
      && var last := s.completed[|s.completed| - 1];
         modified < last.started / 1_000_000_000 && places == if name in last.uses then last.uses[name] else []
  {
  }

  /** A scan is wanted before the first, five minutes after the last began, and for a file still without a verdict. */
  lemma WantsExactly(memo: Memo, name: string, newest: int, now: nat)
    ensures WantsScan(memo, newest, now) <==>
      || memo.at == 0
      || now - memo.at >= 300 * 1_000_000_000
      || VerdictOf(memo.uses, memo.at, name, newest) == NotKnown
  {
  }

  // ---- After a scan that failed ----

  // A request with this newest time starts a scan now.
  ghost predicate Launches(s: System, newest: int) {
    Apply(s, Request(newest)).launched > s.launched
  }

  /** After a failed scan a request starts another exactly when the memo it left alone still asks for one. */
  lemma RetriesExactly(s: System, id: nat, newest: int)
    requires Inv(s) && Enabled(s, Fail(id))
    ensures Launches(Apply(s, Fail(id)), newest) <==> WantsScan(s.memo, newest, s.now)
    ensures s.now - s.memo.at >= TTL ==> Launches(Apply(s, Fail(id)), newest)
  {
  }

  /**
   Once a request has wanted a scan, then until one completes every later request with no
   smaller newest time wants one too, and starts it unless one is under way: a failure is
   retried by the very next such request, and not only once the TTL has passed.
   */
  lemma {:induction false} WantedUntilComplete(s: System, newest: int, steps: seq<Step>, later: int)
    requires WantsScan(s.memo, newest, s.now) && newest <= later && IsRun(s, steps)
    requires forall i :: 0 <= i < |steps| ==> !steps[i].Complete?
    ensures var s' := Final(s, steps);
      WantsScan(s'.memo, later, s'.now) && (Launches(s', later) <==> !s'.memo.refreshing)
    decreases |steps|
  {
    if steps != [] {
      WantedUntilComplete(Apply(s, steps[0]), newest, steps[1..], later);
    }
  }

  lemma RunCons(s: System, step: Step, rest: seq<Step>)
    requires Enabled(s, step) && IsRun(Apply(s, step), rest)
    ensures IsRun(s, [step] + rest) && Final(s, [step] + rest) == Final(Apply(s, step), rest)
  {
    assert ([step] + rest)[1..] == rest;
  }

  // One scan from launch to end.
  lemma OneRound(s: System, newest: int, end: Step) returns (steps: seq<Step>)
    requires Launches(s, newest) && (end.Fail? || end.Complete?) && end.id == s.launched
    ensures IsRun(s, steps) && steps != [] && steps[|steps| - 1] == end
    ensures var s', started := Final(s, steps), s.(launched := s.launched + 1, scans := s.scans - {s.launched});
      if end.Fail? then s' == started
      else s' == started.(memo := Memo(end.uses, s.now, false), completed := s.completed + [Done(s.now, end.uses)])
  {
    var s1 := Apply(s, Request(newest));
    var s2 := Apply(s1, Begin(s.launched));
    assert IsRun(Apply(s2, end), []);
    RunCons(s2, end, []);
    RunCons(s1, Begin(s.launched), [end] + []);
    RunCons(s, Request(newest), [Begin(s.launched)] + ([end] + []));
    steps := [Request(newest)] + ([Begin(s.launched)] + ([end] + []));
    assert (s.scans[s.launched := Launched])[s.launched := Running(s.now)] - {s.launched} == s.scans - {s.launched};
  }

  lemma {:induction false} RunAppend(s: System, a: seq<Step>, b: seq<Step>)
    requires IsRun(s, a) && IsRun(Final(s, a), b)
    ensures IsRun(s, a + b) && Final(s, a + b) == Final(Final(s, a), b)
    decreases |a|
  {
    if a == [] {
      assert a + b == b;
    } else {
      RunAppend(Apply(s, a[0]), a[1..], b);
      RunCons(s, a[0], a[1..] + b);
      assert [a[0]] + (a[1..] + b) == a + b;
    }
  }

  // Within the TTL, a file as new as the last scan makes the next look retry; without it, it does not.
  ghost predicate RetriesEarly(s: System) {
    s.now - s.memo.at < TTL && Launches(s, Unix(s.memo.at)) && !Launches(s, Unix(s.memo.at) - 1)
  }

  /** A run whose last step is a failed scan, after which the next look retries long before the TTL. */
  lemma RetriedBeforeTtl(initial: System)
    requires IsInitial(initial)
    ensures exists steps: seq<Step> ::
      IsRun(initial, steps) && steps != [] && steps[|steps| - 1].Fail? && RetriesEarly(Final(initial, steps))
  {
    var first := OneRound(initial, 0, Complete(0, map[]));
    var s := Final(initial, first);
    var second := OneRound(s, Unix(s.now), Fail(1));
    RunAppend(initial, first, second);
    var steps := first + second;
    assert steps[|steps| - 1] == second[|second| - 1];
    assert RetriesEarly(Final(initial, steps));
  }
}
