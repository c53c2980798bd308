/** The rows of the DNS page: which domains are listed, and which of them carry a warning. */
module DnsViews {
  import opened DnsCheck

  const TLS_PENDING := "pending"
  const TLS_FAILED := "failed"

  datatype View = View(
    host: string, isPrimary: bool, mailEnabled: bool, syncApproved: bool, tls: string, checks: seq<Check>)

  // A registered domain.
  datatype Entry = Entry(
    host: string, isPrimary: bool, active: bool, mailEnabled: bool, syncApproved: bool, tls: string)

  // ---- One row's state ----

  // The apex is the first check carrying the view's own host.
  ghost predicate ApexIs(v: View, i: nat) {
    i < |v.checks| && v.checks[i].record.host == v.host
      && forall k :: 0 <= k < i ==> v.checks[k].record.host != v.host
  }

  ghost predicate DoesResolve(v: View) {
    exists i: nat :: ApexIs(v, i) && v.checks[i].state != NotPointed && v.checks[i].state != Unknown
  }

  ghost predicate LacksCertificate(v: View) {
    !v.isPrimary && v.syncApproved && (v.tls == TLS_PENDING || v.tls == TLS_FAILED) && DoesResolve(v)
  }

  ghost predicate OnHold(v: View) {
    !v.isPrimary && !v.syncApproved
  }

  ghost predicate HasProxied(v: View) {
    exists i :: 0 <= i < |v.checks| && v.checks[i].state == Proxied
  }

  ghost predicate HasMissing(v: View) {
    exists i :: 0 <= i < |v.checks| && v.checks[i].record.required && v.checks[i].state == NotPointed
  }

  ghost predicate HasUnknown(v: View) {
    exists i :: 0 <= i < |v.checks| && v.checks[i].state == Unknown
  }

  ghost predicate Warned(v: View) {
    OnHold(v) || LacksCertificate(v) || HasProxied(v) || HasMissing(v)
  }

  /**
   A view is warned exactly when it is a secondary on hold; or a record of it is proxied, or required
   and not pointed; or it is an approved secondary with no certificate whose own host, at its first
   check, resolves.
   */
  lemma WarnedExact(v: View)
    ensures Warned(v) <==>
      || (!v.isPrimary && !v.syncApproved)
      || (exists c :: c in v.checks && (c.state == Proxied || (c.record.required && c.state == NotPointed)))
      || (!v.isPrimary && (v.tls == "pending" || v.tls == "failed") && FirstResolves(v.checks, v.host))
  {
    FirstIsApex(v, v.checks, 0);
    assert v.checks[0..] == v.checks;
  }

  ghost predicate FirstResolves(checks: seq<Check>, host: string) {
    checks != [] &&
    if checks[0].record.host == host then checks[0].state in {PointedHere, Proxied, Unverified}
    else FirstResolves(checks[1..], host)
  }

  lemma {:induction false} FirstIsApex(v: View, rest: seq<Check>, n: nat)
    requires n <= |v.checks| && rest == v.checks[n..]
    requires forall k :: 0 <= k < n ==> v.checks[k].record.host != v.host
    ensures DoesResolve(v) <==> FirstResolves(rest, v.host)
    decreases |rest|
  {
    if rest != [] {
      if rest[0].record.host == v.host {
        assert ApexIs(v, n);
        assert forall j: nat :: ApexIs(v, j) ==> j == n;
      } else {
        FirstIsApex(v, rest[1..], n + 1);
      }
    }
  }

  method Resolves(v: View) returns (r: bool)
    ensures r == DoesResolve(v)
  {
    for i := 0 to |v.checks|
      invariant forall k :: 0 <= k < i ==> v.checks[k].record.host != v.host
    {
      if v.checks[i].record.host != v.host {
        continue;
      }
      assert ApexIs(v, i);
      assert forall j: nat :: ApexIs(v, j) ==> j == i;
      return v.checks[i].state != NotPointed && v.checks[i].state != Unknown;
    }
    return false;
  }

  method NeedsCertificate(v: View) returns (r: bool)
    ensures r == LacksCertificate(v)
  {
    if v.isPrimary || !v.syncApproved {
      return false;
    }
    if v.tls != TLS_PENDING && v.tls != TLS_FAILED {
      return false;
    }
    r := Resolves(v);
  }

  method NeedsAttention(v: View) returns (r: bool)
    ensures r == Warned(v)
  {
    if !v.isPrimary && !v.syncApproved {
      return true;
    }
    var certificate := NeedsCertificate(v);
    if certificate {
      return true;
    }
    for i := 0 to |v.checks|
      invariant forall k :: 0 <= k < i ==>
        v.checks[k].state != Proxied && !(v.checks[k].record.required && v.checks[k].state == NotPointed)
    {
      if v.checks[i].state == Proxied || (v.checks[i].record.required && v.checks[i].state == NotPointed) {
        return true;
      }
    }
    return false;
  }

  datatype Level = Warn | Neutral | Good

  /** `state`: a row warns exactly when it needs attention, and names the first thing to fix. */
  method RowState(v: View) returns (level: Level, word: string)
    ensures level == Warn <==> Warned(v)
    ensures (level, word) ==
      if OnHold(v) then (Warn, "On hold")
      else if LacksCertificate(v) then (Warn, "No certificate")
      else if HasProxied(v) then (Warn, "Behind the proxy")
      else if HasMissing(v) then (Warn, "Not pointed")
      else if HasUnknown(v) then (Neutral, "Not checked")
      else (Good, "Pointed")
  {
    if !v.isPrimary && !v.syncApproved {
      return Warn, "On hold";
    }
    var certificate := NeedsCertificate(v);
    if certificate {
      return Warn, "No certificate";
    }
    var unknown := false;
    for i := 0 to |v.checks|
      invariant forall k :: 0 <= k < i ==> v.checks[k].state != Proxied
      invariant unknown <==> exists k :: 0 <= k < i && v.checks[k].state == Unknown
    {
      if v.checks[i].state == Proxied {
        return Warn, "Behind the proxy";
      }
      unknown := unknown || v.checks[i].state == Unknown;
    }
    for i := 0 to |v.checks|
      invariant forall k :: 0 <= k < i ==> !(v.checks[k].record.required && v.checks[k].state == NotPointed)
    {
      if v.checks[i].record.required && v.checks[i].state == NotPointed {
        return Warn, "Not pointed";
      }
    }
    if unknown {
      return Neutral, "Not checked";
    }
    return Good, "Pointed";
  }

  // ---- The list ----

  ghost function Keep(views: seq<View>, keep: View -> bool): seq<View> {
    if views == [] then [] else
      Keep(views[..|views| - 1], keep) + if keep(views[|views| - 1]) then [views[|views| - 1]] else []
  }

  lemma KeepNext(views: seq<View>, keep: View -> bool, i: nat)
    requires i < |views|
    ensures Keep(views[..i + 1], keep) == Keep(views[..i], keep) + if keep(views[i]) then [views[i]] else []
  {
    assert views[..i + 1][..i] == views[..i];
  }

  method CountAttention(views: seq<View>) returns (attention: nat)
    ensures attention == |Keep(views, Warned)|
  {
    attention := 0;
    for i := 0 to |views|
      invariant attention == |Keep(views[..i], Warned)|
    {
      KeepNext(views, Warned, i);
      var needs := NeedsAttention(views[i]);
      if needs {
        attention := attention + 1;
      }
    }
    assert views[..|views|] == views;
  }

  // A row the filter lets through.
  ghost function Wanted(onlyAttention: bool, matches: View -> bool): View -> bool {
    v => matches(v) && (onlyAttention ==> Warned(v))
  }

  /**
   The attention count and the filter of `dnsList`: under "Needs attention" with no search the
   rows shown are precisely the warned ones, in order, and as many as the count says.
   */
  method Listing(views: seq<View>, onlyAttention: bool, matches: View -> bool)
    returns (attention: nat, shown: seq<View>)
    ensures attention == |Keep(views, Warned)|
    ensures shown == Keep(views, Wanted(onlyAttention, matches))
    ensures onlyAttention && (forall v :: matches(v)) ==> shown == Keep(views, Warned) && |shown| == attention
  {
    attention := CountAttention(views);
    shown := [];
    for i := 0 to |views|
      invariant shown == Keep(views[..i], Wanted(onlyAttention, matches))
    {
      KeepNext(views, Wanted(onlyAttention, matches), i);
      var needs := NeedsAttention(views[i]);
      if (onlyAttention && !needs) || !matches(views[i]) {
        continue;
      }
      shown := shown + [views[i]];
    }
    assert views[..|views|] == views;
    if onlyAttention && forall v :: matches(v) {
      KeepSame(views, Wanted(onlyAttention, matches), Warned);
    }
  }

  lemma {:induction false} KeepSame(views: seq<View>, p: View -> bool, q: View -> bool)
    requires forall v :: p(v) == q(v)
    ensures Keep(views, p) == Keep(views, q)
  {
    if views != [] {
      KeepSame(views[..|views| - 1], p, q);
    }
  }

  // ---- Which domains are listed ----

  // How the source folds host names and what records it asks for; their own rules are not modelled.
  datatype Rules = Rules(
    lower: string -> string,
    trim: string -> string,
    records: (string, bool, bool) -> seq<Record>)
  {
    function Fold(host: string): string {
      lower(trim(host))
    }
  }

  // Entry i is an active one for this host.
  ghost predicate Names(rules: Rules, list: seq<Entry>, i: nat, host: string) {
    i < |list| && list[i].active && rules.Fold(list[i].host) == host && host != ""
  }

  ghost predicate Listed(rules: Rules, list: seq<Entry>, n: nat, host: string) {
    exists i: nat :: i < n && Names(rules, list, i, host)
  }

  ghost predicate HasHost(views: seq<View>, host: string) {
    exists i :: 0 <= i < |views| && views[i].host == host
  }

  lemma HasHostSnoc(views: seq<View>, view: View)
    ensures forall h :: HasHost(views + [view], h) <==> HasHost(views, h) || h == view.host
  {
    var more := views + [view];
    assert more[|views|] == view;
    forall h | HasHost(views, h)
      ensures HasHost(more, h)
    {
      var i :| 0 <= i < |views| && views[i].host == h;
      assert more[i].host == h;
    }
  }

  lemma HasHostSame(views: seq<View>, others: seq<View>)
    requires |views| == |others| && forall i :: 0 <= i < |views| ==> views[i].host == others[i].host
    ensures forall h :: HasHost(views, h) <==> HasHost(others, h)
  {
  }

  ghost predicate DistinctHosts(views: seq<View>) {
    forall i, j :: 0 <= i < j < |views| ==> views[i].host != views[j].host
  }

  // The view is what the registry says of the first active entry for its host.
  ghost predicate FromRegistry(rules: Rules, list: seq<Entry>, v: View) {
    exists i: nat :: Names(rules, list, i, v.host) && !Listed(rules, list, i, v.host)
      && v.isPrimary == list[i].isPrimary && v.mailEnabled == list[i].mailEnabled
      && v.syncApproved == list[i].syncApproved && v.tls == list[i].tls
  }

  // Entry i is flagged primary and repeats a host that is in the list by then, so its TLS state is carried.
  ghost predicate Carries(rules: Rules, primary: string, list: seq<Entry>, i: nat) {
    i < |list| && list[i].isPrimary && var h := rules.Fold(list[i].host);
    Names(rules, list, i, h) && (h == rules.lower(primary) || Listed(rules, list, i, h))
  }

  // The primary's TLS state: that of the last entry that carries one, if any does.
  ghost predicate CarriedTls(rules: Rules, primary: string, list: seq<Entry>, n: nat, tls: string)
    requires n <= |list|
  {
    || (tls == "" && forall i: nat :: i < n ==> !Carries(rules, primary, list, i))
    || exists i: nat :: i < n && Carries(rules, primary, list, i) && tls == list[i].tls
         && forall j: nat :: i < j < n ==> !Carries(rules, primary, list, j)
  }

  lemma CarriedNext(rules: Rules, primary: string, list: seq<Entry>, n: nat, tls: string)
    requires n < |list| && CarriedTls(rules, primary, list, n, tls)
    ensures CarriedTls(rules, primary, list, n + 1, if Carries(rules, primary, list, n) then list[n].tls else tls)
  {
  }

  // The views before their records are filled in.
  method CollectViews(rules: Rules, primary: string, list: seq<Entry>) returns (views: seq<View>)
    ensures views != [] && views[0].host == rules.lower(primary)
    ensures views[0].isPrimary && views[0].mailEnabled && views[0].syncApproved
    ensures CarriedTls(rules, primary, list, |list|, views[0].tls)
    ensures DistinctHosts(views)
    ensures forall h :: HasHost(views, h) <==>
      h == rules.lower(primary) || Listed(rules, list, |list|, h)
    ensures forall i :: 0 < i < |views| ==> FromRegistry(rules, list, views[i])
  {
    views := [View(rules.lower(primary), true, true, true, "", [])];
    var seen := {views[0].host};
    for n := 0 to |list|
      invariant views != [] && views[0].host == rules.lower(primary)
      invariant views[0].isPrimary && views[0].mailEnabled && views[0].syncApproved
      invariant CarriedTls(rules, primary, list, n, views[0].tls)
      invariant DistinctHosts(views)
      invariant forall h :: h in seen <==> HasHost(views, h)
      invariant forall h :: h in seen <==> h == rules.lower(primary) || Listed(rules, list, n, h)
      invariant forall i :: 0 < i < |views| ==> FromRegistry(rules, list, views[i])
    {
      var d := list[n];
      var h := rules.Fold(d.host);
      CarriedNext(rules, primary, list, n, views[0].tls);
      assert forall g :: Listed(rules, list, n + 1, g) <==> Listed(rules, list, n, g) || Names(rules, list, n, g);
      if h == "" || !d.active {
        continue;
      }
      if h in seen {
        if d.isPrimary {
          HasHostSame(views, views[0 := views[0].(tls := d.tls)]);
          views := views[0 := views[0].(tls := d.tls)];
        }
        continue;
      }
      seen := seen + {h};
      var view := View(h, d.isPrimary, d.mailEnabled, d.syncApproved, d.tls, []);
      assert Names(rules, list, n, h);
      HasHostSnoc(views, view);
      views := views + [view];
    }
  }

  /** `hostedDomainViews`: distinct hosts, the primary and every active registered one, records unchecked. */
  method HostedViews(rules: Rules, primary: string, list: seq<Entry>) returns (views: seq<View>)
    ensures views != [] && views[0].host == rules.lower(primary)
    ensures views[0].isPrimary && views[0].mailEnabled && views[0].syncApproved
    ensures CarriedTls(rules, primary, list, |list|, views[0].tls)
    ensures DistinctHosts(views)
    ensures forall h :: HasHost(views, h) <==>
      h == rules.lower(primary) || Listed(rules, list, |list|, h)
    ensures forall i :: 0 < i < |views| ==> FromRegistry(rules, list, views[i])
    ensures forall i :: 0 <= i < |views| ==>
      var records := rules.records(views[i].host, views[i].isPrimary, views[i].mailEnabled);
      views[i].checks == seq(|records|, j requires 0 <= j < |records| => Check(records[j], NotPointed, []))
  {
    views := CollectViews(rules, primary, list);
    ghost var bare := views;
    for i := 0 to |views|
      invariant |views| == |bare|
      invariant forall k :: 0 <= k < |views| ==> views[k].(checks := []) == bare[k].(checks := [])
      invariant forall k :: 0 <= k < i ==>
        var records := rules.records(views[k].host, views[k].isPrimary, views[k].mailEnabled);
        views[k].checks == seq(|records|, j requires 0 <= j < |records| => Check(records[j], NotPointed, []))
    {
      var records := rules.records(views[i].host, views[i].isPrimary, views[i].mailEnabled);
      var checks := seq(|records|, j requires 0 <= j < |records| => Check(records[j], NotPointed, []));
      views := views[i := views[i].(checks := checks)];
    }
    HasHostSame(views, bare);
  }
}
