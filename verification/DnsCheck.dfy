/** One DNS record's lookup and how the DNS page classifies it. */
module DnsCheck {

  type Addr = string

  datatype Record = Record(host: string, required: bool, proxyOff: bool)

  datatype State = NotPointed | PointedHere | Proxied | Unverified | Unknown

  datatype Check = Check(record: Record, state: State, addrs: seq<Addr>)

  // What a lookup came back with; not ok when it did not finish, and then no addresses.
  datatype Answer = Answer(addrs: seq<Addr>, ok: bool)

  // What every lookup is judged against: this machine's addresses and the apex's.
  datatype Site = Site(local: set<Addr>, apex: set<Addr>) {
    predicate ApexProxied() {
      apex != {} && apex !! local && local != {}
    }
  }

  ghost predicate Meets(addrs: seq<Addr>, held: set<Addr>) {
    exists i :: 0 <= i < |addrs| && addrs[i] in held
  }

  ghost function Classify(site: Site, record: Record, answer: Answer): State {
    if !answer.ok then Unknown
    else if answer.addrs == [] then NotPointed
    else if Meets(answer.addrs, site.local) then PointedHere
    else if Meets(answer.addrs, site.apex) && site.ApexProxied() && record.proxyOff then Proxied
    else Unverified
  }

  ghost function Checked(site: Site, record: Record, answer: Answer): Check {
    Check(record, Classify(site, record, answer), answer.addrs)
  }

  /** The apex loop of `resolveAll`: proxied when it resolves, to nothing this machine holds. */
  method ApexSite(local: set<Addr>, resolved: seq<Addr>) returns (site: Site, proxied: bool)
    ensures site.local == local && (forall a :: a in site.apex <==> a in resolved)
    ensures proxied == site.ApexProxied()
  {
    var apex: set<Addr> := {};
    var isLocal := false;
    for i := 0 to |resolved|
      invariant forall a :: a in apex <==> a in resolved[..i]
      invariant isLocal <==> exists a :: a in apex && a in local
    {
      apex := apex + {resolved[i]};
      if resolved[i] in local {
        assert resolved[i] in apex;
        isLocal := true;
      }
    }
    assert resolved[..|resolved|] == resolved;
    site := Site(local, apex);
    proxied := |apex| > 0 && !isLocal && |local| > 0;
  }

  /** The classification switch with its two searching loops. */
  method ClassifyRecord(site: Site, record: Record, answer: Answer) returns (check: Check)
    ensures check == Checked(site, record, answer)
  {
    var state := NotPointed;
    if !answer.ok {
      state := Unknown;
    } else if |answer.addrs| == 0 {
      state := NotPointed;
    } else {
      for i := 0 to |answer.addrs|
        invariant state == NotPointed && forall k :: 0 <= k < i ==> answer.addrs[k] !in site.local
      {
        if answer.addrs[i] in site.local {
          state := PointedHere;
          break;
        }
      }
      if state != PointedHere {
        var shares := false;
        for i := 0 to |answer.addrs|
          invariant !shares && forall k :: 0 <= k < i ==> answer.addrs[k] !in site.apex
        {
          if answer.addrs[i] in site.apex {
            shares := true;
            break;
          }
        }
        state := if shares && site.ApexProxied() && record.proxyOff then Proxied else Unverified;
      }
    }
    check := Check(record, state, answer.addrs);
  }

  /**
   Each verdict, exactly: unknown for a lookup that did not finish, not pointed for one that found
   nothing, pointed here when it found an address this machine holds, proxied when it found none of
   those but one of the apex's, the apex is itself proxied and the record must not be; else unverified.
   */
  lemma ClassifyExact(site: Site, record: Record, answer: Answer)
    ensures var state := Classify(site, record, answer);
      var here := exists a :: a in answer.addrs && a in site.local;
      var proxied := !here && record.proxyOff && (exists a :: a in answer.addrs && a in site.apex)
        && site.local != {} && !exists a :: a in site.apex && a in site.local;
      && Checked(site, record, answer) == Check(record, state, answer.addrs)
      && (state == Unknown <==> !answer.ok)
      && (state == NotPointed <==> answer.ok && answer.addrs == [])
      && (state == PointedHere <==> answer.ok && here)
      && (state == Proxied <==> answer.ok && proxied)
      && (state == Unverified <==> answer.ok && answer.addrs != [] && !here && !proxied)
  {
    assert forall a :: a in answer.addrs <==> exists i :: 0 <= i < |answer.addrs| && answer.addrs[i] == a;
  }

  /** "Not pointed" is said only of a lookup that finished and found nothing. */
  lemma NotPointedIsSubstantiated(site: Site, record: Record, answer: Answer)
    ensures Classify(site, record, answer) == NotPointed <==> answer.ok && answer.addrs == []
    ensures !answer.ok <==> Classify(site, record, answer) == Unknown
    ensures Classify(site, record, answer) == Proxied ==> record.proxyOff && !Meets(answer.addrs, site.local)
  {
  }
}
