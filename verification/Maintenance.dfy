/** Which paths stay reachable while the site is down for maintenance. */
module Maintenance {
  import opened LexicalPath

  const ICON := "/favicon.ico"

  // The exempt prefixes, as their segments.
  const EXEMPT: seq<seq<Segment>> := [
    ["os"], ["__vayushield"], ["__vayuanalytics"], [".well-known"], ["mcp"], ["oauth"], ["health"],
    ["dav"], ["static", "fonts"]]

  function PrefixText(i: nat): string
    requires i < |EXEMPT|
  {
    Text(EXEMPT[i])
  }

  predicate Under(p: string, prefix: string) {
    p == prefix || prefix + "/" <= p
  }

  ghost predicate Exempt(p: string) {
    p == ICON || exists i :: 0 <= i < |EXEMPT| && Under(p, PrefixText(i))
  }

  ghost predicate StaysReachable(p: string) {
    Exempt(p) && Exempt(CleanRooted(p))
  }

  method IsExempt(p: string) returns (r: bool)
    ensures r == Exempt(p)
  {
    if p == ICON {
      return true;
    }
    for i := 0 to |EXEMPT|
      invariant forall k :: 0 <= k < i ==> !Under(p, PrefixText(k))
    {
      var pre := PrefixText(i);
      if p == pre || pre + "/" <= p {
        return true;
      }
    }
    return false;
  }

  /** `maintenancePathExempt`: exempt as it arrived and as a handler that cleans it serves it. */
  method MaintenancePathExempt(p: string) returns (r: bool)
    ensures r == StaysReachable(p)
  {
    r := IsExempt(p);
    if r {
      r := IsExempt(CleanRooted(p));
    }
  }

  lemma ExemptPlain()
    ensures forall i :: 0 <= i < |EXEMPT| ==> EXEMPT[i] != [] && AllPlain(EXEMPT[i])
    ensures AllPlain(["favicon.ico"]) && Text(["favicon.ico"]) == ICON
  {
    assert SlashFree("os") && SlashFree("__vayushield") && SlashFree("__vayuanalytics");
    assert SlashFree(".well-known") && SlashFree("mcp") && SlashFree("oauth") && SlashFree("health");
    assert SlashFree("dav") && SlashFree("static") && SlashFree("fonts") && SlashFree("favicon.ico");
  }

  // The segments begin with a whole exempt prefix, or are the icon's.
  ghost predicate BeginsExempt(kept: seq<Segment>) {
    || kept == ["favicon.ico"]
    || (kept != [] && kept[0] in {
          "os", "__vayushield", "__vayuanalytics", ".well-known", "mcp", "oauth", "health", "dav"})
    || (|kept| >= 2 && kept[0] == "static" && kept[1] == "fonts")
  }

  lemma BeginsIs(kept: seq<Segment>)
    ensures BeginsExempt(kept) <==>
      kept == ["favicon.ico"] || exists i :: 0 <= i < |EXEMPT| && EXEMPT[i] <= kept
  {
    assert forall s: Segment :: [s] <= kept <==> kept != [] && kept[0] == s;
    assert ["static", "fonts"] <= kept <==> |kept| >= 2 && kept[0] == "static" && kept[1] == "fonts";
    assert EXEMPT[0] == ["os"] && EXEMPT[1] == ["__vayushield"] && EXEMPT[2] == ["__vayuanalytics"];
    assert EXEMPT[3] == [".well-known"] && EXEMPT[4] == ["mcp"] && EXEMPT[5] == ["oauth"];
    assert EXEMPT[6] == ["health"] && EXEMPT[7] == ["dav"] && EXEMPT[8] == ["static", "fonts"];
  }

  lemma UnderText(kept: seq<Segment>, front: seq<Segment>)
    requires AllPlain(kept) && AllPlain(front) && front != []
    ensures Under(Text(kept), Text(front)) <==> front <= kept
  {
    SplitRelative(front);
    if kept == [] {
      assert IsPlain(front[0]);
    } else {
      SegmentPrefix(front, kept);
      Rooted(Relative(front), Relative(kept));
    }
  }

  lemma Rooted(a: string, b: string)
    ensures "/" + a == "/" + b <==> a == b
    ensures "/" + a + "/" <= "/" + b <==> a + "/" <= b
  {
    assert ("/" + a)[1..] == a && ("/" + b)[1..] == b;
    assert "/" + a + "/" == "/" + (a + "/");
    if a + "/" <= b {
      PrefixUnder("/", a + "/", b);
    }
    if "/" + (a + "/") <= "/" + b {
      assert ("/" + (a + "/"))[1..] == a + "/";
      assert a + "/" == b[..|a| + 1];
    }
  }

  /** A cleaned path is exempt exactly when it begins with the whole segments of an exempt prefix, or is the icon. */
  lemma ExemptBySegments(p: string)
    ensures Exempt(CleanRooted(p)) <==> BeginsExempt(Kept(p))
  {
    BeginsIs(Kept(p));
    ExemptPlain();
    KeptRooted(p);
    KeptPlain(p);
    var kept := Kept(p);
    KeptOfText(kept);
    KeptOfText(["favicon.ico"]);
    forall i | 0 <= i < |EXEMPT|
      ensures Under(Text(kept), PrefixText(i)) <==> EXEMPT[i] <= kept
    {
      UnderText(kept, EXEMPT[i]);
    }
  }

  /** A way out of an exempt segment is read as where it leads: "/health/../page" as "/page". */
  lemma DetourIsRead(a: Segment, b: Segment)
    requires IsPlain(a) && IsPlain(b)
    ensures Kept("/" + a + "/.." + "/" + b) == [b]
    ensures StaysReachable("/" + a + "/.." + "/" + b) ==> BeginsExempt([b])
  {
    OneSegment(a);
    KeptNext("/" + a, "..");
    assert "/" + a + "/" + ".." == "/" + a + "/..";
    assert Kept("/" + a + "/..") == [];
    KeptNext("/" + a + "/..", b);
    ExemptBySegments("/" + a + "/.." + "/" + b);
  }

  /** Only the whole segment counts: "/osborne" is not under "/os". */
  lemma WholeSegmentCounts(s: Segment)
    requires IsPlain(s)
    ensures Exempt(CleanRooted("/" + s)) <==> BeginsExempt([s])
  {
    OneSegment(s);
    ExemptBySegments("/" + s);
  }

  lemma OneSegment(s: Segment)
    requires IsPlain(s)
    ensures Kept("/" + s) == [s]
  {
    KeptNext("", s);
    assert "" + "/" + s == "/" + s && [] + [s] == [s];
  }

  /** What stays reachable still does once it is cleaned, and lies under whole exempt segments. */
  lemma ReachableIsStable(p: string)
    requires StaysReachable(p)
    ensures StaysReachable(CleanRooted(p))
    ensures BeginsExempt(Kept(p))
  {
    CleanIdempotent(p);
    ExemptBySegments(p);
  }
}
