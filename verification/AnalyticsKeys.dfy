/**
 The cache keys of a site's Analytics fragments, and the parse that
 `refreshSiteAnalytics` makes of them to rebuild a site's plain day windows.
 */
module AnalyticsKeys {
  import opened Bytes
  import opened Decimal
  import opened Calendar
  import opened AnalyticsPeriod

  const HEAD := "site-analytics:"

  // A period with the filters (already encoded) and the page a report is narrowed to.
  datatype Scope = Scope(span: Span, focus: seq<string>, page: string) {
    // A plain window of days.
    predicate Plain() {
      !span.Ranged() && focus == [] && page == ""
    }
  }

  function Joined(focus: seq<string>): string {
    if focus == [] then "" else Joined(focus[..|focus| - 1]) + "|" + focus[|focus| - 1]
  }

  function SpanText(p: Span): string {
    if p.Ranged() then Format(p.from) + "~" + Format(p.to) else Itoa(p.days)
  }

  function PageText(page: string): string {
    if page != "" then "|page=" + page else ""
  }

  function KeyText(s: Scope): string {
    SpanText(s.span) + Joined(s.focus) + PageText(s.page)
  }

  /** `key`: the loop that builds a period's part of a cache key. */
  method BuildKey(s: Scope) returns (k: string)
    ensures k == KeyText(s)
  {
    k := Itoa(s.span.days);
    if s.span.Ranged() {
      k := Format(s.span.from) + "~" + Format(s.span.to);
    }
    ghost var head := k;
    assert head + "" == head;
    for i := 0 to |s.focus|
      invariant k == head + Joined(s.focus[..i])
    {
      assert s.focus[..i + 1][..i] == s.focus[..i];
      k := k + ("|" + s.focus[i]);
      assert k == head + (Joined(s.focus[..i]) + "|" + s.focus[i]);
    }
    assert s.focus[..|s.focus|] == s.focus;
    if s.page != "" {
      k := k + ("|page=" + s.page);
    } else {
      assert k + "" == k;
    }
  }

  function SitePrefix(site: string): string {
    HEAD + site + ":"
  }

  function SiteKey(site: string, view: string, s: Scope): string {
    SitePrefix(site) + view + ":" + KeyText(s)
  }

  predicate ColonFree(s: string) {
    forall i :: 0 <= i < |s| ==> s[i] != ':'
  }

  // Go's strings.Cut at the first colon.
  function Cut(s: string): Option<(string, string)> {
    if s == "" then None
    else if s[0] == ':' then Some(("", s[1..]))
    else
      var rest := Cut(s[1..]);
      if rest.None? then None else Some(([s[0]] + rest.value.0, rest.value.1))
  }

  lemma {:induction false} CutFirst(a: string, b: string)
    requires ColonFree(a)
    ensures Cut(a + ":" + b) == Some((a, b))
  {
    var s := a + ":" + b;
    if a == "" {
      assert s[1..] == b;
    } else {
      assert s[1..] == a[1..] + ":" + b;
      CutFirst(a[1..], b);
      assert [a[0]] + a[1..] == a;
    }
  }

  // What `refreshSiteAnalytics` makes of one cached key: the view and days it rebuilds, if any.
  function Refreshed(site: string, key: string): Option<(string, int)> {
    if !(SitePrefix(site) <= key) then None else
      var cut := Cut(key[|SitePrefix(site)|..]);
      if cut.None? || Atoi(cut.value.1).None? then None else Some((cut.value.0, Atoi(cut.value.1).value))
  }

  /** A site's prefix starts its own keys and no other site's. */
  lemma PrefixIsOwn(site: string, other: string, rest: string)
    requires ColonFree(site) && ColonFree(other)
    ensures SitePrefix(site) <= SitePrefix(other) + rest <==> site == other
  {
    if SitePrefix(site) <= SitePrefix(other) + rest {
      var key := SitePrefix(other) + rest;
      var tail := key[|SitePrefix(site)|..];
      assert key == SitePrefix(site) + tail;
      assert key[|HEAD|..] == site + ":" + tail;
      assert key[|HEAD|..] == other + ":" + rest;
      CutFirst(site, tail);
      CutFirst(other, rest);
    }
  }

  lemma KeyTextIsNumber(s: Scope)
    requires IsInt(s.span.days)
    ensures Atoi(KeyText(s)) == if s.Plain() then Some(s.span.days) else None
  {
    var text := SpanText(s.span);
    if s.Plain() {
      assert KeyText(s) == Itoa(s.span.days);
      AtoiItoa(s.span.days);
    } else if s.span.Ranged() {
      assert KeyText(s)[4] == '-';
      AtoiSpoiled(KeyText(s), 4);
    } else {
      SpoiledByBar(text, s.focus, s.page);
    }
  }

  lemma SpoiledByBar(text: string, focus: seq<string>, page: string)
    requires text != "" && (focus != [] || page != "")
    ensures Atoi(text + Joined(focus) + PageText(page)) == None
  {
    var key := text + Joined(focus) + PageText(page);
    BarInFront(focus);
    assert key[|text|] == '|';
    AtoiSpoiled(key, |text|);
  }

  lemma {:induction false} BarInFront(focus: seq<string>)
    ensures focus != [] ==> Joined(focus) != "" && Joined(focus)[0] == '|'
  {
    if focus != [] {
      BarInFront(focus[..|focus| - 1]);
    }
  }

  /**
   A cached key is rebuilt exactly when it belongs to that site and was made from a plain window
   of days, and then with the very view and days that made it.
   */
  lemma RefreshIsExact(site: string, other: string, view: string, s: Scope)
    requires ColonFree(site) && ColonFree(other) && ColonFree(view) && IsInt(s.span.days)
    ensures Refreshed(site, SiteKey(other, view, s)) ==
      if site == other && s.Plain() then Some((view, s.span.days)) else None
  {
    var rest := view + ":" + KeyText(s);
    assert SiteKey(other, view, s) == SitePrefix(other) + rest;
    PrefixIsOwn(site, other, rest);
    if site == other {
      assert SiteKey(other, view, s)[|SitePrefix(site)|..] == rest;
      CutFirst(view, KeyText(s));
      KeyTextIsNumber(s);
    }
  }

  /** A plain window's key, spelt out. */
  lemma PlainKeyIs(site: string, view: string, days: int)
    ensures SiteKey(site, view, Scope(Span(days, Date(1, 1, 1), Date(1, 1, 1)), [], ""))
      == "site-analytics:" + site + ":" + view + ":" + Itoa(days)
  {
  }

  /** The key of a range narrowed by a filter and a page, spelt out. */
  lemma NarrowedKeyIs(site: string, view: string, p: Span, focus: string, page: string)
    requires p.from != Date(1, 1, 1) && page != ""
    ensures SiteKey(site, view, Scope(p, [focus], page))
      == "site-analytics:" + site + ":" + view + ":"
         + (Format(p.from) + "~" + Format(p.to) + ("|" + focus) + ("|page=" + page))
  {
    assert [focus][..0] == [];
    assert Joined([focus]) == "" + "|" + focus == "|" + focus;
  }

  /** Whatever a key is, at most one site rebuilds it. */
  lemma RefreshedByOne(site: string, other: string, key: string)
    requires ColonFree(site) && ColonFree(other)
    requires Refreshed(site, key).Some? && Refreshed(other, key).Some?
    ensures site == other
  {
    var rest := key[|SitePrefix(other)|..];
    assert key == SitePrefix(other) + rest;
    PrefixIsOwn(site, other, rest);
  }
}
