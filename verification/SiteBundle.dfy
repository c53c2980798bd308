/** The archive `zipFromFiles` writes from a map of files: its entries' names and their order. */
module SiteBundle {
  import opened Bytes
  import opened LexicalPath

  datatype BundleError = NoFiles | Refused(name: string)

  datatype ZipEntry = ZipEntry(path: string, content: string)

  // ---- The order: names sorted as strings ----

  predicate Before(a: string, b: string) {
    if a == "" then b != ""
    else b != "" && (a[0] < b[0] || (a[0] == b[0] && Before(a[1..], b[1..])))
  }

  lemma {:induction false} BeforeTotal(a: string, b: string)
    ensures a == b || Before(a, b) || Before(b, a)
    ensures !(Before(a, b) && Before(b, a)) && !Before(a, a)
  {
    if a != "" && b != "" {
      BeforeTotal(a[1..], b[1..]);
      assert a == [a[0]] + a[1..] && b == [b[0]] + b[1..];
    }
    if a != "" {
      BeforeTotal(a[1..], a[1..]);
    }
  }

  // At n the two first differ: there a ends or has the smaller character.
  ghost predicate DifferAt(a: string, b: string, n: nat) {
    n <= |a| && n < |b| && a[..n] == b[..n] && (n == |a| || a[n] < b[n])
  }

  /** The order is by the first difference, a prefix coming before what it starts. */
  lemma {:induction false} BeforeExact(a: string, b: string)
    ensures Before(a, b) <==> exists n: nat :: DifferAt(a, b, n)
  {
    if a == "" {
      assert b != "" ==> DifferAt(a, b, 0);
    } else if b != "" {
      BeforeExact(a[1..], b[1..]);
      if n: nat :| DifferAt(a, b, n) && n > 0 {
        assert a[0] == a[..n][0] == b[..n][0] == b[0];
        assert a[1..][..n - 1] == a[..n][1..] && b[1..][..n - 1] == b[..n][1..];
        assert DifferAt(a[1..], b[1..], n - 1);
      }
      if a[0] < b[0] {
        assert DifferAt(a, b, 0);
      }
      if n: nat :| a[0] == b[0] && DifferAt(a[1..], b[1..], n) {
        assert a[..n + 1] == [a[0]] + a[1..][..n] && b[..n + 1] == [b[0]] + b[1..][..n];
        assert DifferAt(a, b, n + 1);
      }
    }
  }

  lemma {:induction false} BeforeTransitive(a: string, b: string, c: string)
    requires Before(a, b) && Before(b, c)
    ensures Before(a, c)
  {
    if a != "" && a[0] == b[0] == c[0] {
      BeforeTransitive(a[1..], b[1..], c[1..]);
    }
  }

  ghost predicate Sorted(names: seq<string>) {
    forall i, j :: 0 <= i < j < |names| ==> Before(names[i], names[j])
  }

  lemma {:induction false} BeforeFirst(names: seq<string>, x: string, i: nat)
    requires Sorted(names) && i < |names| && Before(x, names[0])
    ensures Before(x, names[i])
  {
    if i > 0 {
      BeforeTransitive(x, names[0], names[i]);
    }
  }

  lemma EmptyOrNot(names: seq<string>)
    ensures names == [] || exists x :: x in names
  {
    if names != [] {
      assert names[0] in names;
    }
  }

  /** A set of names has one sorted listing: the archive's order is fixed by the file map alone. */
  lemma {:induction false} SortedIsUnique(a: seq<string>, b: seq<string>)
    requires Sorted(a) && Sorted(b) && forall x :: x in a <==> x in b
    ensures a == b
    decreases |a|
  {
    if a == [] {
      EmptyOrNot(b);
    } else {
      assert a[0] in b && b[0] in a;
      BeforeTotal(a[0], b[0]);
      var i :| 0 <= i < |b| && b[i] == a[0];
      var j :| 0 <= j < |a| && a[j] == b[0];
      assert a[0] == b[0];
      forall x
        ensures x in a[1..] <==> x in b[1..]
      {
        InRest(a, x);
        InRest(b, x);
      }
      SortedIsUnique(a[1..], b[1..]);
      assert a == [a[0]] + a[1..] && b == [b[0]] + b[1..];
    }
  }

  lemma InRest(a: seq<string>, x: string)
    requires Sorted(a) && a != []
    ensures x in a[1..] <==> x in a && x != a[0]
  {
    BeforeTotal(a[0], a[0]);
    assert a == [a[0]] + a[1..];
  }

  // Put x in its place in a sorted listing that lacks it.
  method Insert(names: seq<string>, x: string) returns (out: seq<string>)
    requires Sorted(names) && x !in names
    ensures Sorted(out) && forall y :: y in out <==> y in names || y == x
  {
    var i := 0;
    while i < |names| && Before(names[i], x)
      invariant 0 <= i <= |names|
      invariant forall k :: 0 <= k < i ==> Before(names[k], x)
    {
      i := i + 1;
    }
    if i < |names| {
      BeforeTotal(names[i], x);
      assert names[i] in names;
    }
    forall k | i <= k < |names|
      ensures Before(x, names[k])
    {
      BeforeFirst(names[i..], x, k - i);
    }
    out := names[..i] + [x] + names[i..];
    PlaceSorted((a: string, b: string) => Before(a, b), names, i, x);
  }

  ghost predicate SortedBy(less: (string, string) -> bool, names: seq<string>) {
    forall i, j :: 0 <= i < j < |names| ==> less(names[i], names[j])
  }

  lemma PlaceSorted(less: (string, string) -> bool, names: seq<string>, i: nat, x: string)
    requires SortedBy(less, names) && i <= |names|
    requires (forall k :: 0 <= k < i ==> less(names[k], x)) && forall k :: i <= k < |names| ==> less(x, names[k])
    ensures var out := names[..i] + [x] + names[i..];
      SortedBy(less, out) && forall y :: y in out <==> y in names || y == x
  {
    assert names == names[..i] + names[i..];
  }

  /** The names gathered in whatever order the map gives them, then sorted. */
  method SortedNames(files: map<string, string>) returns (names: seq<string>)
    ensures Sorted(names) && forall x :: x in names <==> x in files
  {
    names := [];
    var todo := files.Keys;
    while todo != {}
      invariant todo <= files.Keys && Sorted(names)
      invariant forall x :: x in names <==> x in files && x !in todo
      decreases todo
    {
      var name :| name in todo;
      todo := todo - {name};
      names := Insert(names, name);
    }
  }

  // ---- The entries ----

  function Slashed(name: string): (s: string)
    ensures |s| == |name|
    ensures forall i :: 0 <= i < |name| ==> s[i] == if name[i] == '\\' then '/' else name[i]
  {
    seq(|name|, i requires 0 <= i < |name| => if name[i] == '\\' then '/' else name[i])
  }

  function SegmentsOf(name: string): seq<Segment> {
    Kept(Slashed(name))
  }

  // The cleaned path without its leading slash.
  function EntryPath(name: string): string {
    var clean := CleanRooted(Slashed(name));
    if "/" <= clean then clean[1..] else clean
  }

  // The source's three refusals.
  predicate IsRefused(path: string) {
    path == "" || path == "." || "../" <= path
  }

  lemma EntryPathShape(name: string)
    ensures var kept := SegmentsOf(name);
      && AllPlain(kept)
      && (kept != [] ==> EntryPath(name) == Relative(kept) && Split(EntryPath(name)) == kept)
      && (IsRefused(EntryPath(name)) <==> kept == [])
  {
    var kept := SegmentsOf(name);
    KeptRooted(Slashed(name));
    KeptPlain(Slashed(name));
    if kept != [] {
      assert ("/" + Relative(kept))[1..] == Relative(kept);
      SplitRelative(kept);
      NotRefused(Relative(kept), kept[0]);
    }
  }

  lemma NotRefused(path: string, first: Segment)
    requires IsPlain(first) && Split(path)[0] == first
    ensures !IsRefused(path)
  {
    SplitPrefix("", "");
    SplitPrefix(".", "");
    if "../" <= path {
      DotDotInFront(path);
    }
  }

  lemma DotDotInFront(path: string)
    requires "../" <= path
    ensures Split(path)[0] == ".."
  {
    assert path == ".." + "/" + path[3..];
    SplitPrefix("..", path[3..]);
  }

  // One name's entry path, or nothing when it is refused.
  method CleanName(name: string) returns (r: Option<string>)
    ensures r == if SegmentsOf(name) == [] then None else Some(EntryPath(name))
    ensures r.Some? ==> r.value != "" && AllPlain(Split(r.value))
  {
    EntryPathShape(name);
    var clean := EntryPath(name);
    if clean == "" || clean == "." || "../" <= clean {
      return None;
    }
    return Some(clean);
  }

  // The entry for a name: its cleaned path, non-empty and of plain segments, with its content.
  ghost predicate IsEntryFor(files: map<string, string>, name: string, e: ZipEntry) {
    && name in files && SegmentsOf(name) != []
    && e == ZipEntry(EntryPath(name), files[name])
    && e.path != "" && AllPlain(Split(e.path))
  }

  // The name comes down to the root, which is what the source refuses.
  ghost predicate IsRoot(name: string) {
    SegmentsOf(name) == []
  }

  // The error for the first name, in order, that comes down to the root.
  ghost predicate RefusesFirst(names: seq<string>, error: BundleError) {
    exists i :: 0 <= i < |names| && error == Refused(names[i]) && IsRoot(names[i])
      && forall k :: 0 <= k < i ==> !IsRoot(names[k])
  }

  method EntryOf(files: map<string, string>, name: string) returns (r: Option<ZipEntry>)
    requires name in files
    ensures r.None? <==> IsRoot(name)
    ensures r.Some? ==> IsEntryFor(files, name, r.value)
  {
    var clean := CleanName(name);
    r := if clean.None? then None else Some(ZipEntry(clean.value, files[name]));
  }

  // The writing loop, over the names in their order.
  method WriteEntries(files: map<string, string>, names: seq<string>) returns (r: Result<seq<ZipEntry>, BundleError>)
    requires forall i :: 0 <= i < |names| ==> names[i] in files
    ensures r.Err? ==> RefusesFirst(names, r.error)
    ensures r.Ok? ==> forall i :: 0 <= i < |names| ==> !IsRoot(names[i])
    ensures r.Ok? ==> |r.value| == |names| && forall i :: 0 <= i < |names| ==> IsEntryFor(files, names[i], r.value[i])
  {
    var entries: seq<ZipEntry> := [];
    for i := 0 to |names|
      invariant |entries| == i && forall k :: 0 <= k < i ==> !IsRoot(names[k])
      invariant forall k :: 0 <= k < i ==> IsEntryFor(files, names[k], entries[k])
    {
      var entry := EntryOf(files, names[i]);
      if entry.None? {
        return Err(Refused(names[i]));
      }
      entries := entries + [entry.value];
    }
    return Ok(entries);
  }

  // ---- When two files share an entry ----

  /** Two names write the same entry exactly when they come down to the same segments. */
  lemma SameEntryExactly(a: string, b: string)
    ensures EntryPath(a) == EntryPath(b) <==> SegmentsOf(a) == SegmentsOf(b)
  {
    EntryPathShape(a);
    EntryPathShape(b);
    RootIsEmpty(a);
    RootIsEmpty(b);
  }

  lemma RootIsEmpty(name: string)
    ensures SegmentsOf(name) == [] ==> EntryPath(name) == ""
  {
    KeptRooted(Slashed(name));
  }

  ghost predicate DistinctPaths(entries: seq<ZipEntry>) {
    forall i, j :: 0 <= i < j < |entries| ==> entries[i].path != entries[j].path
  }

  ghost predicate DistinctSegments(files: map<string, string>) {
    forall a, b :: a in files && b in files && SegmentsOf(a) == SegmentsOf(b) ==> a == b
  }

  // Paths that clash exactly where names do are distinct exactly when no two names clash.
  lemma DistinctTransfers(clash: (string, string) -> bool, files: map<string, string>, names: seq<string>,
                          entries: seq<ZipEntry>)
    requires (forall x :: x in names <==> x in files) && |entries| == |names|
    requires forall a, b :: clash(a, b) == clash(b, a)
    requires forall i, j :: 0 <= i < j < |names| ==>
      names[i] != names[j] && (entries[i].path == entries[j].path <==> clash(names[i], names[j]))
    ensures DistinctPaths(entries) <==> forall a, b :: a in files && b in files && clash(a, b) ==> a == b
  {
    assert forall i :: 0 <= i < |names| ==> names[i] in names;
    if DistinctPaths(entries) {
      forall a, b | a in files && b in files && clash(a, b)
        ensures a == b
      {
        var i :| 0 <= i < |names| && names[i] == a;
        var j :| 0 <= j < |names| && names[j] == b;
      }
    }
  }

  /** An archive's paths are pairwise distinct exactly when no two file names have the same segments. */
  lemma PathsDistinctExactly(files: map<string, string>, names: seq<string>, entries: seq<ZipEntry>)
    requires Sorted(names) && (forall x :: x in names <==> x in files) && |entries| == |names|
    requires forall i :: 0 <= i < |names| ==> IsEntryFor(files, names[i], entries[i])
    ensures DistinctPaths(entries) <==> DistinctSegments(files)
  {
    var clash := (a: string, b: string) => SegmentsOf(a) == SegmentsOf(b);
    forall i, j | 0 <= i < j < |names|
      ensures names[i] != names[j] && (entries[i].path == entries[j].path <==> clash(names[i], names[j]))
    {
      PairClashes(files, names[i], names[j], entries[i], entries[j]);
    }
    DistinctTransfers(clash, files, names, entries);
    ClashIs(files, clash);
  }

  lemma PairClashes(files: map<string, string>, a: string, b: string, e: ZipEntry, f: ZipEntry)
    requires IsEntryFor(files, a, e) && IsEntryFor(files, b, f) && Before(a, b)
    ensures a != b && (e.path == f.path <==> SegmentsOf(a) == SegmentsOf(b))
  {
    BeforeTotal(a, a);
    SameEntryExactly(a, b);
  }

  lemma ClashIs(files: map<string, string>, clash: (string, string) -> bool)
    requires forall a, b :: clash(a, b) <==> SegmentsOf(a) == SegmentsOf(b)
    ensures DistinctSegments(files) <==> forall a, b :: a in files && b in files && clash(a, b) ==> a == b
  {
  }

  /** A leading slash makes no difference, so two different names can write the same entry. */
  lemma LeadingSlashCollides(name: string)
    ensures SegmentsOf("/" + name) == SegmentsOf(name) && EntryPath("/" + name) == EntryPath(name)
  {
    assert Slashed("/" + name) == "/" + Slashed(name);
    KeptRooted(Slashed(name));
    SameEntryExactly("/" + name, name);
  }

  /** Both "a" and "/a" are taken, and both write the entry "a". */
  lemma CollisionExample()
    ensures SegmentsOf("a") == ["a"] && SegmentsOf("/a") == ["a"] && EntryPath("/a") == EntryPath("a")
    ensures !DistinctSegments(map["a" := "", "/a" := ""])
  {
    LeadingSlashCollides("a");
    assert "/" + "a" == "/a";
    assert Slashed("a") == "a";
    SplitPrefix("a", "");
    WalkOfPlain(["a"], []);
    assert [] + ["a"] == ["a"];
    var files := map["a" := "", "/a" := ""];
    assert "a" in files && "/a" in files && |"a"| != |"/a"|;
  }

  /**
   `zipFromFiles`: refuses when there are no files, or the first name in sorted order that comes
   down to the root; otherwise one entry per file, in the order of the sorted names, each a
   non-empty relative path, all distinct exactly when no two names have the same segments.
   */
  method ZipFromFiles(files: map<string, string>) returns (r: Result<seq<ZipEntry>, BundleError>, names: seq<string>)
    ensures Sorted(names) && forall x :: x in names <==> x in files
    ensures files == map[] <==> r == Err(NoFiles)
    ensures files != map[] ==> (r.Err? <==> exists name :: name in files && IsRoot(name))
    ensures files != map[] && r.Err? ==> RefusesFirst(names, r.error)
    ensures r.Ok? ==> |r.value| == |names| && forall i :: 0 <= i < |names| ==> IsEntryFor(files, names[i], r.value[i])
    ensures r.Ok? ==> (DistinctPaths(r.value) <==> DistinctSegments(files))
  {
    names := SortedNames(files);
    if |files| == 0 {
      return Err(NoFiles), names;
    }
    assert forall i :: 0 <= i < |names| ==> names[i] in names;
    r := WriteEntries(files, names);
    if r.Ok? {
      PathsDistinctExactly(files, names, r.value);
    }
  }
}
