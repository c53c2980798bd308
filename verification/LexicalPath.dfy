/**
 Rooted paths as Go's path.Clean reads them: segments between slashes, empty and
 "." ones dropped, ".." taking back the one before it and nothing above the root.
 */
module LexicalPath {

  type Segment = string

  // The segments between slashes; never none.
  function Split(p: string): (segments: seq<Segment>)
    ensures segments != []
  {
    if p == "" then [""]
    else
      var rest := Split(p[1..]);
      if p[0] == '/' then [""] + rest else [[p[0]] + rest[0]] + rest[1..]
  }

  // The segments with a slash between each two.
  function Relative(segments: seq<Segment>): string
    requires segments != []
  {
    if |segments| == 1 then segments[0] else segments[0] + "/" + Relative(segments[1..])
  }

  predicate SlashFree(s: string) {
    forall i :: 0 <= i < |s| ==> s[i] != '/'
  }

  // A segment that stays: not empty, not a dot, not dot-dot, no slash.
  predicate IsPlain(s: Segment) {
    s != "" && s != "." && s != ".." && SlashFree(s)
  }

  predicate AllPlain(segments: seq<Segment>) {
    forall i :: 0 <= i < |segments| ==> IsPlain(segments[i])
  }

  // One segment read against what is kept so far.
  function Push(kept: seq<Segment>, s: Segment): seq<Segment> {
    if s == "" || s == "." then kept
    else if s == ".." then (if kept == [] then [] else kept[..|kept| - 1])
    else kept + [s]
  }

  function Walk(segments: seq<Segment>, kept: seq<Segment>): seq<Segment> {
    if segments == [] then kept else Walk(segments[1..], Push(kept, segments[0]))
  }

  // The segments a path comes down to when it is read from the root.
  function Kept(p: string): seq<Segment> {
    Walk(Split(p), [])
  }

  function Text(kept: seq<Segment>): string {
    if kept == [] then "/" else "/" + Relative(kept)
  }

  // path.Clean("/" + p).
  function CleanRooted(p: string): string {
    Text(Kept("/" + p))
  }

  lemma KeptRooted(p: string)
    ensures Kept("/" + p) == Kept(p)
  {
    SplitRooted(p);
  }

  lemma {:induction false} SplitSlashFree(p: string)
    ensures forall i :: 0 <= i < |Split(p)| ==> SlashFree(Split(p)[i])
  {
    if p != "" {
      SplitSlashFree(p[1..]);
    }
  }

  lemma {:induction false} WalkPlain(segments: seq<Segment>, kept: seq<Segment>)
    requires AllPlain(kept) && forall i :: 0 <= i < |segments| ==> SlashFree(segments[i])
    ensures AllPlain(Walk(segments, kept))
    decreases |segments|
  {
    if segments != [] {
      WalkPlain(segments[1..], Push(kept, segments[0]));
    }
  }

  /** What a path comes down to has no empty, dot or dot-dot segment and no slash inside one. */
  lemma KeptPlain(p: string)
    ensures AllPlain(Kept(p))
  {
    SplitSlashFree(p);
    WalkPlain(Split(p), []);
  }

  lemma {:induction false} WalkOfPlain(segments: seq<Segment>, kept: seq<Segment>)
    requires AllPlain(segments)
    ensures Walk(segments, kept) == kept + segments
    decreases |segments|
  {
    if segments == [] {
      assert kept + segments == kept;
    } else {
      WalkOfPlain(segments[1..], kept + [segments[0]]);
      assert kept + [segments[0]] + segments[1..] == kept + segments;
    }
  }

  lemma {:induction false} SplitPrefix(s: Segment, rest: string)
    requires SlashFree(s)
    ensures Split(s + "/" + rest) == [s] + Split(rest)
    ensures Split(s) == [s]
  {
    var p := s + "/" + rest;
    if s == "" {
      assert p[1..] == rest;
    } else {
      assert p[1..] == s[1..] + "/" + rest;
      SplitPrefix(s[1..], rest);
      assert [s[0]] + s[1..] == s;
      assert Split(p) == [[s[0]] + s[1..]] + Split(rest);
    }
  }

  lemma {:induction false} SplitRelative(segments: seq<Segment>)
    requires AllPlain(segments) && segments != []
    ensures Split(Relative(segments)) == segments
  {
    assert IsPlain(segments[0]);
    if |segments| == 1 {
      SplitPrefix(segments[0], "");
    } else {
      SplitRelative(segments[1..]);
      SplitPrefix(segments[0], Relative(segments[1..]));
      assert [segments[0]] + segments[1..] == segments;
    }
  }

  lemma SplitRooted(p: string)
    ensures Split("/" + p) == [""] + Split(p) && ([""] + Split(p))[1..] == Split(p)
  {
    assert ("/" + p)[1..] == p;
  }

  /** The text of plain segments comes down to them again. */
  lemma KeptOfText(segments: seq<Segment>)
    requires AllPlain(segments)
    ensures Kept(Text(segments)) == segments
  {
    if segments == [] {
      SplitRooted("");
      assert "/" + "" == "/";
      assert Split("/") == ["", ""] && ["", ""][1..] == [""];
      assert [""][1..] == [];
    } else {
      SplitRelative(segments);
      KeptRooted(Relative(segments));
      WalkOfPlain(segments, []);
      assert [] + segments == segments;
    }
  }

  lemma {:induction false} WalkAppend(front: seq<Segment>, s: Segment, kept: seq<Segment>)
    ensures Walk(front + [s], kept) == Push(Walk(front, kept), s)
    decreases |front|
  {
    if front == [] {
      assert front + [s] == [s] && [s][1..] == [];
    } else {
      assert (front + [s])[1..] == front[1..] + [s];
      WalkAppend(front[1..], s, Push(kept, front[0]));
    }
  }

  /**
   One more segment at the end of a path: a plain one is added, "." and an empty one change
   nothing, and ".." takes the last back, or nothing at the root.
   */
  lemma KeptNext(p: string, s: Segment)
    requires SlashFree(s)
    ensures Kept("") == []
    ensures s == "" || s == "." ==> Kept(p + "/" + s) == Kept(p)
    ensures s == ".." && Kept(p) == [] ==> Kept(p + "/" + s) == []
    ensures s == ".." && Kept(p) != [] ==>
      exists last: Segment :: Kept(p) == Kept(p + "/" + s) + [last]
    ensures IsPlain(s) ==> Kept(p + "/" + s) == Kept(p) + [s]
  {
    assert Split("") == [""] && [""][1..] == [];
    SplitConcat(p, s);
    SplitPrefix(s, "");
    WalkAppend(Split(p), s, []);
    if Kept(p) != [] {
      var kept := Kept(p);
      assert kept == kept[..|kept| - 1] + [kept[|kept| - 1]];
    }
  }

  /** Cleaning is idempotent on rooted paths, and keeps what the path comes down to. */
  lemma CleanIdempotent(p: string)
    ensures Kept(CleanRooted(p)) == Kept(p)
    ensures CleanRooted(CleanRooted(p)) == CleanRooted(p)
  {
    KeptRooted(p);
    KeptPlain(p);
    KeptOfText(Kept(p));
    KeptRooted(CleanRooted(p));
  }

  lemma {:induction false} SplitConcat(p: string, rest: string)
    ensures Split(p + "/" + rest) == Split(p) + Split(rest)
  {
    var q := p + "/" + rest;
    if p == "" {
      assert q[1..] == rest;
    } else {
      assert q[1..] == p[1..] + "/" + rest;
      SplitConcat(p[1..], rest);
    }
  }

  /** One path starts another at a whole segment exactly when its segments start the other's. */
  lemma SegmentPrefix(front: seq<Segment>, whole: seq<Segment>)
    requires AllPlain(front) && AllPlain(whole) && front != [] && whole != []
    ensures (Relative(front) == Relative(whole) || Relative(front) + "/" <= Relative(whole)) <==> front <= whole
  {
    SplitRelative(front);
    SplitRelative(whole);
    if Relative(front) + "/" <= Relative(whole) {
      PrefixSplits(Relative(front), Relative(whole));
    }
    if front <= whole {
      RelativeStarts(front, whole);
    }
  }

  lemma PrefixSplits(p: string, q: string)
    requires p + "/" <= q
    ensures Split(p) <= Split(q)
  {
    var rest := q[|p| + 1..];
    assert q == p + "/" + rest;
    SplitConcat(p, rest);
  }

  lemma {:induction false} RelativeStarts(front: seq<Segment>, whole: seq<Segment>)
    requires front <= whole && front != []
    ensures Relative(front) == Relative(whole) || Relative(front) + "/" <= Relative(whole)
  {
    if |front| == 1 {
      if |whole| > 1 {
        StartsWith(front[0] + "/", Relative(whole[1..]));
      }
    } else {
      RelativeStarts(front[1..], whole[1..]);
      if Relative(front[1..]) + "/" <= Relative(whole[1..]) {
        PrefixUnder(front[0] + "/", Relative(front[1..]) + "/", Relative(whole[1..]));
        assert front[0] + "/" + (Relative(front[1..]) + "/") == Relative(front) + "/";
      }
    }
  }

  lemma StartsWith(a: string, b: string)
    ensures a <= a + b
  {
  }

  lemma PrefixUnder(head: string, a: string, b: string)
    requires a <= b
    ensures head + a <= head + b
  {
    assert b == a + b[|a|..];
    assert head + b == head + a + b[|a|..];
  }
}
