/**
 Substituting every match of `[class]{2,}` in a text, as `re.sub` does: the
 matches are the maximal runs of two or more class members. Nothing here depends
 on the class or on what replaces a run.
 */
module RunSubstitution {

  type Class<!T> = T -> bool
  type Rewrite<!T> = seq<T> -> seq<T>

  function RunLength<T>(member: Class<T>, s: seq<T>): (n: nat)
    ensures n <= |s|
    ensures forall i :: 0 <= i < n ==> member(s[i])
    ensures n < |s| ==> !member(s[n])
  {
    if s == [] || !member(s[0]) then 0 else 1 + RunLength(member, s[1..])
  }

  predicate AllIn<T>(member: Class<T>, s: seq<T>) {
    forall i :: 0 <= i < |s| ==> member(s[i])
  }

  // The length of what one turn takes off the front: a whole run, or one element outside any.
  function FrontLength<T>(member: Class<T>, s: seq<T>): (n: nat)
    requires s != []
    ensures 0 < n <= |s|
  {
    if member(s[0]) then RunLength(member, s) else 1
  }

  // What replaces it: a run of two or more is rewritten.
  function Replaced<T>(rewrite: Rewrite<T>, front: seq<T>): seq<T> {
    if |front| >= 2 then rewrite(front) else front
  }

  function Sub<T>(member: Class<T>, rewrite: Rewrite<T>, s: seq<T>): seq<T>
    decreases |s|
  {
    if s == [] then [] else
      var n := FrontLength(member, s);
      Replaced(rewrite, s[..n]) + Sub(member, rewrite, s[n..])
  }

  // s[i..j] is a run of class members that cannot be extended either way.
  ghost predicate MaximalRun<T>(member: Class<T>, s: seq<T>, i: nat, j: nat) {
    && i < j <= |s|
    && (forall k :: i <= k < j ==> member(s[k]))
    && (i == 0 || !member(s[i - 1]))
    && (j == |s| || !member(s[j]))
  }

  // A rewrite that never lengthens a run, and shortens any it changes.
  ghost predicate Shortens<T(!new)>(member: Class<T>, rewrite: Rewrite<T>) {
    forall r: seq<T> :: AllIn(member, r) && rewrite(r) != r ==> |rewrite(r)| < |r|
  }

  lemma {:induction false} RunLengthIs<T>(member: Class<T>, r: seq<T>, rest: seq<T>)
    requires AllIn(member, r) && (rest == [] || !member(rest[0]))
    ensures RunLength(member, r + rest) == |r|
  {
    if r == [] {
      assert r + rest == rest;
    } else {
      assert (r + rest)[1..] == r[1..] + rest;
      RunLengthIs(member, r[1..], rest);
    }
  }

  /** A run of two or more followed by something outside the class is one match. */
  lemma SubRun<T>(member: Class<T>, rewrite: Rewrite<T>, r: seq<T>, rest: seq<T>)
    requires AllIn(member, r) && |r| >= 2 && (rest == [] || !member(rest[0]))
    ensures Sub(member, rewrite, r + rest) == rewrite(r) + Sub(member, rewrite, rest)
  {
    RunLengthIs(member, r, rest);
    assert (r + rest)[..|r|] == r && (r + rest)[|r|..] == rest;
  }

  lemma SubOutside<T>(member: Class<T>, rewrite: Rewrite<T>, x: T, rest: seq<T>)
    requires !member(x)
    ensures Sub(member, rewrite, [x] + rest) == [x] + Sub(member, rewrite, rest)
  {
    assert ([x] + rest)[1..] == rest && ([x] + rest)[..1] == [x];
  }

  lemma FrontIsRun<T>(member: Class<T>, s: seq<T>)
    requires s != []
    ensures var n := FrontLength(member, s);
      s == s[..n] + s[n..] && (n == 1 || AllIn(member, s[..n]))
  {
  }

  /** A pass never lengthens a text, and strictly shortens one it changes. */
  lemma {:induction false} SubShortens<T(!new)>(member: Class<T>, rewrite: Rewrite<T>, s: seq<T>)
    requires Shortens(member, rewrite)
    ensures Sub(member, rewrite, s) == s || |Sub(member, rewrite, s)| < |s|
    decreases |s|
  {
    if s != [] {
      FrontIsRun(member, s);
      SubShortens(member, rewrite, s[FrontLength(member, s)..]);
    }
  }

  function Keep<T>(keep: Class<T>, s: seq<T>): seq<T> {
    if s == [] then [] else (if keep(s[0]) then [s[0]] else []) + Keep(keep, s[1..])
  }

  lemma {:induction false} KeepConcat<T>(keep: Class<T>, a: seq<T>, b: seq<T>)
    ensures Keep(keep, a + b) == Keep(keep, a) + Keep(keep, b)
  {
    if a == [] {
      assert a + b == b;
    } else {
      var head := if keep(a[0]) then [a[0]] else [];
      assert (a + b)[1..] == a[1..] + b && (a + b)[0] == a[0];
      KeepConcat(keep, a[1..], b);
      assert head + (Keep(keep, a[1..]) + Keep(keep, b)) == head + Keep(keep, a[1..]) + Keep(keep, b);
    }
  }

  // Neither runs nor what replaces them hold anything kept.
  ghost predicate Disjoint<T(!new)>(member: Class<T>, rewrite: Rewrite<T>, keep: Class<T>) {
    forall r: seq<T> :: AllIn(member, r) ==> Keep(keep, r) == [] && Keep(keep, rewrite(r)) == []
  }

  /** What lies outside every run comes through a pass in order and unchanged. */
  lemma {:induction false} SubKeeps<T(!new)>(member: Class<T>, rewrite: Rewrite<T>, keep: Class<T>, s: seq<T>)
    requires Disjoint(member, rewrite, keep)
    ensures Keep(keep, Sub(member, rewrite, s)) == Keep(keep, s)
    decreases |s|
  {
    if s != [] {
      var n := FrontLength(member, s);
      FrontIsRun(member, s);
      SubKeeps(member, rewrite, keep, s[n..]);
      KeepConcat(keep, s[..n], s[n..]);
      KeepConcat(keep, Replaced(rewrite, s[..n]), Sub(member, rewrite, s[n..]));
    }
  }

  // ---- A text is unchanged exactly when each of its runs is ----

  ghost predicate RunsUnchanged<T>(member: Class<T>, rewrite: Rewrite<T>, s: seq<T>) {
    forall i: nat, j: nat :: MaximalRun(member, s, i, j) && j - i >= 2 ==> rewrite(s[i..j]) == s[i..j]
  }

  // The first maximal run is the front, when the front is one.
  lemma FirstRun<T>(member: Class<T>, s: seq<T>, i: nat, j: nat)
    requires s != [] && MaximalRun(member, s, i, j)
    ensures var n := FrontLength(member, s);
      (i == 0 && j == n) || i >= n
  {
    assert i > 0 ==> !member(s[i - 1]);
  }

  lemma RunShiftDown<T>(member: Class<T>, s: seq<T>, n: nat, i: nat, j: nat)
    requires n <= i && MaximalRun(member, s, i, j)
    ensures MaximalRun(member, s[n..], i - n, j - n) && s[n..][i - n..j - n] == s[i..j]
  {
    var rest := s[n..];
    forall k | i - n <= k < j - n
      ensures member(rest[k])
    {
      assert rest[k] == s[k + n];
    }
  }

  lemma RunShiftUp<T>(member: Class<T>, s: seq<T>, n: nat, i: nat, j: nat)
    requires n <= |s| && (n == |s| || n == 0 || !member(s[n - 1]) || !member(s[n]))
    requires MaximalRun(member, s[n..], i, j)
    ensures MaximalRun(member, s, i + n, j + n) && s[n..][i..j] == s[i + n..j + n]
  {
    var rest := s[n..];
    forall k | i + n <= k < j + n
      ensures member(s[k])
    {
      assert rest[k - n] == s[k];
    }
    assert i > 0 ==> rest[i - 1] == s[i + n - 1];
    assert i == 0 ==> rest[0] == s[n];
    assert j < |rest| ==> rest[j] == s[j + n];
  }

  lemma FrontBoundary<T>(member: Class<T>, s: seq<T>)
    requires s != []
    ensures var n := FrontLength(member, s);
      && (n == |s| || !member(s[n - 1]) || !member(s[n]))
      && (n >= 2 ==> MaximalRun(member, s, 0, n))
  {
  }

  /** A pass leaves a text alone exactly when rewriting leaves each of its maximal runs of two or more alone. */
  lemma {:induction false} SubUnchanged<T(!new)>(member: Class<T>, rewrite: Rewrite<T>, s: seq<T>)
    requires Shortens(member, rewrite)
    ensures Sub(member, rewrite, s) == s <==> RunsUnchanged(member, rewrite, s)
    decreases |s|
  {
    if s != [] {
      var n := FrontLength(member, s);
      FrontIsRun(member, s);
      FrontBoundary(member, s);
      SubUnchanged(member, rewrite, s[n..]);
      SubShortens(member, rewrite, s[n..]);
      FrontUnchanged(member, rewrite, s);
      RunsSplit(member, rewrite, s);
    }
  }

  lemma FrontUnchanged<T(!new)>(member: Class<T>, rewrite: Rewrite<T>, s: seq<T>)
    requires s != [] && Shortens(member, rewrite)
    ensures var n := FrontLength(member, s);
      Sub(member, rewrite, s) == s <==>
        Replaced(rewrite, s[..n]) == s[..n] && Sub(member, rewrite, s[n..]) == s[n..]
  {
    var n := FrontLength(member, s);
    var front, rest := Replaced(rewrite, s[..n]), Sub(member, rewrite, s[n..]);
    FrontIsRun(member, s);
    SubShortens(member, rewrite, s[n..]);
    assert |front| <= n && |rest| <= |s| - n;
    if front + rest == s {
      assert |front| == n && |rest| == |s| - n;
      assert (front + rest)[..n] == front && (front + rest)[n..] == rest;
    }
  }

  lemma RunsSplit<T>(member: Class<T>, rewrite: Rewrite<T>, s: seq<T>)
    requires s != []
    ensures var n := FrontLength(member, s);
      RunsUnchanged(member, rewrite, s) <==>
        Replaced(rewrite, s[..n]) == s[..n] && RunsUnchanged(member, rewrite, s[n..])
  {
    var n := FrontLength(member, s);
    FrontBoundary(member, s);
    assert s[0..n] == s[..n];
    if RunsUnchanged(member, rewrite, s) {
      forall i: nat, j: nat | MaximalRun(member, s[n..], i, j) && j - i >= 2
        ensures rewrite(s[n..][i..j]) == s[n..][i..j]
      {
        RunShiftUp(member, s, n, i, j);
      }
    }
    if Replaced(rewrite, s[..n]) == s[..n] && RunsUnchanged(member, rewrite, s[n..]) {
      forall i: nat, j: nat | MaximalRun(member, s, i, j) && j - i >= 2
        ensures rewrite(s[i..j]) == s[i..j]
      {
        FirstRun(member, s, i, j);
        if i >= n {
          RunShiftDown(member, s, n, i, j);
        }
      }
    }
  }
}
