/** Byte strings and the small result types shared by every module. */
module Bytes {

  type byte = x: int | 0 <= x < 256

  // The source's `& 0xFF`.
  function Wrap(x: int): byte {
    x % 256
  }

  datatype Option<+T> = None | Some(value: T)

  datatype Result<+T, +E> = Ok(value: T) | Err(error: E)

  // Python's s[n..], which is empty once n is past the end.
  function Drop<T>(s: seq<T>, n: nat): (r: seq<T>)
    ensures |r| == if n <= |s| then |s| - n else 0
    ensures forall i :: 0 <= i < |r| ==> r[i] == s[n + i]
  {
    if n <= |s| then s[n..] else []
  }

  // Python's s[lo : hi], which is clipped to the string.
  function Slice<T>(s: seq<T>, lo: nat, hi: nat): (r: seq<T>)
    requires lo <= hi
    ensures |r| <= hi - lo
    ensures hi <= |s| ==> r == s[lo..hi]
    ensures |r| < hi - lo ==> |s| < hi
  {
    if hi <= |s| then s[lo..hi] else Drop(s, lo)
  }

  lemma CutFront<T>(s: seq<T>, pos: nat, a: seq<T>, b: seq<T>, c: seq<T>)
    requires pos <= |s| && s[pos..] == a + b + c
    ensures pos + |a| <= |s| && a <= s[pos..] && s[pos + |a|..] == b + c
  {
    assert a + b + c == a + (b + c);
    assert s[pos + |a|..] == s[pos..][|a|..];
  }

  lemma Associate<T>(a: seq<T>, b: seq<T>, c: seq<T>)
    ensures a + b + c == a + (b + c)
  {
  }
}
