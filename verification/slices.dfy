/**
 Python's slice semantics on sequences with non-negative bounds: a bound past
 the end is clamped to the end, and an empty range yields the empty sequence.
 */
module Slices {

  type byte = x: int | 0 <= x < 256

  function Min(a: int, b: int): int { if a <= b then a else b }

  function Max(a: int, b: int): int { if a <= b then b else a }

  /** `s[:n]` */
  function Take<T>(s: seq<T>, n: nat): (r: seq<T>)
    ensures |r| == Min(n, |s|)
    ensures r == s[..|r|]
  {
    if n <= |s| then s[..n] else s
  }

  /** `s[n:]` */
  function Drop<T>(s: seq<T>, n: nat): (r: seq<T>)
    ensures |r| == |s| - Min(n, |s|)
    ensures r == s[Min(n, |s|)..]
  {
    if n <= |s| then s[n..] else []
  }

  /** `s[a:b]` */
  function Between<T>(s: seq<T>, a: nat, b: nat): (r: seq<T>)
    ensures |r| == Max(0, Min(b, |s|) - a)
    ensures a <= b && b <= |s| ==> r == s[a..b]
  {
    Take(Drop(s, a), if a <= b then b - a else 0)
  }

  lemma TakeDrop<T>(s: seq<T>, n: nat)
    ensures Take(s, n) + Drop(s, n) == s
  {
  }

  /** Adjacent slices join into one. */
  lemma SliceJoin<T>(s: seq<T>, a: nat, b: nat, c: nat)
    requires a <= b <= c <= |s|
    ensures s[a..b] + s[b..c] == s[a..c]
  {
  }

  /** A prefix grows by the next element. */
  lemma PrefixStep<T>(s: seq<T>, n: nat)
    requires n < |s|
    ensures s[..n] + [s[n]] == s[..n + 1]
  {
  }

  /** Taking past the first part of a concatenation reaches into the second. */
  lemma TakeAppend<T>(a: seq<T>, b: seq<T>, n: nat)
    ensures Take(a + b, n) == if n <= |a| then Take(a, n) else a + Take(b, n - |a|)
  {
  }

  lemma DropAppend<T>(a: seq<T>, b: seq<T>, n: nat)
    ensures Drop(a + b, n) == if n <= |a| then Drop(a, n) + b else Drop(b, n - |a|)
  {
  }

  /** `s[a:b] + s[b:] == s[a:]` */
  lemma BetweenDrop<T>(s: seq<T>, a: nat, b: nat)
    requires a <= b
    ensures Between(s, a, b) + Drop(s, b) == Drop(s, a)
  {
    if b <= |s| {
      assert Drop(s, a) == s[a..b] + s[b..];
    }
  }

  /** Reading `n` items after the first `a` of a sequence only sees its first `a + n`. */
  lemma TakeDropPrefix<T>(s: seq<T>, p: seq<T>, a: nat, n: nat)
    requires |p| == a + n && Take(s, |p|) == p
    ensures Take(Drop(s, a), n) == Drop(p, a)
  {
    assert s[..|p|] == p;
    assert Drop(s, a)[..n] == s[a..a + n];
  }

  /** A prefix of a sequence starts with every shorter prefix of it. */
  lemma TakeOfPrefix<T>(s: seq<T>, p: seq<T>, n: nat)
    requires Take(s, |p|) == p && n <= |p|
    ensures Take(s, n) == Take(p, n)
  {
    assert s[..|p|] == p;
  }

  /** Concatenation of a sequence of sequences. */
  function Concat<T>(ss: seq<seq<T>>): (r: seq<T>)
    decreases |ss|
  {
    if |ss| == 0 then [] else ss[0] + Concat(ss[1..])
  }

  lemma ConcatAppend<T>(a: seq<seq<T>>, b: seq<seq<T>>)
    ensures Concat(a + b) == Concat(a) + Concat(b)
    decreases |a|
  {
    if |a| > 0 {
      assert (a + b)[1..] == a[1..] + b;
      ConcatAppend(a[1..], b);
    } else {
      assert a + b == b;
    }
  }
}
