/** Facts about slices, each proved once and away from everything else. */
module Sequences {

  lemma Assoc<T>(a: seq<T>, b: seq<T>, c: seq<T>)
    ensures a + b + c == a + (b + c)
  {
  }

  lemma Parts<T>(a: seq<T>, b: seq<T>)
    ensures (a + b)[..|a|] == a && (a + b)[|a|..] == b
  {
  }

  lemma SplitAt<T>(d: seq<T>, n: nat)
    requires n <= |d|
    ensures d == d[..n] + d[n..]
  {
  }

  lemma SliceOfRest<T>(d: seq<T>, i: nat, j: nat, k: nat)
    requires i + j <= i + k <= |d|
    ensures d[i..][j..k] == d[i + j..i + k] && d[i..][k..] == d[i + k..]
  {
  }

  lemma TakeSum<T>(d: seq<T>, m: nat, n: nat)
    requires m + n <= |d|
    ensures d[..m + n] == d[..m] + d[m..][..n] && d[m..][n..] == d[m + n..]
  {
  }

  /** Writing `mid` just before what has been written from the end extends the written part downwards. */
  lemma Spliced<T>(before: seq<T>, prev: seq<T>, lo: nat, hi: nat, mid: seq<T>, written: seq<T>)
    requires lo <= hi <= |before| && prev == before[..hi] + written
    ensures prev[..lo] + mid + prev[hi..] == before[..lo] + (mid + written)
  {
    assert prev[..lo] == before[..lo] && prev[hi..] == written;
  }

  lemma Stored<T>(prev: seq<T>, i: nat, x: T, now: seq<T>)
    requires i < |prev| && now == prev[i := x]
    ensures now == prev[..i] + [x] + prev[i + 1..]
  {
  }

  lemma Untouched<T>(before: seq<T>, n: nat, now: seq<T>, nothing: seq<T>)
    requires n <= |before| && |nothing| == 0 && now == before[..n] + nothing + before[n..]
    ensures now == before
  {
  }
}
