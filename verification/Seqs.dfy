/** Facts about slices that keep larger proofs free of sequence extensionality. */
module Seqs {

  lemma SliceSnoc<T>(s: seq<T>, i: nat, j: nat)
    requires i <= j < |s|
    ensures s[i..j + 1] == s[i..j] + [s[j]]
  {
  }

  lemma PrefixSlice<T>(s: seq<T>, n: nat, i: nat, j: nat)
    requires i <= j <= n <= |s|
    ensures s[..n][i..j] == s[i..j]
  {
  }

  lemma ExtendRun<T>(done: seq<T>, s: seq<T>, i: nat, j: nat)
    requires i <= j < |s|
    ensures done + s[i..j + 1] == done + s[i..j] + [s[j]]
  {
  }

  lemma PrependRun<T>(s: seq<T>, i: nat, j: nat, x: T, rest: seq<T>)
    requires i < j <= |s|
    ensures s[i..j] + [x] + rest == [s[i]] + (s[i + 1..j] + [x] + rest)
  {
  }

  lemma EmptyRun<T>(done: seq<T>, s: seq<T>, i: nat)
    requires i <= |s|
    ensures done + s[i..i] == done
  {
  }

  lemma RegroupRun<T>(done: seq<T>, run: seq<T>, x: T, rest: seq<T>)
    ensures done + (run + [x] + rest) == done + run + [x] + rest
  {
  }

  lemma DropDrop<T>(s: seq<T>, i: nat)
    requires i < |s|
    ensures s[i..][1..] == s[i + 1..]
  {
  }

  lemma FullSlice<T>(s: seq<T>, i: nat)
    requires i <= |s|
    ensures s[i..|s|] == s[i..]
  {
  }

  lemma OutsideSlice<T>(s: seq<T>, i: nat, j: nat, m: nat)
    requires i <= j <= |s| && m < |s| && s[m] !in s[i..j]
    ensures m < i || j <= m
  {
  }

  lemma CountHead<T>(s: seq<T>, x: T)
    requires s != []
    ensures multiset(s)[x] == multiset(s[1..])[x] + if s[0] == x then 1 else 0
  {
    assert s == [s[0]] + s[1..];
  }

  lemma CountCons<T>(h: T, s: seq<T>, x: T)
    ensures multiset([h] + s)[x] == multiset(s)[x] + if h == x then 1 else 0
  {
  }

  lemma Snoc<T>(s: seq<T>, n: nat)
    requires |s| == n + 1
    ensures s == s[..n] + [s[n]]
  {
  }

  lemma ConcatInit<T>(a: seq<T>, b: seq<T>)
    requires b != []
    ensures (a + b)[..|a + b| - 1] == a + b[..|b| - 1] && (a + b)[|a + b| - 1] == b[|b| - 1]
  {
  }

  lemma Associative<T>(a: seq<T>, b: seq<T>, c: seq<T>)
    ensures a + (b + c) == a + b + c
  {
  }

  lemma RightEmpty<T>(a: seq<T>)
    ensures a + [] == a
  {
  }

  lemma SlicePrefix<T>(s: seq<T>, i: nat, j: nat, n: nat)
    requires i <= j <= |s| && n <= j - i
    ensures s[i..j][..n] == s[i..i + n]
  {
  }

  lemma SliceSlice<T>(s: seq<T>, p: nat, q: nat, i: nat, j: nat)
    requires p <= q <= |s| && i <= j <= q - p
    ensures s[p..q][i..j] == s[p + i..p + j]
  {
    var a, b := s[p..q][i..j], s[p + i..p + j];
    assert forall k :: 0 <= k < |a| ==> a[k] == s[p + i + k] == b[k];
  }

  lemma DropSlice<T>(s: seq<T>, p: nat, q: nat, n: nat)
    requires p + n <= q <= |s|
    ensures s[p..q][n..] == s[p + n..q]
  {
  }

  lemma SplitSlice<T>(s: seq<T>, i: nat, j: nat, k: nat)
    requires i <= j <= k <= |s|
    ensures s[i..k] == s[i..j] + s[j..k]
  {
  }

  /** Two runs found next to each other are found one by one. */
  lemma SplitAt<T>(s: seq<T>, p: nat, a: seq<T>, b: seq<T>)
    requires p + |a + b| <= |s| && s[p..p + |a + b|] == a + b
    ensures s[p..p + |a|] == a && s[p + |a|..p + |a| + |b|] == b
  {
    assert s[p..p + |a|] == (a + b)[..|a|];
    assert s[p + |a|..p + |a| + |b|] == (a + b)[|a|..];
  }

  lemma TakeDrop<T>(s: seq<T>, n: nat)
    requires n <= |s|
    ensures s == s[..n] + s[n..]
  {
  }
}
