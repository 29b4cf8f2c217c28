// Sequences with an element put in, taken out or written over.
module Sequences {
  // Mentioning it opens a predicate whose meaning is folded away.
  ghost predicate Shown(i: int) { true }

  // the same for what is said of new objects
  ghost predicate Aged(i: int) { true }

  function Min(a: nat, b: nat): nat { if a < b then a else b }

  function InsertAt<T>(s: seq<T>, k: nat, x: T): (r: seq<T>)
    requires k <= |s|
    ensures |r| == |s| + 1 && r[k] == x
    ensures forall i | 0 <= i < k :: r[i] == s[i]
    ensures forall i | k < i < |r| :: r[i] == s[i-1]
  {
    s[..k] + [x] + s[k..]
  }

  function Backwards<T>(s: seq<T>): (r: seq<T>)
    ensures |r| == |s| && forall i | 0 <= i < |s| :: r[i] == s[|s| - 1 - i]
  {
    seq(|s|, i requires 0 <= i < |s| => s[|s| - 1 - i])
  }

  lemma InsertThenReplace<T>(s: seq<T>, k: nat, x: T, y: T)
    requires k < |s|
    ensures InsertAt(s, k, x)[k + 1 := y] == s[..k] + [x, y] + s[k + 1..]
  {}

  lemma Assoc<T>(a: seq<T>, b: seq<T>, c: seq<T>)
    ensures a + (b + c) == (a + b) + c
  {}

  function RemoveAt<T>(s: seq<T>, k: nat): (r: seq<T>)
    requires k < |s|
    ensures |r| == |s| - 1
    ensures forall i | 0 <= i < k :: r[i] == s[i]
    ensures forall i | k <= i < |r| :: r[i] == s[i+1]
  {
    s[..k] + s[k+1..]
  }

  lemma SliceOfSlice<T>(s: seq<T>, a: nat, b: nat, i: nat, j: nat)
    requires a <= b <= |s| && i <= j <= b - a
    ensures s[a..b][i..j] == s[a + i..a + j]
  {
    var t := s[a..b];
    forall k | 0 <= k < j - i ensures t[i..j][k] == s[a + i..a + j][k] {
      assert t[i..j][k] == t[i + k];
    }
  }

  lemma PieceOf<T>(all: seq<T>, src: seq<T>, w: nat, n: nat)
    requires w + n <= |src| <= |all| && all[..|src|] == src
    ensures all[w..w + n] == src[w..w + n]
  {
    SliceOfSlice(all, 0, |src|, w, w + n);
  }

  // `s` with `t` written over it from position k on
  function Splat<T>(s: seq<T>, k: nat, t: seq<T>): (r: seq<T>)
    requires k + |t| <= |s|
  {
    s[..k] + t + s[k + |t|..]
  }

  lemma SplatWindow<T>(m: seq<T>, m': seq<T>, base: nat, len: nat, at: nat, t: seq<T>)
    requires base + len <= |m| && at + |t| <= len && m' == m[..base + at] + t + m[base + at + |t|..]
    ensures |m'| == |m| && m'[base..base + len] == Splat(m[base..base + len], at, t)
  {
    var w := m[base..base + len];
    forall k | 0 <= k < len ensures m'[base..base + len][k] == Splat(w, at, t)[k] {
      assert m'[base..base + len][k] == m'[base + k];
      if k >= at + |t| { assert w[at + |t|..][k - at - |t|] == w[k]; }
    }
  }

  lemma TakeMore<T>(s: seq<T>, i: nat, n: nat)
    requires i + n <= |s|
    ensures s[..i] + s[i..i + n] == s[..i + n]
  {}
}
