// The bottom-up merge sort of a list of items: runs merged two by two into runs twice as
// long, and the links rewritten item by item.
module Sorting {
  import opened Memory
  import opened Sequences
  import opened Layouts

  lemma Front(s: seq<Item>, c: seq<Item>, k: nat)
    requires k <= |s|
    ensures (s + c)[..k] == s[..k] && (s + c)[k..] == s[k..] + c
  {}

  // An order of items by a comparison, and by their ranks where that finds them equal.
  datatype Ordering = Ordering(cmp: (Item, Item) -> int, rank: map<Item, nat>)
  {
    predicate Le(a: Item, b: Item) {
      cmp(a, b) <= 0
    }

    // The comparison is a total preorder of the ranked items.
    ghost predicate Total() {
      forall a, b, c {:trigger TotalAt(a, b, c)} | a in rank && b in rank && c in rank :: TotalAt(a, b, c)
    }

    ghost predicate TotalAt(a: Item, b: Item, c: Item) {
      (Le(a, b) || Le(b, a)) && (Le(a, b) && Le(b, c) ==> Le(a, c))
    }

    ghost predicate Before(a: Item, b: Item) {
      a in rank && b in rank && Le(a, b) && (Le(b, a) ==> rank[a] < rank[b])
    }

    ghost predicate Sorted(s: seq<Item>) {
      forall i, j | 0 <= i < j < |s| :: Before(s[i], s[j])
    }

    ghost predicate Within(s: seq<Item>, lo: nat, hi: nat) {
      forall i | 0 <= i < |s| :: s[i] in rank && lo <= rank[s[i]] < hi
    }

    // ---- merging

    // c is what a merge of a and b comes to after the first i of a and the first j of b.
    ghost predicate Merged(c: seq<Item>, a: seq<Item>, b: seq<Item>, i: nat, j: nat) {
      && i <= |a| && j <= |b| && |c| == i + j && Sorted(c)
      && (forall x, y | 0 <= x < |c| && i <= y < |a| :: Before(c[x], a[y]))
      && (forall x, y | 0 <= x < |c| && j <= y < |b| :: Before(c[x], b[y]))
    }

    ghost predicate Mergeable(a: seq<Item>, b: seq<Item>, lo: nat, mid: nat, hi: nat) {
      Total() && Sorted(a) && Sorted(b) && Within(a, lo, mid) && Within(b, mid, hi) && lo <= mid <= hi
    }

    lemma TakeLeft(c: seq<Item>, a: seq<Item>, b: seq<Item>, i: nat, j: nat, i': nat, lo: nat, mid: nat, hi: nat)
      requires Mergeable(a, b, lo, mid, hi) && Within(c, lo, hi) && Merged(c, a, b, i, j) && i < |a| && i' == i + 1 && (j < |b| ==> Le(a[i], b[j]))
      ensures Merged(c + [a[i]], a, b, i', j)
      ensures Within(c + [a[i]], lo, hi)
    {
      forall y | j <= y < |b| ensures Before(a[i], b[y]) {
        assert TotalAt(a[i], b[j], b[y]);
        assert j < y ==> Before(b[j], b[y]);
      }
    }

    lemma TakeRight(c: seq<Item>, a: seq<Item>, b: seq<Item>, i: nat, j: nat, j': nat, lo: nat, mid: nat, hi: nat)
      requires Mergeable(a, b, lo, mid, hi) && Within(c, lo, hi) && Merged(c, a, b, i, j) && j < |b| && j' == j + 1 && (i < |a| ==> !Le(a[i], b[j]))
      ensures Merged(c + [b[j]], a, b, i, j')
      ensures Within(c + [b[j]], lo, hi)
    {
      forall y | i <= y < |a| ensures Before(b[j], a[y]) {
        assert TotalAt(a[i], b[j], a[i]);
        assert TotalAt(b[j], a[i], a[y]);
        assert TotalAt(a[i], a[y], b[j]);
        assert i < y ==> Before(a[i], a[y]);
      }
    }

    // ---- runs

    // a sorted run of the items ranked from `base` on
    ghost predicate Block(c: seq<Item>, base: nat) {
      Sorted(c) && Within(c, base, base + |c|)
    }

    // sorted runs of k items each, the last one maybe shorter
    ghost predicate Runs(s: seq<Item>, k: nat, base: nat)
      requires k > 0
      decreases |s|
    {
      if |s| <= k then Block(s, base) else Block(s[..k], base) && Runs(s[k..], k, base + k)
    }

    // sorted runs of k items each, the last one as well
    ghost predicate FullRuns(s: seq<Item>, k: nat, base: nat)
      requires k > 0
      decreases |s|
    {
      s == [] || (|s| >= k && Block(s[..k], base) && FullRuns(s[k..], k, base + k))
    }

    lemma {:induction false} RunsMore(s: seq<Item>, c: seq<Item>, k: nat, base: nat)
      requires k > 0 && FullRuns(s, k, base) && |c| <= k && Block(c, base + |s|)
      ensures Runs(s + c, k, base)
      ensures |c| == k ==> FullRuns(s + c, k, base)
      decreases |s|
    {
      if s == [] {
        assert s + c == c;
        assert |c| == k ==> c[..k] == c && c[k..] == [];
      } else {
        Front(s, c, k);
        RunsMore(s[k..], c, k, base + k);
        RunsFirst(s + c, k, base);
      }
    }

    lemma RunsFirst(t: seq<Item>, k: nat, base: nat)
      requires 0 < k <= |t| && Block(t[..k], base) && Runs(t[k..], k, base + k)
      ensures Runs(t, k, base)
    {
      if |t| == k { assert t[..k] == t; }
    }

    // two runs cut off the front
    lemma RunsSplit(s: seq<Item>, k: nat, base: nat)
      requires k > 0 && Runs(s, k, base)
      ensures var m := if k < |s| then k else |s|;
        && Block(s[..m], base) && Runs(s[m..], k, base + m)
    {
      if |s| <= k {
        assert s[..|s|] == s && s[|s|..] == [];
      }
    }

    // items one by one are runs of one
    lemma {:induction false} Ones(s: seq<Item>, base: nat)
      requires forall i | 0 <= i < |s| :: s[i] in rank && rank[s[i]] == base + i
      ensures Runs(s, 1, base)
      decreases |s|
    {
      if |s| > 1 {
        Ones(s[1..], base + 1);
      }
    }
  }

  // A pass over a table's order under way: the list `s` it started from, and the items relinked so far.
  datatype Merging = Merging(l: Layout, s: seq<Item>, at: map<Item, nat>, done: seq<Item>, slot: map<Item, nat>)
  {
    ghost predicate ListOK() {
      && |s| == |l.order| && at.Keys == l.place.Keys
      && (forall i {:trigger NthOK(i)} | 0 <= i < |s| :: NthOK(i))
      && (forall p {:trigger AtOK(p)} | p in at :: AtOK(p))
    }

    ghost predicate NthOK(i: nat)
      requires i < |s|
    {
      s[i] in at && at[s[i]] == i
    }

    ghost predicate AtOK(p: Item)
      requires p in at
    {
      at[p] < |s| && s[at[p]] == p
    }

    // Relinked are the items before i, and those from m up to j.
    ghost predicate Stands(i: nat, m: nat, j: nat) {
      && l.Valid() && ListOK() && i <= m <= j <= |s| && |done| == i + (j - m)
      && slot.Keys <= at.Keys
      && (forall x {:trigger DoneOK(x)} | 0 <= x < |done| :: DoneOK(x))
      && (forall p {:trigger SlotOK(p, i, m, j)} | p in at :: SlotOK(p, i, m, j))
    }

    ghost predicate DoneOK(x: nat)
      requires x < |done|
    {
      done[x] in slot && slot[done[x]] == x
    }

    ghost predicate SlotOK(p: Item, i: nat, m: nat, j: nat)
      requires p in at
    {
      && (p in slot <==> at[p] < i || m <= at[p] < j)
      && (p in slot ==> slot[p] < |done| && done[slot[p]] == p)
    }

    ghost function Push(p: Item): Merging {
      this.(done := done + [p], slot := slot[p := |done|])
    }

    lemma PushLeft(i: nat, m: nat, j: nat)
      requires Stands(i, m, j) && i < m
      ensures Push(s[i]).Stands(i + 1, m, j) && s[i] in at && s[i] !in slot
    {
      var g, i' := Push(s[i]), i + 1;
      assert NthOK(i) && SlotOK(s[i], i, m, j);
      forall x | 0 <= x < |g.s| ensures g.NthOK(x) { assert NthOK(x); }
      forall p | p in g.at ensures g.AtOK(p) && g.SlotOK(p, i', m, j) { assert AtOK(p) && SlotOK(p, i, m, j); }
      forall x | 0 <= x < |g.done| ensures g.DoneOK(x) { assert x < |done| ==> DoneOK(x); }
    }

    lemma PushRight(i: nat, m: nat, j: nat)
      requires Stands(i, m, j) && j < |s|
      ensures Push(s[j]).Stands(i, m, j + 1) && s[j] in at && s[j] !in slot
    {
      var g, j' := Push(s[j]), j + 1;
      assert NthOK(j) && SlotOK(s[j], i, m, j);
      forall x | 0 <= x < |g.s| ensures g.NthOK(x) { assert NthOK(x); }
      forall p | p in g.at ensures g.AtOK(p) && g.SlotOK(p, i, m, j') { assert AtOK(p) && SlotOK(p, i, m, j); }
      forall x | 0 <= x < |g.done| ensures g.DoneOK(x) { assert x < |done| ==> DoneOK(x); }
    }

    // both runs merged, and the next two in view
    lemma NextRuns(m: nat, j: nat, m': nat)
      requires Stands(m, m, j) && j <= m' <= |s|
      ensures Stands(j, m', m')
    {
      forall p | p in at ensures SlotOK(p, j, m', m') { assert SlotOK(p, m, m, j); }
    }

    ghost function Again(): Merging {
      Merging(l, done, slot, [], map[])
    }

    // after a pass: the list it made is one of the same items, each once
    lemma PassDone(m: nat)
      requires Stands(|s|, m, m)
      ensures Again().Stands(0, 0, 0) && |done| == |s|
    {
      var n := |s|;
      assert slot.Keys == at.Keys by {
        forall p | p in at ensures p in slot { assert AtOK(p) && SlotOK(p, n, m, m); }
      }
      var g := Again();
      forall x | 0 <= x < |g.s| ensures g.NthOK(x) { assert DoneOK(x); }
      forall p | p in g.at ensures g.AtOK(p) && g.SlotOK(p, 0, 0, 0) { assert SlotOK(p, n, m, m); }
    }

    ghost function Finish(): Layout {
      l.(order := s, place := at)
    }

    lemma FinishValid()
      requires l.Valid() && ListOK()
      ensures Finish().Valid()
    {
      var d := Finish();
      forall i | 0 <= i < |s| ensures d.NthOK(i) { assert NthOK(i); }
      forall b | 0 <= b < |l.chains| ensures d.ChainOK(b) { assert l.ChainOK(b); }
      forall p | p in d.place ensures d.PlaceOK(p) { assert l.PlaceOK(p) && AtOK(p); }
      forall k | k in l.byKey ensures d.KeyOK(k) { assert l.KeyOK(k); }
    }

    // ---- the links

    ghost function Follower(p: Item): Item?
      requires p in at && AtOK(p)
    {
      if at[p] + 1 < |s| then s[at[p] + 1] else null
    }
  }

  // ---- two runs merged within a pass

  // The runs s[pos..m] and s[m..e] are being merged behind `pre`: c is made of those before i and before j.
  datatype Round = Round(o: Ordering, g: Merging, pre: seq<Item>, c: seq<Item>, pos: nat, m: nat, e: nat, i: nat, j: nat)
  {
    ghost predicate Stands() {
      && pos <= i <= m <= j <= e <= |g.s| && g.Stands(i, m, j) && g.done == pre + c && |pre| == pos && o.rank == g.l.place
      && o.Mergeable(g.s[pos..m], g.s[m..e], pos, m, e)
      && o.Merged(c, g.s[pos..m], g.s[m..e], i - pos, j - m) && o.Within(c, pos, e)
    }

    // the same two runs
    ghost predicate Same(r: Round) {
      r.o == o && r.g.l == g.l && r.g.s == g.s && r.g.at == g.at && r.pre == pre && r.pos == pos && r.m == m && r.e == e
    }

    ghost function Left(): (r: Round)
      requires i < |g.s|
      ensures Same(r)
    {
      this.(g := g.Push(g.s[i]), c := c + [g.s[i]], i := i + 1)
    }

    ghost function Right(): (r: Round)
      requires j < |g.s|
      ensures Same(r)
    {
      this.(g := g.Push(g.s[j]), c := c + [g.s[j]], j := j + 1)
    }

    lemma LeftStands()
      requires Stands() && i < m && (j < e ==> o.Le(g.s[i], g.s[j]))
      ensures Left().Stands()
    {
      assert g.s[pos..m][i - pos] == g.s[i] && (j < e ==> g.s[m..e][j - m] == g.s[j]);
      g.PushLeft(i, m, j);
      o.TakeLeft(c, g.s[pos..m], g.s[m..e], i - pos, j - m, i + 1 - pos, pos, m, e);
      assert pre + c + [g.s[i]] == pre + (c + [g.s[i]]);
    }

    lemma RightStands()
      requires Stands() && j < e && (i < m ==> !o.Le(g.s[i], g.s[j]))
      ensures Right().Stands()
    {
      assert g.s[m..e][j - m] == g.s[j] && (i < m ==> g.s[pos..m][i - pos] == g.s[i]);
      g.PushRight(i, m, j);
      o.TakeRight(c, g.s[pos..m], g.s[m..e], i - pos, j - m, j + 1 - m, pos, m, e);
      assert pre + c + [g.s[j]] == pre + (c + [g.s[j]]);
    }
  }

  // ---- a pass

  // The first pos items are merged into runs of 2k; the others are still in runs of k.
  ghost predicate Passing(o: Ordering, g: Merging, k: nat, pos: nat) {
    && k > 0 && o.Total() && o.rank == g.l.place && pos <= |g.s| && g.Stands(pos, pos, pos)
    && o.Runs(g.s[pos..], k, pos)
    && (if pos < |g.s| then o.FullRuns(g.done, 2 * k, 0) else o.Runs(g.done, 2 * k, 0))
  }

  lemma CutRun(o: Ordering, s: seq<Item>, k: nat, pos: nat, m: nat)
    requires k > 0 && pos <= |s| && o.Runs(s[pos..], k, pos) && m == if pos + k < |s| then pos + k else |s|
    ensures o.Block(s[pos..m], pos) && o.Runs(s[m..], k, m)
  {
    o.RunsSplit(s[pos..], k, pos);
    assert s[pos..][..m - pos] == s[pos..m];
    assert s[pos..][m - pos..] == s[m..];
  }

  lemma TwoRuns(o: Ordering, s: seq<Item>, k: nat, pos: nat, m: nat, e: nat)
    requires k > 0 && pos < |s| && o.Runs(s[pos..], k, pos)
    requires m == (if pos + k < |s| then pos + k else |s|) && e == (if m + k < |s| then m + k else |s|)
    ensures o.Block(s[pos..m], pos) && o.Block(s[m..e], m) && o.Runs(s[e..], k, e)
  {
    CutRun(o, s, k, pos, m);
    CutRun(o, s, k, m, e);
  }

  lemma RoundStarts(o: Ordering, g: Merging, k: nat, pos: nat, m: nat, e: nat)
    requires Passing(o, g, k, pos) && pos < |g.s|
    requires m == (if pos + k < |g.s| then pos + k else |g.s|) && e == (if m + k < |g.s| then m + k else |g.s|)
    ensures Round(o, g, g.done, [], pos, m, e, pos, m).Stands()
    ensures o.Runs(g.s[e..], k, e)
  {
    TwoRuns(o, g.s, k, pos, m, e);
    g.NextRuns(pos, pos, m);
    assert g.done + [] == g.done;
  }

  lemma RoundEnds(o: Ordering, g0: Merging, g: Merging, c: seq<Item>, k: nat, pos: nat, m: nat, e: nat)
    requires Passing(o, g0, k, pos) && pos < |g.s| && g.l == g0.l && g.s == g0.s && g.at == g0.at
    requires m == (if pos + k < |g.s| then pos + k else |g.s|) && e == (if m + k < |g.s| then m + k else |g.s|)
    requires Round(o, g, g0.done, c, pos, m, e, m, e).Stands() && o.Runs(g.s[e..], k, e)
    ensures Passing(o, g, k, e)
  {
    o.RunsMore(g0.done, c, 2 * k, 0);
    g.NextRuns(m, e, e);
  }

  lemma PassStarts(o: Ordering, g: Merging, k: nat)
    requires k > 0 && o.Total() && o.rank == g.l.place && g.Stands(0, 0, 0) && o.Runs(g.s, k, 0)
    ensures Passing(o, g, k, 0)
  {
    assert g.s[0..] == g.s && g.done == [];
  }

  lemma PassEnds(o: Ordering, g: Merging, k: nat)
    requires Passing(o, g, k, |g.s|)
    ensures g.Again().Stands(0, 0, 0) && o.Runs(g.Again().s, 2 * k, 0) && |g.done| == |g.s|
    ensures |g.s| <= 2 * k ==> o.Sorted(g.done)
  {
    g.PassDone(|g.s|);
  }
}
