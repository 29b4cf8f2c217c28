// The doubling of the buckets of a hash table, item by item.
module Refilings {
  import opened Memory
  import opened Sequences
  import opened Bits
  import opened Layouts

  // The doubling of a table under way: what it was, and the new chains with the items filed in them so far.
  datatype Refiling = Refiling(l: Layout, chains: seq<seq<Item>>, slot: map<Item, nat>)
  {
    // the old chain that a new one is filled from
    function From(j: nat): nat {
      if j < Pow2(l.log2) then j else j - Pow2(l.log2)
    }

    // Everything in the old chains before i, and in chain i from k on, is filed.
    ghost predicate Filed(p: Item, i: nat, k: nat)
      requires p in l.place && l.PlaceOK(p)
    {
      l.Bucket(p.key) < i || (l.Bucket(p.key) == i && l.slot[p] >= k)
    }

    ghost predicate FiledOK(p: Item, i: nat, k: nat)
      requires p in l.place
    {
      && l.PlaceOK(p) && (p in slot <==> Filed(p, i, k))
      && (p in slot ==> SlotOK(p))
    }

    ghost predicate SlotOK(p: Item) {
      p in slot && l.NewBucket(p) < |chains| && slot[p] < |chains[l.NewBucket(p)]| && chains[l.NewBucket(p)][slot[p]] == p
    }

    ghost predicate ChainOK(j: nat, i: nat, k: nat)
      requires j < |chains|
    {
      && From(j) < |l.chains|
      && (forall m | 0 <= m < |chains[j]| :: chains[j][m] in slot && slot[chains[j][m]] == m && l.NewBucket(chains[j][m]) == j)
      && var c := l.chains[From(j)];
      chains[j] == l.Refiled(c, if From(j) < i then 0 else if From(j) == i then k else |c|, j)
    }

    ghost function HhPrev(p: Item): Item?
      requires SlotOK(p)
    {
      var c := chains[l.NewBucket(p)];
      if slot[p] + 1 < |c| then c[slot[p] + 1] else null
    }

    ghost function HhNext(p: Item): Item?
      requires SlotOK(p)
    {
      var c := chains[l.NewBucket(p)];
      if slot[p] > 0 then c[slot[p] - 1] else null
    }

    // what is still to be filed
    ghost function Left(i: nat, k: nat): seq<seq<Item>> {
      seq(|l.chains|, b requires 0 <= b < |l.chains| =>
        if b < i then [] else if b == i && k <= |l.chains[b]| then l.chains[b][..k] else l.chains[b])
    }

    ghost predicate Stands(i: nat, k: nat) {
      && |chains| == 2 * |l.chains| && i <= |l.chains| && (i < |l.chains| ==> k <= |l.chains[i]|)
      && forall u {:trigger Shown(u)} :: Shown(u) ==> Facts(i, k)
    }

    ghost predicate Facts(i: nat, k: nat) {
      && l.Valid() && |chains| == 2 * |l.chains| && i <= |l.chains| && (i < |l.chains| ==> k <= |l.chains[i]|)
      && slot.Keys <= l.place.Keys
      && (forall p {:trigger FiledOK(p, i, k)} | p in l.place :: FiledOK(p, i, k))
      && (forall j {:trigger ChainOK(j, i, k)} | 0 <= j < |chains| :: ChainOK(j, i, k))
      && Excess(chains, 0) + Excess(Left(i, k), 0) == |l.order|
    }

    ghost function Push(p: Item): Refiling
      requires l.NewBucket(p) < |chains|
    {
      var j := l.NewBucket(p);
      this.(chains := chains[j := chains[j] + [p]], slot := slot[p := |chains[j]|])
    }

    lemma PushChain(i: nat, k: nat, m: nat, j: nat)
      requires Facts(i, k) && i < |l.chains| && k == m + 1 && j < |chains|
      ensures l.NewBucket(l.chains[i][m]) < |chains| && Push(l.chains[i][m]).ChainOK(j, i, m)
    {
      var c := l.chains[i];
      var p := c[m];
      var r := Push(p);
      assert l.ChainOK(i) && l.PlaceOK(p) && FiledOK(p, i, k);
      assert ChainOK(j, i, k);
      forall x | 0 <= x < |r.chains[j]| ensures r.chains[j][x] in r.slot && r.slot[r.chains[j][x]] == x && l.NewBucket(r.chains[j][x]) == j {
        if x < |chains[j]| { assert r.chains[j][x] == chains[j][x]; }
      }
    }

    lemma PushFiled(i: nat, k: nat, m: nat, q: Item)
      requires Facts(i, k) && i < |l.chains| && k == m + 1 && q in l.place
      ensures l.NewBucket(l.chains[i][m]) < |chains| && Push(l.chains[i][m]).FiledOK(q, i, m)
    {
      var p := l.chains[i][m];
      assert l.ChainOK(i) && l.PlaceOK(p) && l.PlaceOK(q);
      assert FiledOK(q, i, k) && FiledOK(p, i, k);
    }

    lemma PushFacts(i: nat, k: nat, m: nat)
      requires Facts(i, k) && i < |l.chains| && k == m + 1
      ensures l.NewBucket(l.chains[i][m]) < |chains| && Push(l.chains[i][m]).Facts(i, m)
    {
      var p := l.chains[i][m];
      assert l.ChainOK(i) && l.PlaceOK(p) && FiledOK(p, i, k);
      PushAllFiled(i, k, m);
      PushChains(i, k, m);
      PushCounts(i, k, m);
    }

    lemma PushAllFiled(i: nat, k: nat, m: nat)
      requires Facts(i, k) && i < |l.chains| && k == m + 1 && l.NewBucket(l.chains[i][m]) < |chains|
      ensures forall q {:trigger Push(l.chains[i][m]).FiledOK(q, i, m)} | q in l.place :: Push(l.chains[i][m]).FiledOK(q, i, m)
    {
      forall q | q in l.place ensures Push(l.chains[i][m]).FiledOK(q, i, m) { PushFiled(i, k, m, q); }
    }

    lemma PushChains(i: nat, k: nat, m: nat)
      requires Facts(i, k) && i < |l.chains| && k == m + 1 && l.NewBucket(l.chains[i][m]) < |chains|
      ensures var r := Push(l.chains[i][m]);
        forall c {:trigger r.ChainOK(c, i, m)} | 0 <= c < |r.chains| :: r.ChainOK(c, i, m)
    {
      var r := Push(l.chains[i][m]);
      forall c | 0 <= c < |r.chains| ensures r.ChainOK(c, i, m) { PushChain(i, k, m, c); }
    }

    // one more item filed
    lemma PushStands(i: nat, k: nat)
      requires Stands(i, k) && i < |l.chains| && 0 < k
      ensures l.NewBucket(l.chains[i][k - 1]) < |chains| && Push(l.chains[i][k - 1]).Stands(i, k - 1)
    {
      assert Shown(0);
      PushFacts(i, k, k - 1);
    }

    lemma PushCounts(i: nat, k: nat, m: nat)
      requires i < |l.chains| && k == m + 1 <= |l.chains[i]| && l.NewBucket(l.chains[i][m]) < |chains|
      ensures Excess(Push(l.chains[i][m]).chains, 0) == Excess(chains, 0) + 1
      ensures Excess(Left(i, m), 0) == Excess(Left(i, k), 0) - 1
    {
      var p := l.chains[i][m];
      ExcessUpdate(chains, l.NewBucket(p), chains[l.NewBucket(p)] + [p], 0);
      assert Left(i, m) == Left(i, k)[i := l.chains[i][..m]];
      ExcessUpdate(Left(i, k), i, l.chains[i][..m], 0);
    }

    // what filing one more item means for the links of those filed before
    lemma PushLinks(p: Item, q: Item)
      requires p !in slot && q in slot && SlotOK(q) && l.NewBucket(p) < |chains|
      ensures var r, j := Push(p), l.NewBucket(p);
        && r.SlotOK(q) && r.HhNext(q) == HhNext(q)
        && r.HhPrev(q) == if l.NewBucket(q) == j && slot[q] == |chains[j]| - 1 then p else HhPrev(q)
    {}

    lemma Starts()
      requires l.Valid() && |chains| == 2 * |l.chains| && slot == map[] && forall j | 0 <= j < |chains| :: chains[j] == []
      ensures |l.chains| > 0 && Stands(0, |l.chains[0]|)
    {
      var k := |l.chains[0]|;
      forall p | p in l.place ensures FiledOK(p, 0, k) { assert l.PlaceOK(p); }
      NoExcess(chains, 0);
      assert l.chains[0][..k] == l.chains[0];
      assert Left(0, k) == l.chains;
    }

    lemma LeftNext(i: nat, k: nat)
      requires i < |l.chains| && (i + 1 < |l.chains| ==> k == |l.chains[i + 1]|)
      ensures Left(i + 1, k) == Left(i, 0)
    {
      assert i + 1 < |l.chains| ==> l.chains[i + 1][..k] == l.chains[i + 1];
      assert l.chains[i][..0] == [];
    }

    // the i-th chain all filed, and the next one not yet
    lemma StandsNext(i: nat, k: nat)
      requires Stands(i, 0) && i < |l.chains| && (i + 1 < |l.chains| ==> k == |l.chains[i + 1]|)
      ensures Stands(i + 1, k)
    {
      assert Shown(0);
      var i' := i + 1;
      forall p | p in l.place ensures FiledOK(p, i', k) { assert FiledOK(p, i, 0); }
      forall j | 0 <= j < |chains| ensures ChainOK(j, i', k) { assert ChainOK(j, i, 0); }
      LeftNext(i, k);
    }

    ghost function Done(): Layout {
      l.(log2 := l.log2 + 1, chains := chains, slot := slot)
    }

    lemma DoneChain(j: nat, k: nat)
      requires Facts(|l.chains|, k) && j < |chains|
      ensures Done().ChainOK(j)
    {
      assert ChainOK(j, |l.chains|, k);
    }

    lemma DonePlaces(k: nat)
      requires Facts(|l.chains|, k)
      ensures slot.Keys == l.place.Keys
      ensures forall p | p in l.place :: Done().PlaceOK(p)
    {
      var n := |l.chains|;
      forall p | p in l.place ensures p in slot && Done().PlaceOK(p) { assert l.PlaceOK(p) && FiledOK(p, n, k); }
    }

    lemma DoneKeys(k: nat)
      requires Facts(|l.chains|, k)
      ensures forall i | 0 <= i < |l.order| :: Done().NthOK(i)
      ensures forall x | x in l.byKey :: Done().KeyOK(x)
    {
      forall i | 0 <= i < |l.order| ensures Done().NthOK(i) { assert l.NthOK(i); }
      forall x | x in l.byKey ensures Done().KeyOK(x) { assert l.KeyOK(x); }
    }

    lemma DoneCount(k: nat)
      requires Facts(|l.chains|, k)
      ensures Excess(chains, 0) == |l.order| && |chains| == Pow2(l.log2 + 1)
    {
      NoExcess(Left(|l.chains|, k), 0);
    }

    lemma DoneDoubled(k: nat)
      requires Facts(|l.chains|, k)
      ensures l.Doubled(Done())
    {
      var n := |l.chains|;
      forall j | 0 <= j < |chains| ensures From(j) < n && chains[j] == l.Refiled(l.chains[From(j)], 0, j) { assert ChainOK(j, n, k); }
    }

    // Nothing is lost or duplicated: the doubled table is as good as the one before.
    lemma DoneValid(k: nat)
      requires Stands(|l.chains|, k)
      ensures Done().Valid()
      ensures l.Doubled(Done())
    {
      assert Facts(|l.chains|, k) by { assert Shown(0); }
      DonePlaces(k);
      DoneKeys(k);
      DoneCount(k);
      forall j | 0 <= j < |chains| ensures Done().ChainOK(j) { DoneChain(j, k); }
      DoneDoubled(k);
    }
  }

  function Reverse<T>(s: seq<T>): seq<T> {
    if s == [] then [] else Reverse(s[1..]) + [s[0]]
  }

  // the items of s that go to bucket j of the doubled table
  ghost function Going(l: Layout, s: seq<Item>, j: nat): seq<Item> {
    if s == [] then []
    else
      var r := Going(l, s[..|s| - 1], j);
      if l.NewBucket(s[|s| - 1]) == j then r + [s[|s| - 1]] else r
  }

  // Doubling turns a chain round: the items that go to a bucket stand in it in the opposite order.
  lemma {:induction false} RefiledTurned(l: Layout, c: seq<Item>, k: nat, j: nat)
    requires k <= |c|
    ensures l.Refiled(c, k, j) == Going(l, Reverse(c[k..]), j)
    decreases |c| - k
  {
    if k < |c| {
      RefiledTurned(l, c, k + 1, j);
      var t := c[k..];
      assert t[1..] == c[k + 1..];
      var s := Reverse(t);
      assert s[..|s| - 1] == Reverse(t[1..]) && s[|s| - 1] == c[k];
    }
  }
}
