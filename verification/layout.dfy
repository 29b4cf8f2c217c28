// The shape of a hash table as a value: the items in the order they were added, the
// chains of the buckets, and the finite map the table stands for.
module Layouts {
  import opened Memory
  import opened Sequences
  import opened Bits

  // What a hash handle holds. The element it is part of is the handle itself here.
  class Item {
    const key: seq<byte>
    var hashv: nat
    var prev: Item?
    var next: Item?
    var hhPrev: Item?
    var hhNext: Item?

    constructor (key: seq<byte>)
      ensures this.key == key && hashv == 0 && prev == next == hhPrev == hhNext == null
    {
      this.key, hashv, prev, next, hhPrev, hhNext := key, 0, null, null, null, null;
    }
  }

  // how many items stand beyond the ideal length of their chains
  function Excess(chains: seq<seq<Item>>, ideal: nat): nat {
    if chains == [] then 0 else Over(|chains[0]|, ideal) + Excess(chains[1..], ideal)
  }

  function Over(count: nat, ideal: nat): nat {
    if count > ideal then count - ideal else 0
  }

  lemma {:induction false} ExcessUpdate(chains: seq<seq<Item>>, b: nat, c: seq<Item>, ideal: nat)
    requires b < |chains|
    ensures Excess(chains[b := c], ideal) == Excess(chains, ideal) - Over(|chains[b]|, ideal) + Over(|c|, ideal)
  {
    var cs := chains[b := c];
    if b == 0 {
      assert cs[1..] == chains[1..];
    } else {
      assert cs[1..] == chains[1..][b - 1 := c];
      ExcessUpdate(chains[1..], b - 1, c, ideal);
    }
  }

  lemma {:induction false} NoExcess(chains: seq<seq<Item>>, ideal: nat)
    requires forall i | 0 <= i < |chains| :: chains[i] == []
    ensures Excess(chains, ideal) == 0
  {
    if chains != [] {
      NoExcess(chains[1..], ideal);
    }
  }

  lemma ExcessTail(chains: seq<seq<Item>>, i: nat, ideal: nat)
    requires i < |chains|
    ensures Excess(chains[i..], ideal) == Over(|chains[i]|, ideal) + Excess(chains[i + 1..], ideal)
  {
    assert chains[i..][1..] == chains[i + 1..];
  }

  // The shape of a table: the items in application order, and the chains of the buckets.
  // A chain is kept from its last item to its head, so that a new head does not move the others.
  datatype Layout = Layout(hash: seq<byte> -> nat, log2: nat, order: seq<Item>, place: map<Item, nat>,
                           chains: seq<seq<Item>>, slot: map<Item, nat>, byKey: map<seq<byte>, Item>)
  {
    ghost predicate Valid() {
      && |chains| == Pow2(log2) && place.Keys == slot.Keys && Excess(chains, 0) == |order|
      && (forall i {:trigger NthOK(i)} | 0 <= i < |order| :: NthOK(i))
      && (forall b {:trigger ChainOK(b)} | 0 <= b < |chains| :: ChainOK(b))
      && (forall p {:trigger PlaceOK(p)} | p in place :: PlaceOK(p))
      && (forall k {:trigger KeyOK(k)} | k in byKey :: KeyOK(k))
    }

    ghost predicate NthOK(i: nat)
      requires i < |order|
    {
      order[i] in place && place[order[i]] == i
    }

    ghost predicate ChainOK(b: nat)
      requires b < |chains|
    {
      forall k | 0 <= k < |chains[b]| :: chains[b][k] in slot && slot[chains[b][k]] == k && Bucket(chains[b][k].key) == b
    }

    ghost predicate PlaceOK(p: Item)
      requires p in place
    {
      && place[p] < |order| && order[place[p]] == p && SlotOK(p)
      && p.key in byKey && byKey[p.key] == p
    }

    ghost predicate SlotOK(p: Item) {
      && p in slot && Bucket(p.key) < |chains|
      && slot[p] < |Chain(p)| && Chain(p)[slot[p]] == p
    }

    ghost predicate KeyOK(k: seq<byte>)
      requires k in byKey
    {
      byKey[k] in place && byKey[k].key == k
    }

    function Bucket(key: seq<byte>): (b: nat)
      ensures b < Pow2(log2)
    {
      ShiftAndMask(hash(key), log2);
      And(hash(key), Pow2(log2) - 1)
    }

    ghost function Chain(p: Item): seq<Item>
      requires Bucket(p.key) < |chains|
    {
      chains[Bucket(p.key)]
    }

    ghost function Prev(p: Item): Item?
      requires p in place && PlaceOK(p)
    {
      if place[p] > 0 then order[place[p] - 1] else null
    }

    ghost function Next(p: Item): Item?
      requires p in place && PlaceOK(p)
    {
      if place[p] + 1 < |order| then order[place[p] + 1] else null
    }

    ghost function HhPrev(p: Item): Item?
      requires SlotOK(p)
    {
      if slot[p] + 1 < |Chain(p)| then Chain(p)[slot[p] + 1] else null
    }

    ghost function HhNext(p: Item): Item?
      requires SlotOK(p)
    {
      if slot[p] > 0 then Chain(p)[slot[p] - 1] else null
    }

    // ---- adding

    ghost predicate Addable(p: Item) {
      Valid() && p !in place && p.key !in byKey
    }

    ghost function Add(p: Item): Layout
      requires Addable(p)
    {
      var b := Bucket(p.key);
      this.(order := order + [p], place := place[p := |order|],
            chains := chains[b := chains[b] + [p]], slot := slot[p := |chains[b]|], byKey := byKey[p.key := p])
    }

    lemma AddPlace(p: Item, q: Item)
      requires Addable(p) && q in Add(p).place
      ensures Add(p).PlaceOK(q)
      ensures q != p ==> q in place && PlaceOK(q)
    {
      if q != p { assert PlaceOK(q); assert KeyOK(q.key); }
    }

    lemma AddValid(p: Item)
      requires Addable(p)
      ensures Add(p).Valid()
    {
      var l, b := Add(p), Bucket(p.key);
      ExcessUpdate(chains, b, chains[b] + [p], 0);
      forall i | 0 <= i < |l.order| ensures l.NthOK(i) { assert i < |order| ==> NthOK(i); }
      forall c | 0 <= c < |l.chains| ensures l.ChainOK(c) { assert ChainOK(c); }
      forall q | q in l.place ensures l.PlaceOK(q) { AddPlace(p, q); }
      forall k | k in l.byKey ensures l.KeyOK(k) { assert k != p.key ==> KeyOK(k); }
    }

    // what adding p means for the links of the others
    lemma AddLinks(p: Item, q: Item)
      requires Addable(p) && q in place && PlaceOK(q)
      ensures var l := Add(p);
        && q in l.place && l.PlaceOK(q)
        && l.Prev(q) == Prev(q) && l.Next(q) == (if place[q] == |order| - 1 then p else Next(q))
        && l.HhNext(q) == HhNext(q)
        && l.HhPrev(q) == (if Bucket(q.key) == Bucket(p.key) && slot[q] == |Chain(q)| - 1 then p else HhPrev(q))
    {
      AddPlace(p, q);
    }

    // ---- deleting

    ghost predicate Deletable(p: Item) {
      Valid() && p in place && PlaceOK(p)
    }

    ghost function Delete(p: Item): Layout
      requires Deletable(p)
    {
      var b, i, k := Bucket(p.key), place[p], slot[p];
      this.(order := RemoveAt(order, i),
            place := map q | q in place.Keys - {p} :: if place[q] > i then place[q] - 1 else place[q],
            chains := chains[b := RemoveAt(chains[b], k)],
            slot := map q | q in slot.Keys - {p} :: if Bucket(q.key) == b && slot[q] > k then slot[q] - 1 else slot[q],
            byKey := byKey - {p.key})
    }

    lemma DeletePlace(p: Item, q: Item)
      requires Deletable(p) && q in place && q != p
      ensures q in Delete(p).place && Delete(p).PlaceOK(q) && PlaceOK(q)
    {
      assert PlaceOK(q);
    }

    lemma DeleteValid(p: Item)
      requires Deletable(p)
      ensures Delete(p).Valid()
    {
      var l, b := Delete(p), Bucket(p.key);
      ExcessUpdate(chains, b, RemoveAt(chains[b], slot[p]), 0);
      forall i | 0 <= i < |l.order| ensures l.NthOK(i) { assert NthOK(i) && NthOK(i + 1); }
      forall c | 0 <= c < |l.chains| ensures l.ChainOK(c) { DeleteChain(p, c); }
      forall q | q in l.place ensures l.PlaceOK(q) { DeletePlace(p, q); }
      forall k | k in l.byKey ensures l.KeyOK(k) { assert KeyOK(k); }
    }

    lemma DeleteChain(p: Item, c: nat)
      requires Deletable(p) && c < |chains|
      ensures c < |Delete(p).chains| && Delete(p).ChainOK(c)
    {
      assert ChainOK(c);
      var l := Delete(p);
      forall k | 0 <= k < |l.chains[c]| ensures l.chains[c][k] in l.slot && l.slot[l.chains[c][k]] == k && l.Bucket(l.chains[c][k].key) == c {
        var j := if c == Bucket(p.key) && k >= slot[p] then k + 1 else k;
        assert l.chains[c][k] == chains[c][j];
      }
    }

    lemma DeleteLinks(p: Item, q: Item)
      requires Deletable(p) && q in place && q != p
      ensures var l := Delete(p);
        && q in l.place && l.PlaceOK(q) && PlaceOK(q)
        && l.Prev(q) == (if Prev(q) == p then Prev(p) else Prev(q))
        && l.Next(q) == (if Next(q) == p then Next(p) else Next(q))
        && l.HhNext(q) == (if HhNext(q) == p then HhNext(p) else HhNext(q))
        && l.HhPrev(q) == (if HhPrev(q) == p then HhPrev(p) else HhPrev(q))
    {
      DeletePlace(p, q);
      DeleteOrderLinks(p, q);
      DeleteChainLinks(p, q);
    }

    lemma DeleteOrderLinks(p: Item, q: Item)
      requires Deletable(p) && q in place && q != p && q in Delete(p).place && Delete(p).PlaceOK(q) && PlaceOK(q)
      ensures Delete(p).Prev(q) == if Prev(q) == p then Prev(p) else Prev(q)
      ensures Delete(p).Next(q) == if Next(q) == p then Next(p) else Next(q)
    {
      assert place[q] > 0 ==> NthOK(place[q] - 1);
      assert place[q] + 1 < |order| ==> NthOK(place[q] + 1);
    }

    lemma DeleteChainLinks(p: Item, q: Item)
      requires Deletable(p) && q in place && q != p && q in Delete(p).place && Delete(p).PlaceOK(q) && PlaceOK(q)
      ensures Delete(p).HhNext(q) == if HhNext(q) == p then HhNext(p) else HhNext(q)
      ensures Delete(p).HhPrev(q) == if HhPrev(q) == p then HhPrev(p) else HhPrev(q)
    {
      assert ChainOK(Bucket(q.key));
    }

    // neighbours in the order and in a chain are so both ways
    lemma Neighbours(p: Item, q: Item)
      requires Deletable(p) && q in place && q != p
      ensures PlaceOK(q)
      ensures Prev(q) == p <==> Next(p) == q
      ensures Next(q) == p <==> Prev(p) == q
      ensures HhPrev(q) == p <==> HhNext(p) == q
      ensures HhNext(q) == p <==> HhPrev(p) == q
    {
      assert PlaceOK(q);
      assert place[q] > 0 ==> NthOK(place[q] - 1);
      assert place[q] + 1 < |order| ==> NthOK(place[q] + 1);
      assert place[p] > 0 ==> NthOK(place[p] - 1);
      assert place[p] + 1 < |order| ==> NthOK(place[p] + 1);
      assert ChainOK(Bucket(q.key)) && ChainOK(Bucket(p.key));
    }

    lemma DeleteEnds(p: Item)
      requires Deletable(p) && |order| > 1
      ensures var s := Delete(p).order;
        && |s| > 0 && s[0] == (if Prev(p) == null then Next(p) else order[0])
        && s[|s| - 1] == if p == order[|order| - 1] then Prev(p) else order[|order| - 1]
    {
      assert NthOK(0) && NthOK(|order| - 1);
    }

    // ---- doubling

    // the bucket of an item in a table of twice the size
    function NewBucket(p: Item): (b: nat)
      ensures b < Pow2(log2 + 1) && (b == Bucket(p.key) || b == Bucket(p.key) + Pow2(log2))
    {
      MaskTwice(hash(p.key), log2);
      And(hash(p.key), Pow2(log2 + 1) - 1)
    }

    // The chain of bucket j in the doubled table, from the items of an old chain down to place k, the head first.
    function Refiled(c: seq<Item>, k: nat, j: nat): seq<Item>
      decreases |c| - k
    {
      if k >= |c| then [] else
        var r := Refiled(c, k + 1, j);
        if NewBucket(c[k]) == j then r + [c[k]] else r
    }

    // What a doubling is: the items stay in their order, and each new chain is what
    // of an old one goes there.
    ghost predicate Doubled(l: Layout) {
      && l.hash == hash && l.order == order && l.place == place && l.byKey == byKey
      && l.log2 == log2 + 1 && |l.chains| == 2 * |chains|
      && forall j | 0 <= j < |l.chains| :: l.chains[j] == Refiled(chains[if j < |chains| then j else j - |chains|], 0, j)
    }

    // every item stands once in the order
    lemma Once(p: Item)
      requires Valid()
      ensures multiset(order)[p] == if p in place then 1 else 0
    {
      if p in place {
        assert PlaceOK(p);
        var i := place[p];
        assert order == order[..i] + [p] + order[i + 1..];
        forall j | 0 <= j < |order| && j != i ensures order[j] != p { assert NthOK(j); }
      } else {
        forall j | 0 <= j < |order| ensures order[j] in place { assert NthOK(j); }
      }
    }

    lemma SameItems(l: Layout)
      requires Valid() && l.Valid() && l.place.Keys == place.Keys
      ensures multiset(l.order) == multiset(order)
    {
      forall p | p in multiset(l.order) || p in multiset(order) ensures multiset(l.order)[p] == multiset(order)[p] {
        Once(p);
        l.Once(p);
      }
    }
  }
}
