// What a hash table keeps account of besides its items: when its buckets are to be
// doubled, how well that helped, and when it is given up. All of it as a value.
module Accounts {
  import opened Memory
  import opened Sequences
  import opened Bits
  import opened Layouts

  const INITIAL_NUM_BUCKETS := 32
  const INITIAL_NUM_BUCKETS_LOG2 := 5
  const BKT_CAPACITY_THRESH := 10

  function EmptyLayout(hash: seq<byte> -> nat): Layout {
    Layout(hash, INITIAL_NUM_BUCKETS_LOG2, [], map[], seq(INITIAL_NUM_BUCKETS, _ => []), map[], map[])
  }

  lemma EmptyValid(hash: seq<byte> -> nat)
    ensures EmptyLayout(hash).Valid()
  {
    NoExcess(EmptyLayout(hash).chains, 0);
    assert Pow2(5) == 2 * Pow2(4) == 4 * Pow2(3) == 8 * Pow2(2) == 16 * Pow2(1) == 32;
  }

  // the account of a table that is yet to be made
  function NoTable(hash: seq<byte> -> nat): Account {
    Account(EmptyLayout(hash), seq(INITIAL_NUM_BUCKETS, _ => 0), 0, 0, 0, false)
  }

  // The multiplier of each bucket; the ideal length of a chain and the items beyond it as of the last
  // doubling; how many doublings in a row were ineffective; whether doubling is given up.
  datatype Account = Account(l: Layout, mults: seq<nat>, ideal: nat, nonideal: nat, ineff: nat, noexpand: bool)
  {
    ghost predicate Valid() {
      l.Valid() && |mults| == |l.chains|
    }

    // What is counted right after a doubling: the ideal length is the items over the buckets, rounded up; the
    // nonideal items are those beyond it; a multiplier is how often it goes into a chain longer than that.
    ghost predicate Counted() {
      && ideal > 0 && |l.order| <= ideal * |l.chains| && (ideal - 1) * |l.chains| < |l.order|
      && nonideal == Excess(l.chains, ideal) && |mults| == |l.chains|
      && forall b | 0 <= b < |mults| :: mults[b] == if |l.chains[b]| > ideal then |l.chains[b]| / ideal else 0
    }

    // The multipliers bound the chains.
    lemma Bounds(b: nat)
      requires Counted() && b < |l.chains|
      ensures |l.chains[b]| <= (mults[b] + 1) * ideal
    {
      DivBound(|l.chains[b]|, ideal);
    }

    // more than half of the items are beyond the ideal length
    predicate Ineffective() {
      nonideal > |l.order| / 2
    }

    // a is this table with its buckets doubled; a second ineffective doubling in a row is the last
    ghost predicate Doubles(a: Account) {
      && l.Doubled(a.l) && a.l.Valid() && a.Counted()
      && a.ineff == (if a.Ineffective() then ineff + 1 else 0)
      && a.noexpand == (noexpand || a.ineff > 1)
    }

    // chain b has come to its limit
    ghost predicate Full(b: nat)
      requires b < |l.chains| == |mults|
    {
      |l.chains[b]| >= (mults[b] + 1) * BKT_CAPACITY_THRESH
    }

    // a is this table after an item came to chain b
    ghost predicate Settles(b: nat, a: Account)
      requires b < |l.chains| == |mults|
    {
      if Full(b) && !noexpand then Doubles(a) else a == this
    }

    // a is this table with p put behind its last item
    ghost predicate Adds(p: Item, a: Account) {
      && l.Addable(p) && |mults| == |l.chains|
      && this.(l := l.Add(p)).Settles(l.Bucket(p.key), a)
    }

    // this table without p; with its last item the table itself goes
    ghost function Less(p: Item): Account
      requires l.Deletable(p)
    {
      if |l.order| == 1 then NoTable(l.hash) else this.(l := l.Delete(p))
    }

    // this table without the item of a key, if it has one
    ghost function Without(key: seq<byte>): (a: Account)
      requires Valid()
      ensures a.Valid() && key !in a.l.byKey && a.l.byKey == l.byKey - {key} && a.l.hash == l.hash
    {
      if key in l.byKey then
        assert l.KeyOK(key) && l.PlaceOK(l.byKey[key]);
        LessValid(l.byKey[key]);
        Less(l.byKey[key])
      else this
    }

    lemma LessValid(p: Item)
      requires Valid() && l.Deletable(p)
      ensures Less(p).Valid() && Less(p).l.byKey == l.byKey - {p.key} && Less(p).l.order == RemoveAt(l.order, l.place[p])
    {
      l.DeleteValid(p);
      EmptyValid(l.hash);
      if |l.order| == 1 {
        forall k | k in l.byKey ensures k == p.key { assert l.KeyOK(k) && l.PlaceOK(l.byKey[k]); }
      }
    }

    lemma AddsValid(p: Item, a: Account)
      requires Adds(p, a)
      ensures a.Valid() && a.l.order == l.order + [p] && a.l.byKey == l.byKey[p.key := p] && a.l.hash == l.hash
    {
      l.AddValid(p);
    }
  }

  // ---- the items as a plain list

  // s without the items of a key
  function Omit(s: seq<Item>, key: seq<byte>): seq<Item> {
    if s == [] then [] else (if s[0].key == key then [] else [s[0]]) + Omit(s[1..], key)
  }

  lemma {:induction false} OmitNone(s: seq<Item>, key: seq<byte>)
    requires forall i | 0 <= i < |s| :: s[i].key != key
    ensures Omit(s, key) == s
  {
    if s != [] {
      OmitNone(s[1..], key);
    }
  }

  lemma {:induction false} OmitOne(s: seq<Item>, key: seq<byte>, i: nat)
    requires i < |s| && s[i].key == key && forall j | 0 <= j < |s| && j != i :: s[j].key != key
    ensures Omit(s, key) == RemoveAt(s, i)
  {
    if i == 0 {
      OmitNone(s[1..], key);
    } else {
      OmitOne(s[1..], key, i - 1);
      assert RemoveAt(s, i) == [s[0]] + RemoveAt(s[1..], i - 1);
    }
  }

  // Taking the item of a key out of a table takes it out of the list of its items.
  lemma WithoutOrder(a: Account, key: seq<byte>)
    requires a.Valid()
    ensures a.Without(key).l.order == Omit(a.l.order, key)
  {
    var l := a.l;
    forall j | 0 <= j < |l.order|
      ensures l.order[j] in l.place && l.place[l.order[j]] == j
      ensures l.order[j].key in l.byKey && l.byKey[l.order[j].key] == l.order[j]
    {
      assert l.NthOK(j) && l.PlaceOK(l.order[j]);
    }
    if key in l.byKey {
      var p := l.byKey[key];
      assert l.KeyOK(key) && l.PlaceOK(p);
      a.LessValid(p);
      OmitOne(l.order, key, l.place[p]);
    } else {
      OmitNone(l.order, key);
    }
  }
}
