// The hash table: items linked in the order they were added and, a second time, in the
// chains of an array of buckets.
module HashTables {
  import opened Memory
  import opened Sequences
  import opened Bits
  import opened Layouts
  import opened Accounts
  import opened Refilings
  import opened Sorting

  datatype Bucket = Bucket(head: Item?, count: nat, expandMult: nat)

  ghost predicate ItemMirrors(l: Layout, p: Item)
    reads p
  {
    && p in l.place && l.PlaceOK(p) && p.hashv == l.hash(p.key)
    && p.prev == l.Prev(p) && p.next == l.Next(p) && p.hhPrev == l.HhPrev(p) && p.hhNext == l.HhNext(p)
  }

  ghost function Top(c: seq<Item>): Item? {
    if c == [] then null else c[|c| - 1]
  }

  ghost predicate BucketMirrors(chains: seq<seq<Item>>, buckets: array<Bucket>, b: nat)
    reads buckets
  {
    b < |chains| && b < buckets.Length && buckets[b].count == |chains[b]| && buckets[b].head == Top(chains[b])
  }

  // q's links once p is behind the last item and at the head of its chain
  ghost predicate AddWritten(was: Layout, p: Item, q: Item)
    reads q
  {
    && q in was.place && was.PlaceOK(q) && q.hashv == was.hash(q.key)
    && q.prev == was.Prev(q) && q.next == (if was.place[q] == |was.order| - 1 then p else was.Next(q))
    && q.hhNext == was.HhNext(q)
    && q.hhPrev == (if was.Bucket(q.key) == was.Bucket(p.key) && was.slot[q] == |was.Chain(q)| - 1 then p else was.HhPrev(q))
  }

  // q's links once p is behind the last item but in no chain yet
  ghost predicate ItemLate(was: Layout, p: Item, q: Item)
    reads q
  {
    && q in was.place && was.PlaceOK(q) && q.hashv == was.hash(q.key)
    && q.prev == was.Prev(q) && q.next == (if was.place[q] == |was.order| - 1 then p else was.Next(q))
    && q.hhPrev == was.HhPrev(q) && q.hhNext == was.HhNext(q)
  }

  lemma AddMirrors(was: Layout, p: Item)
    requires was.Addable(p)
    requires forall q {:trigger AddWritten(was, p, q)} | q in was.place :: AddWritten(was, p, q)
    requires p.hashv == was.hash(p.key) && p.prev == Top(was.order) && p.next == null
    requires p.hhPrev == null && p.hhNext == Top(was.chains[was.Bucket(p.key)])
    ensures was.Add(p).Valid()
    ensures forall q {:trigger ItemMirrors(was.Add(p), q)} | q in was.Add(p).place :: ItemMirrors(was.Add(p), q)
  {
    var l := was.Add(p);
    was.AddValid(p);
    forall q | q in l.place ensures ItemMirrors(l, q) {
      was.AddPlace(p, q);
      if q != p {
        assert AddWritten(was, p, q);
        was.AddLinks(p, q);
      }
    }
  }

  // the links of p while the items are being filed anew
  ghost predicate RefileWritten(r: Refiling, p: Item)
    reads p
  {
    && p in r.l.place && r.l.PlaceOK(p) && p.hashv == r.l.hash(p.key) && p.prev == r.l.Prev(p) && p.next == r.l.Next(p)
    && (if p in r.slot then r.SlotOK(p) && p.hhNext == r.HhNext(p) && p.hhPrev == r.HhPrev(p) else p.hhNext == r.l.HhNext(p))
  }

  ghost predicate AllRefiled(r: Refiling)
    reads r.l.place.Keys
  {
    forall p {:trigger RefileWritten(r, p)} | p in r.l.place :: RefileWritten(r, p)
  }

  // A bucket of the new table; its multiplier is how often the ideal length goes into its chain's.
  ghost predicate NewBucketMirrors(chains: seq<seq<Item>>, buckets: array<Bucket>, ideal: nat, j: nat)
    requires ideal > 0
    reads buckets
  {
    && BucketMirrors(chains, buckets, j)
    && buckets[j].expandMult == if |chains[j]| > ideal then |chains[j]| / ideal else 0
  }

  // An expansion under way: the first i old buckets are done, and the next one down to place k of its chain.
  ghost predicate Refiles(r: Refiling, newBuckets: array<Bucket>, ideal: nat, i: nat, k: nat)
    reads newBuckets, r.l.place.Keys
  {
    r.Stands(i, k) && Refiled(r, newBuckets, ideal)
  }

  ghost predicate Refiled(r: Refiling, newBuckets: array<Bucket>, ideal: nat)
    reads newBuckets, r.l.place.Keys
  {
    && newBuckets.Length == |r.chains| && ideal > 0
    && AllRefiled(r)
    && (forall j {:trigger NewBucketMirrors(r.chains, newBuckets, ideal, j)} | 0 <= j < |r.chains| :: NewBucketMirrors(r.chains, newBuckets, ideal, j))
  }

  lemma RefileEnds(r: Refiling, newBuckets: array<Bucket>, ideal: nat)
    requires Refiles(r, newBuckets, ideal, |r.l.chains|, 0)
    ensures var d := r.Done();
      && d.Valid() && r.l.Doubled(d)
      && (forall p {:trigger ItemMirrors(d, p)} | p in d.place :: ItemMirrors(d, p))
      && (forall b {:trigger BucketMirrors(d.chains, newBuckets, b)} | 0 <= b < |d.chains| :: BucketMirrors(d.chains, newBuckets, b))
    ensures newBuckets.Length == |r.chains|
    ensures forall b | 0 <= b < newBuckets.Length ::
      newBuckets[b].expandMult == if |r.chains[b]| > ideal then |r.chains[b]| / ideal else 0
  {
    assert Shown(0);
    var d := r.Done();
    r.DoneValid(0);
    forall p | p in d.place ensures ItemMirrors(d, p) {
      assert RefileWritten(r, p) && r.FiledOK(p, |r.l.chains|, 0) && d.PlaceOK(p);
    }
    forall b | 0 <= b < |d.chains|
      ensures BucketMirrors(d.chains, newBuckets, b)
      ensures newBuckets[b].expandMult == if |r.chains[b]| > ideal then |r.chains[b]| / ideal else 0
    {
      assert NewBucketMirrors(r.chains, newBuckets, ideal, b);
    }
  }

  // q's links once p is taken out of the order and out of its chain
  ghost predicate DeleteWritten(was: Layout, p: Item, q: Item)
    requires p in was.place && was.PlaceOK(p)
    reads q
  {
    && q in was.place && was.PlaceOK(q) && q.hashv == was.hash(q.key)
    && q.prev == (if was.Prev(q) == p then was.Prev(p) else was.Prev(q))
    && q.next == (if was.Next(q) == p then was.Next(p) else was.Next(q))
    && q.hhNext == (if was.HhNext(q) == p then was.HhNext(p) else was.HhNext(q))
    && q.hhPrev == (if was.HhPrev(q) == p then was.HhPrev(p) else was.HhPrev(q))
  }

  // q's links once p is taken out of the order but is still in its chain
  ghost predicate DeleteLate(was: Layout, p: Item, q: Item)
    requires p in was.place && was.PlaceOK(p)
    reads q
  {
    && q in was.place && was.PlaceOK(q) && q.hashv == was.hash(q.key)
    && q.prev == (if was.Prev(q) == p then was.Prev(p) else was.Prev(q))
    && q.next == (if was.Next(q) == p then was.Next(p) else was.Next(q))
    && q.hhNext == was.HhNext(q) && q.hhPrev == was.HhPrev(q)
  }

  ghost predicate AllLate(was: Layout, p: Item)
    requires p in was.place && was.PlaceOK(p)
    reads was.place.Keys
  {
    forall q {:trigger DeleteLate(was, p, q)} | q in was.place && q != p :: DeleteLate(was, p, q)
  }

  ghost predicate AllDeleted(was: Layout, p: Item)
    requires p in was.place && was.PlaceOK(p)
    reads was.place.Keys
  {
    forall q {:trigger DeleteWritten(was, p, q)} | q in was.place && q != p :: DeleteWritten(was, p, q)
  }

  lemma DeleteMirrors(was: Layout, p: Item)
    requires was.Deletable(p) && AllDeleted(was, p)
    ensures was.Delete(p).Valid()
    ensures forall q {:trigger ItemMirrors(was.Delete(p), q)} | q in was.Delete(p).place :: ItemMirrors(was.Delete(p), q)
  {
    var l := was.Delete(p);
    was.DeleteValid(p);
    forall q | q in l.place ensures ItemMirrors(l, q) {
      assert DeleteWritten(was, p, q);
      was.DeleteLinks(p, q);
    }
  }

  // The links of p during a pass of a sort: relinked, or still those of the list the pass started from.
  ghost predicate MergeWritten(g: Merging, p: Item)
    reads p
  {
    && p in g.l.place && g.l.PlaceOK(p) && p in g.at && g.AtOK(p)
    && p.hashv == g.l.hash(p.key) && p.hhPrev == g.l.HhPrev(p) && p.hhNext == g.l.HhNext(p)
    && (if p in g.slot then Relinked(g, p) else p.next == g.Follower(p))
  }

  ghost predicate Relinked(g: Merging, p: Item)
    requires p in g.slot
    reads p
  {
    var x := g.slot[p];
    && x < |g.done| && g.done[x] == p
    && p.prev == (if x > 0 then g.done[x - 1] else null) && (x + 1 < |g.done| ==> p.next == g.done[x + 1])
  }

  ghost predicate AllWritten(g: Merging)
    reads g.l.place.Keys
  {
    forall p {:trigger MergeWritten(g, p)} | p in g.l.place :: MergeWritten(g, p)
  }

  ghost function Nth(s: seq<Item>, i: nat): Item? {
    if i < |s| then s[i] else null
  }

  ghost function Mults(buckets: array<Bucket>): seq<nat>
    reads buckets
  {
    seq(buckets.Length, b requires 0 <= b < buckets.Length reads buckets => buckets[b].expandMult)
  }

  class Table {
    const hash: seq<byte> -> nat
    var head: Item?
    var tail: Item?
    var buckets: array<Bucket>
    var numBuckets: nat
    var log2NumBuckets: nat
    var numItems: nat
    var idealChainMaxlen: nat
    var nonidealItems: nat
    var ineffExpands: nat
    var noexpand: bool
    ghost var layout: Layout

    // the table is as the layout says
    ghost predicate Mirrors()
      reads this, buckets, layout.place.Keys
    {
      && layout.hash == hash && layout.Valid() && Sized()
      && (forall p {:trigger ItemMirrors(layout, p)} | p in layout.place :: ItemMirrors(layout, p))
      && Filled()
    }

    ghost predicate Filled()
      reads this, buckets
    {
      forall b {:trigger BucketMirrors(layout.chains, buckets, b)} | 0 <= b < |layout.chains| :: BucketMirrors(layout.chains, buckets, b)
    }

    ghost predicate Sized()
      reads this
    {
      && log2NumBuckets == layout.log2 && numBuckets == buckets.Length == |layout.chains|
      && numItems == |layout.order| && tail == Top(layout.order)
      && head == if layout.order == [] then null else layout.order[0]
    }

    ghost predicate Valid()
      reads this, buckets, layout.place.Keys
    {
      if head == null then layout.hash == hash && layout.order == [] && layout.place == map[] && layout.byKey == map[] else Mirrors()
    }

    // what the fields say, whether there is a table or not
    ghost function Books(): Account
      reads this, buckets
    {
      Account(layout, Mults(buckets), idealChainMaxlen, nonidealItems, ineffExpands, noexpand)
    }

    // The table as a value. Without items there is none, whatever the fields say.
    ghost function Value(): Account
      reads this, buckets
    {
      if head == null then NoTable(hash) else Books()
    }

    // nothing but the items and their links was changed
    twostate predicate Kept()
      reads this, buckets
    {
      && buckets == old(buckets) && Mults(buckets) == old(Mults(buckets)) && idealChainMaxlen == old(idealChainMaxlen)
      && nonidealItems == old(nonidealItems) && ineffExpands == old(ineffExpands) && noexpand == old(noexpand)
    }

    constructor (hash: seq<byte> -> nat)
      ensures Value() == NoTable(hash)
      ensures Valid() && this.hash == hash && layout.byKey == map[] && layout.order == [] && fresh(buckets)
    {
      this.hash, head, tail := hash, null, null;
      buckets := new Bucket[0];
      numBuckets, log2NumBuckets, numItems, idealChainMaxlen, nonidealItems, ineffExpands, noexpand := 0, 0, 0, 0, 0, 0, false;
      layout := Layout(hash, 0, [], map[], [[]], map[], map[]);
    }

    method MakeTable()
      requires layout.hash == hash && layout.order == [] && layout.place == map[] && layout.byKey == map[] && head == null
      modifies this
      ensures Mirrors() && fresh(buckets) && layout.order == [] && layout.byKey == map[] && layout.place == map[] && head == null
      ensures Books() == NoTable(hash)
    {
      ClearCounts();
      buckets := new Bucket[INITIAL_NUM_BUCKETS](_ => Bucket(null, 0, 0));
      layout := EmptyLayout(hash);
      EmptyValid(hash);
    }

    method ClearCounts()
      modifies this
      ensures head == old(head) && buckets == old(buckets) && layout == old(layout) && tail == null && numItems == 0
      ensures numBuckets == INITIAL_NUM_BUCKETS && log2NumBuckets == INITIAL_NUM_BUCKETS_LOG2
      ensures idealChainMaxlen == 0 && nonidealItems == 0 && ineffExpands == 0 && !noexpand
    {
      tail, numItems := null, 0;
      numBuckets, log2NumBuckets := INITIAL_NUM_BUCKETS, INITIAL_NUM_BUCKETS_LOG2;
      idealChainMaxlen, nonidealItems, ineffExpands, noexpand := 0, 0, 0, false;
    }

    // PB_HASH_TO_BKT
    function ToBucket(hashv: nat, buckets: nat): nat
      requires buckets > 0
    {
      And(hashv, buckets - 1)
    }

    method LinkLast(p: Item)
      requires Mirrors() && layout.Addable(p)
      modifies this`head, this`tail, this`numItems, p, tail
      ensures p.prev == Top(layout.order) && p.next == null
      ensures tail == p && head == (if layout.order == [] then p else layout.order[0]) && numItems == |layout.order| + 1
      ensures forall q {:trigger ItemLate(layout, p, q)} | q in layout.place :: ItemLate(layout, p, q)
    {
      assert |layout.order| > 0 ==> layout.NthOK(|layout.order| - 1);
      p.next := null;
      if head == null {
        head := p;
        p.prev := null;
      } else {
        tail.next := p;
        p.prev := tail;
      }
      tail := p;
      numItems := numItems + 1;
      forall q | q in layout.place ensures ItemLate(layout, p, q) {
        assert old(ItemMirrors(layout, q));
      }
    }

    // p pushed on the chain of its bucket
    method LinkFirst(p: Item, b: nat)
      requires layout.Addable(p) && b == layout.Bucket(p.key) < |layout.chains| == buckets.Length
      requires BucketMirrors(layout.chains, buckets, b)
      requires forall q {:trigger ItemLate(layout, p, q)} | q in layout.place :: ItemLate(layout, p, q)
      modifies buckets, p`hhPrev, p`hhNext, buckets[b].head
      ensures p.hhPrev == null && p.hhNext == Top(layout.chains[b])
      ensures forall q {:trigger AddWritten(layout, p, q)} | q in layout.place :: AddWritten(layout, p, q)
      ensures forall c | 0 <= c < buckets.Length && c != b :: buckets[c] == old(buckets[c])
      ensures buckets[b].count == |layout.chains[b]| + 1 && buckets[b].head == p && buckets[b].expandMult == old(buckets[b].expandMult)
    {
      assert layout.ChainOK(b);
      ghost var top := buckets[b].head;
      buckets[b] := buckets[b].(count := buckets[b].count + 1);
      p.hhNext := buckets[b].head;
      p.hhPrev := null;
      if buckets[b].head != null {
        buckets[b].head.hhPrev := p;
      }
      buckets[b] := buckets[b].(head := p);
      forall q | q in layout.place ensures AddWritten(layout, p, q) {
        assert old(ItemLate(layout, p, q));
      }
    }

    lemma Heads(b: nat)
      requires Mirrors() && b < |layout.chains|
      ensures BucketMirrors(layout.chains, buckets, b)
      ensures tail != null ==> tail in layout.place
      ensures buckets[b].head != null ==> buckets[b].head in layout.place
    {
      assert |layout.order| > 0 ==> layout.NthOK(|layout.order| - 1);
      assert BucketMirrors(layout.chains, buckets, b);
      assert layout.ChainOK(b);
    }

    method Link(p: Item) returns (b: nat)
      requires Mirrors() && layout.Addable(p)
      modifies this`head, this`tail, this`numItems, this`layout, buckets, p, layout.place.Keys
      ensures Mirrors() && layout == old(layout).Add(p) && b == layout.Bucket(p.key)
      ensures Kept() && head != null
    {
      ghost var was := layout;
      Heads(was.Bucket(p.key));
      LinkLast(p);
      p.hashv := hash(p.key);
      b := ToBucket(p.hashv, numBuckets);
      LinkChain(p, b);
      AddMirrors(was, p);
      layout := was.Add(p);
    }

    // the same with what it means for all buckets
    method LinkChain(p: Item, b: nat)
      requires layout.Addable(p) && b == layout.Bucket(p.key) < |layout.chains| == buckets.Length && Filled()
      requires forall q {:trigger ItemLate(layout, p, q)} | q in layout.place :: ItemLate(layout, p, q)
      modifies buckets, p`hhPrev, p`hhNext, buckets[b].head
      ensures p.hhPrev == null && p.hhNext == Top(layout.chains[b])
      ensures forall q {:trigger AddWritten(layout, p, q)} | q in layout.place :: AddWritten(layout, p, q)
      ensures var chains := layout.Add(p).chains;
        forall c {:trigger BucketMirrors(chains, buckets, c)} | 0 <= c < |chains| :: BucketMirrors(chains, buckets, c)
      ensures Mults(buckets) == old(Mults(buckets))
    {
      assert BucketMirrors(layout.chains, buckets, b);
      LinkFirst(p, b);
      forall c | 0 <= c < |layout.chains| ensures BucketMirrors(layout.Add(p).chains, buckets, c) {
        assert old(BucketMirrors(layout.chains, buckets, c));
      }
    }

    lemma RefileNext(r: Refiling, newBuckets: array<Bucket>, i: nat, k: nat)
      requires Refiles(r, newBuckets, idealChainMaxlen, i, k) && i < |r.l.chains| && k > 0
      ensures var p := r.l.chains[i][k - 1]; var j := r.l.NewBucket(p);
        && p in r.l.place && p !in r.slot && RefileWritten(r, p) && p.hhNext == Top(r.l.chains[i][..k - 1])
        && j < |r.chains| && NewBucketMirrors(r.chains, newBuckets, idealChainMaxlen, j) && Slotted(r, j)
        && And(p.hashv, newBuckets.Length - 1) == j
        && (newBuckets[j].head != null ==> newBuckets[j].head in r.slot && newBuckets[j].head in r.l.place && newBuckets[j].head != p)
    {
      assert Shown(0);
      var l := r.l;
      assert l.ChainOK(i);
      var p := l.chains[i][k - 1];
      assert RefileWritten(r, p) && r.FiledOK(p, i, k);
      var j := l.NewBucket(p);
      assert r.ChainOK(j, i, k);
      assert NewBucketMirrors(r.chains, newBuckets, idealChainMaxlen, j);
    }

    // the items of a new chain know their places in it
    ghost predicate Slotted(r: Refiling, j: nat)
      requires j < |r.chains|
    {
      && r.slot.Keys <= r.l.place.Keys
      && forall m | 0 <= m < |r.chains[j]| ::
          r.chains[j][m] in r.slot && r.slot[r.chains[j][m]] == m && r.l.NewBucket(r.chains[j][m]) == j
    }

    // p linked in front of the head of its new chain
    method PushTop(p: Item, top: Item?, ghost r: Refiling)
      requires p in r.l.place && p !in r.slot && r.l.NewBucket(p) < |r.chains| && Slotted(r, r.l.NewBucket(p))
      requires AllRefiled(r) && top == Top(r.chains[r.l.NewBucket(p)])
      modifies p`hhPrev, p`hhNext, if top == null then {} else {top}
      ensures AllRefiled(r.Push(p))
    {
      assert RefileWritten(r, p);
      p.hhPrev := null;
      p.hhNext := top;
      if top != null {
        top.hhPrev := p;
      }
      forall q | q in r.l.place ensures RefileWritten(r.Push(p), q) {
        assert old(RefileWritten(r, q));
        if q in r.slot { r.PushLinks(p, q); }
      }
    }

    // an item counted and put at the head of its new chain
    method RefileLink(p: Item, newBuckets: array<Bucket>, j: nat, ghost r: Refiling)
      requires p in r.l.place && p !in r.slot && j == r.l.NewBucket(p) < |r.chains| == newBuckets.Length && idealChainMaxlen > 0
      requires AllRefiled(r) && Slotted(r, j)
      requires newBuckets[j].head == Top(r.chains[j]) && newBuckets[j].count == |r.chains[j]|
      modifies this`nonidealItems, newBuckets, p`hhPrev, p`hhNext, newBuckets[j].head
      ensures var c := |r.chains[j]| + 1; var over := c > idealChainMaxlen;
        && newBuckets[j] == Bucket(p, c, if over then c / idealChainMaxlen else old(newBuckets[j].expandMult))
        && nonidealItems == old(nonidealItems) + (if over then 1 else 0)
      ensures forall c | 0 <= c < newBuckets.Length && c != j :: newBuckets[c] == old(newBuckets[c])
      ensures AllRefiled(r.Push(p))
    {
      newBuckets[j] := newBuckets[j].(count := newBuckets[j].count + 1);
      if newBuckets[j].count > idealChainMaxlen {
        nonidealItems := nonidealItems + 1;
        newBuckets[j] := newBuckets[j].(expandMult := newBuckets[j].count / idealChainMaxlen);
      }
      PushTop(p, newBuckets[j].head, r);
      newBuckets[j] := newBuckets[j].(head := p);
    }

    // the same with what it means for the new table as a whole
    method RefilePush(p: Item, newBuckets: array<Bucket>, j: nat, ghost r: Refiling)
      requires p in r.l.place && p !in r.slot && j == r.l.NewBucket(p) < |r.chains| == newBuckets.Length && Slotted(r, j)
      requires Refiled(r, newBuckets, idealChainMaxlen) && nonidealItems == Excess(r.chains, idealChainMaxlen)
      modifies this`nonidealItems, newBuckets, p`hhPrev, p`hhNext, newBuckets[j].head
      ensures Refiled(r.Push(p), newBuckets, idealChainMaxlen) && nonidealItems == Excess(r.Push(p).chains, idealChainMaxlen)
    {
      assert NewBucketMirrors(r.chains, newBuckets, idealChainMaxlen, j);
      RefileLink(p, newBuckets, j, r);
      ghost var chains := r.Push(p).chains;
      ExcessUpdate(r.chains, j, r.chains[j] + [p], idealChainMaxlen);
      forall c | 0 <= c < |chains| ensures NewBucketMirrors(chains, newBuckets, idealChainMaxlen, c) {
        assert old(NewBucketMirrors(r.chains, newBuckets, idealChainMaxlen, c));
      }
    }

    // one item taken from its old chain and filed in its new one
    method RefileItem(p: Item, newBuckets: array<Bucket>, ghost r: Refiling, ghost i: nat, ghost k: nat)
      returns (next: Item?, ghost r': Refiling)
      requires Refiles(r, newBuckets, idealChainMaxlen, i, k) && nonidealItems == Excess(r.chains, idealChainMaxlen)
      requires i < |r.l.chains| && k > 0 && p == r.l.chains[i][k - 1]
      modifies this`nonidealItems, newBuckets, r.l.place.Keys
      ensures r'.l == r.l && Refiles(r', newBuckets, idealChainMaxlen, i, k - 1) && nonidealItems == Excess(r'.chains, idealChainMaxlen)
      ensures next == Top(r.l.chains[i][..k - 1])
    {
      RefileNext(r, newBuckets, i, k);
      next := p.hhNext;
      var j := ToBucket(p.hashv, newBuckets.Length);
      RefilePush(p, newBuckets, j, r);
      r' := r.Push(p);
      r.PushStands(i, k);
    }

    method RefileBucket(i: nat, newBuckets: array<Bucket>, ghost r: Refiling) returns (ghost r': Refiling)
      requires i < |r.l.chains| && Refiles(r, newBuckets, idealChainMaxlen, i, |r.l.chains[i]|) && nonidealItems == Excess(r.chains, idealChainMaxlen)
      requires newBuckets != buckets
      requires i < buckets.Length && buckets[i].head == Top(r.l.chains[i])
      modifies this`nonidealItems, newBuckets, r.l.place.Keys
      ensures r'.l == r.l && Refiles(r', newBuckets, idealChainMaxlen, i, 0) && nonidealItems == Excess(r'.chains, idealChainMaxlen)
    {
      r' := r;
      ghost var c, k: nat := r.l.chains[i], |r.l.chains[i]|;
      assert c[..k] == c;
      var thh := buckets[i].head;
      while thh != null
        invariant k <= |c| && r'.l == r.l && Refiles(r', newBuckets, idealChainMaxlen, i, k) && thh == Top(c[..k])
        invariant nonidealItems == Excess(r'.chains, idealChainMaxlen)
        decreases k
      {
        thh, r' := RefileItem(thh, newBuckets, r', i, k);
        k := k - 1;
      }
    }

    method RefileAll(newBuckets: array<Bucket>, ghost was: Layout) returns (ghost r: Refiling)
      requires Mirrors() && layout == was && newBuckets != buckets && newBuckets.Length == 2 * numBuckets
      requires idealChainMaxlen > 0 && nonidealItems == 0
      requires forall j | 0 <= j < newBuckets.Length :: newBuckets[j] == Bucket(null, 0, 0)
      modifies this`nonidealItems, newBuckets, layout.place.Keys
      ensures r.l == was && Refiles(r, newBuckets, idealChainMaxlen, |was.chains|, 0) && nonidealItems == Excess(r.chains, idealChainMaxlen)
    {
      r := Refiling(was, seq(2 * |was.chains|, _ => []), map[]);
      r.Starts();
      RefileStarts(r, newBuckets);
      var i := 0;
      while i < numBuckets
        invariant BucketsRefiled(r, newBuckets, was, i)
      {
        assert old(BucketMirrors(was.chains, buckets, i));
        r := RefileOne(i, newBuckets, r);
        i := i + 1;
      }
    }

    // the first i old buckets refiled, and the next one at hand
    ghost predicate BucketsRefiled(r: Refiling, newBuckets: array<Bucket>, was: Layout, i: nat)
      reads this, newBuckets, was.place.Keys
    {
      && i <= |was.chains| && r.l == was && nonidealItems == Excess(r.chains, idealChainMaxlen)
      && Refiles(r, newBuckets, idealChainMaxlen, i, if i < |was.chains| then |was.chains[i]| else 0)
    }

    method RefileOne(i: nat, newBuckets: array<Bucket>, ghost r: Refiling) returns (ghost r': Refiling)
      requires i < |r.l.chains| && BucketsRefiled(r, newBuckets, r.l, i)
      requires newBuckets != buckets && i < buckets.Length && buckets[i].head == Top(r.l.chains[i])
      modifies this`nonidealItems, newBuckets, r.l.place.Keys
      ensures BucketsRefiled(r', newBuckets, r.l, i + 1)
    {
      ghost var next := i + 1;
      ghost var k: nat := if next < |r.l.chains| then |r.l.chains[next]| else 0;
      r' := RefileBucket(i, newBuckets, r);
      r'.StandsNext(i, k);
    }

    lemma RefileStarts(r: Refiling, newBuckets: array<Bucket>)
      requires Mirrors() && r.l == layout && newBuckets.Length == |r.chains| && r.slot == map[]
      requires idealChainMaxlen > 0 && nonidealItems == 0
      requires forall j | 0 <= j < |r.chains| :: r.chains[j] == [] && newBuckets[j] == Bucket(null, 0, 0)
      ensures Refiled(r, newBuckets, idealChainMaxlen) && nonidealItems == Excess(r.chains, idealChainMaxlen)
    {
      NoExcess(r.chains, idealChainMaxlen);
      forall p | p in r.l.place ensures RefileWritten(r, p) { assert ItemMirrors(layout, p); }
    }

    method Measure()
      requires Mirrors() && layout.order != []
      modifies this`idealChainMaxlen, this`nonidealItems
      ensures Mirrors() && nonidealItems == 0 && idealChainMaxlen > 0
      ensures numItems <= idealChainMaxlen * (2 * numBuckets) && (idealChainMaxlen - 1) * (2 * numBuckets) < numItems
    {
      CeilByShift(numItems, log2NumBuckets + 1);
      idealChainMaxlen := ShiftRight(numItems, log2NumBuckets + 1) + if And(numItems, numBuckets * 2 - 1) != 0 then 1 else 0;
      nonidealItems := 0;
    }

    // two expansions in a row that help fewer than half of the items are the last
    method Judge(ghost was: Account)
      requires Mirrors() && was.l.Doubled(layout) && Books().Counted() && ineffExpands == was.ineff && noexpand == was.noexpand
      modifies this`ineffExpands, this`noexpand
      ensures Mirrors() && was.Doubles(Books())
    {
      assert ShiftRight(numItems, 1) == ShiftRight(numItems / 2, 0);
      ineffExpands := if nonidealItems > ShiftRight(numItems, 1) then ineffExpands + 1 else 0;
      if ineffExpands > 1 {
        noexpand := true;
      }
    }

    // the new buckets in place of the old ones
    method Adopt(newBuckets: array<Bucket>, ghost r: Refiling)
      requires Sized() && r.l == layout && layout.hash == hash && Refiles(r, newBuckets, idealChainMaxlen, |layout.chains|, 0)
      requires nonidealItems == Excess(r.chains, idealChainMaxlen)
      requires numItems <= idealChainMaxlen * (2 * numBuckets) && (idealChainMaxlen - 1) * (2 * numBuckets) < numItems
      modifies this`buckets, this`numBuckets, this`log2NumBuckets, this`layout
      ensures Mirrors() && buckets == newBuckets && old(layout).Doubled(layout) && Books().Counted()
    {
      numBuckets := numBuckets * 2;
      log2NumBuckets := log2NumBuckets + 1;
      buckets := newBuckets;
      layout := r.Done();
      RefileEnds(r, newBuckets, idealChainMaxlen);
    }

    method Expand()
      requires Mirrors() && layout.order != []
      modifies this, layout.place.Keys
      ensures Mirrors() && fresh(buckets) && head == old(head) && old(Books()).Doubles(Books())
    {
      var newBuckets := new Bucket[2 * numBuckets](_ => Bucket(null, 0, 0));
      ghost var was := Books();
      Measure();
      ghost var r := RefileAll(newBuckets, layout);
      Adopt(newBuckets, r);
      Judge(was);
    }

    // An item with a key of its own added to the end of the order. The buckets are doubled when its
    // chain has come to its limit, unless doubling has been given up.
    method Add(p: Item)
      requires Valid() && p.key !in layout.byKey
      modifies this, buckets, p, layout.place.Keys
      ensures Valid() && head != null && old(Value()).Adds(p, Value())
      ensures layout.byKey == old(layout.byKey)[p.key := p] && layout.order == old(layout.order) + [p]
      ensures layout.place.Keys == old(layout).place.Keys + {p} && (buckets == old(buckets) || fresh(buckets))
    {
      if head == null {
        MakeTable();
      }
      AddReady(p);
    }

    // the table is there, and the item not in it
    method AddReady(p: Item)
      requires Mirrors() && p.key !in layout.byKey
      modifies this, buckets, p, layout.place.Keys
      ensures Mirrors() && head != null && old(Books()).Adds(p, Books())
      ensures layout.byKey == old(layout.byKey)[p.key := p] && layout.order == old(layout.order) + [p]
      ensures layout.place.Keys == old(layout).place.Keys + {p} && (buckets == old(buckets) || fresh(buckets))
    {
      assert p in layout.place ==> layout.PlaceOK(p);
      var b := Link(p);
      ExpandIfFull(b);
    }

    // the buckets doubled if chain b has come to its limit, unless doubling has been given up
    method ExpandIfFull(b: nat)
      requires Mirrors() && layout.order != [] && b < |layout.chains|
      modifies this, layout.place.Keys
      ensures Mirrors() && (buckets == old(buckets) || fresh(buckets)) && head == old(head)
      ensures old(Books()).Settles(b, Books())
    {
      assert BucketMirrors(layout.chains, buckets, b);
      if buckets[b].count >= (buckets[b].expandMult + 1) * BKT_CAPACITY_THRESH && !noexpand {
        Expand();
      }
    }

    // PB_HASH_FIND_IN_BKT
    method FindInBucket(b: nat, key: seq<byte>) returns (out: Item?)
      requires Mirrors() && b == layout.Bucket(key)
      ensures out == if key in layout.byKey then layout.byKey[key] else null
    {
      ghost var c := layout.chains[b];
      ghost var k: nat := |c|;
      assert BucketMirrors(layout.chains, buckets, b);
      assert layout.ChainOK(b);
      assert key in layout.byKey ==> layout.KeyOK(key) && layout.PlaceOK(layout.byKey[key]);
      out := buckets[b].head;
      while out != null
        invariant k <= |c| && out == Top(c[..k])
        invariant forall m | k <= m < |c| :: c[m].key != key
        decreases k
      {
        assert out == c[k - 1];
        assert layout.PlaceOK(out);
        if out.key == key { return; }
        assert ItemMirrors(layout, out);
        out := out.hhNext;
        k := k - 1;
      }
    }

    method Find(key: seq<byte>) returns (out: Item?)
      requires Valid()
      ensures out == if key in layout.byKey then layout.byKey[key] else null
    {
      out := null;
      if head != null {
        var b := ToBucket(hash(key), numBuckets);
        out := FindInBucket(b, key);
      }
    }

    method UnlinkOrder(p: Item)
      requires Mirrors() && layout.Deletable(p) && |layout.order| > 1
      modifies this`head, this`tail, this`numItems, p.prev, p.next
      ensures numItems == |layout.order| - 1
      ensures head == layout.Delete(p).order[0] && tail == Top(layout.Delete(p).order)
      ensures p.hhPrev == layout.HhPrev(p) && p.hhNext == layout.HhNext(p)
      ensures AllLate(layout, p)
    {
      Touched(p);
      layout.DeleteEnds(p);
      assert ItemMirrors(layout, p);
      if p == tail {
        tail := p.prev;
      }
      if p.prev == null {
        head := p.next;
      }
      numItems := numItems - 1;
      Bridge(p);
    }

    // the neighbours of p in the order linked to one another
    method Bridge(p: Item)
      requires layout.Deletable(p) && ItemMirrors(layout, p) && p.prev != p && p.next != p
      requires forall q {:trigger ItemMirrors(layout, q)} | q in layout.place :: ItemMirrors(layout, q)
      modifies p.prev, p.next
      ensures p.hhPrev == layout.HhPrev(p) && p.hhNext == layout.HhNext(p)
      ensures AllLate(layout, p)
    {
      if p.prev != null {
        p.prev.next := p.next;
      }
      if p.next != null {
        p.next.prev := p.prev;
      }
      forall q | q in layout.place && q != p ensures DeleteLate(layout, p, q) {
        assert old(ItemMirrors(layout, q));
        layout.Neighbours(p, q);
      }
    }

    // PB_HASH_DEL_IN_BKT
    method UnlinkBucket(p: Item, b: nat)
      requires layout.Deletable(p) && b == layout.Bucket(p.key) < |layout.chains| == buckets.Length
      requires BucketMirrors(layout.chains, buckets, b) && p.hhPrev == layout.HhPrev(p) && p.hhNext == layout.HhNext(p)
      requires AllLate(layout, p)
      modifies buckets, p.hhPrev, p.hhNext
      ensures BucketMirrors(layout.Delete(p).chains, buckets, b)
      ensures forall c | 0 <= c < buckets.Length && c != b :: buckets[c] == old(buckets[c])
      ensures buckets[b].expandMult == old(buckets[b].expandMult)
      ensures AllDeleted(layout, p)
    {
      assert layout.ChainOK(b);
      buckets[b] := buckets[b].(count := buckets[b].count - 1);
      if buckets[b].head == p {
        buckets[b] := buckets[b].(head := p.hhNext);
      }
      BridgeChain(p);
    }

    // the neighbours of p in its chain linked to one another
    method BridgeChain(p: Item)
      requires layout.Deletable(p) && p.hhPrev == layout.HhPrev(p) && p.hhNext == layout.HhNext(p) && AllLate(layout, p)
      modifies p.hhPrev, p.hhNext
      ensures AllDeleted(layout, p)
    {
      assert layout.ChainOK(layout.Bucket(p.key));
      if p.hhPrev != null {
        p.hhPrev.hhNext := p.hhNext;
      }
      if p.hhNext != null {
        p.hhNext.hhPrev := p.hhPrev;
      }
      forall q | q in layout.place && q != p ensures DeleteWritten(layout, p, q) {
        assert old(DeleteLate(layout, p, q));
        layout.Neighbours(p, q);
      }
    }

    lemma Only(p: Item)
      requires Mirrors() && layout.Deletable(p) && layout.Prev(p) == null && layout.Next(p) == null
      ensures layout.Delete(p).order == [] && layout.Delete(p).place == map[] && layout.Delete(p).byKey == map[]
    {
      var l := layout.Delete(p);
      forall q | q in l.place ensures false { layout.DeletePlace(p, q); }
      layout.DeleteValid(p);
      forall k | k in l.byKey ensures false { assert l.KeyOK(k); }
    }

    method Delete(p: Item)
      requires Valid() && p in layout.place
      modifies this, buckets, layout.place.Keys
      ensures Valid() && buckets == old(buckets)
      ensures p.key in old(layout.byKey) && layout.byKey == old(layout.byKey) - {p.key} && old(layout.Deletable(p))
      ensures layout.order == RemoveAt(old(layout.order), old(layout).place[p])
      ensures layout.place.Keys == old(layout).place.Keys - {p} && Value() == old(Value()).Less(p)
    {
      ghost var was := layout;
      assert was.PlaceOK(p) && ItemMirrors(was, p);
      if p.prev == null && p.next == null {
        Only(p);
        head := null;
        layout := was.Delete(p);
      } else {
        assert |was.order| > 1;
        DeleteOne(p);
      }
    }

    method DeleteOne(p: Item)
      requires Mirrors() && layout.Deletable(p) && |layout.order| > 1
      modifies this`head, this`tail, this`numItems, this`layout, buckets, layout.place.Keys
      ensures Mirrors() && head != null && layout == old(layout).Delete(p) && Kept()
    {
      ghost var was := layout;
      Unlink(p);
      DeleteMirrors(was, p);
      layout := was.Delete(p);
    }

    // p taken out of the order and out of its chain
    method Unlink(p: Item)
      requires Mirrors() && layout.Deletable(p) && |layout.order| > 1
      modifies this`head, this`tail, this`numItems, buckets, layout.place.Keys
      ensures numItems == |layout.order| - 1
      ensures head == layout.Delete(p).order[0] && tail == Top(layout.Delete(p).order)
      ensures var chains := layout.Delete(p).chains;
        forall c {:trigger BucketMirrors(chains, buckets, c)} | 0 <= c < |layout.chains| :: BucketMirrors(chains, buckets, c)
      ensures AllDeleted(layout, p) && Mults(buckets) == old(Mults(buckets))
    {
      Touched(p);
      UnlinkOrder(p);
      var b := ToBucket(p.hashv, numBuckets);
      UnlinkChain(p, b);
    }

    // the same with what it means for all buckets
    method UnlinkChain(p: Item, b: nat)
      requires layout.Deletable(p) && b == layout.Bucket(p.key) < |layout.chains| == buckets.Length
      requires forall c {:trigger BucketMirrors(layout.chains, buckets, c)} | 0 <= c < |layout.chains| :: BucketMirrors(layout.chains, buckets, c)
      requires p.hhPrev == layout.HhPrev(p) && p.hhNext == layout.HhNext(p) && AllLate(layout, p)
      modifies buckets, p.hhPrev, p.hhNext
      ensures var chains := layout.Delete(p).chains;
        forall c {:trigger BucketMirrors(chains, buckets, c)} | 0 <= c < |layout.chains| :: BucketMirrors(chains, buckets, c)
      ensures AllDeleted(layout, p) && Mults(buckets) == old(Mults(buckets))
    {
      ghost var was := layout;
      assert BucketMirrors(was.chains, buckets, b);
      UnlinkBucket(p, b);
      forall c | 0 <= c < |was.chains| && c != b ensures BucketMirrors(was.chains, buckets, c) {
        assert old(BucketMirrors(was.chains, buckets, c));
      }
      DeleteBuckets(was, p, b);
    }

    lemma DeleteBuckets(was: Layout, p: Item, b: nat)
      requires was.Deletable(p) && b == was.Bucket(p.key) && buckets.Length == |was.chains| && b < |was.chains|
      requires BucketMirrors(was.Delete(p).chains, buckets, b)
      requires forall c {:trigger BucketMirrors(was.chains, buckets, c)} | 0 <= c < |was.chains| && c != b :: BucketMirrors(was.chains, buckets, c)
      ensures forall c {:trigger BucketMirrors(was.Delete(p).chains, buckets, c)} | 0 <= c < |was.chains| :: BucketMirrors(was.Delete(p).chains, buckets, c)
    {
      forall c | 0 <= c < |was.chains| ensures BucketMirrors(was.Delete(p).chains, buckets, c) {
        assert c != b ==> BucketMirrors(was.chains, buckets, c);
      }
    }

    lemma Touched(p: Item)
      requires Mirrors() && layout.Deletable(p)
      ensures p.hashv == hash(p.key) && BucketMirrors(layout.chains, buckets, layout.Bucket(p.key))
      ensures (p.prev != null ==> p.prev in layout.place && p.prev != p) && (p.next != null ==> p.next in layout.place && p.next != p)
      ensures (p.hhPrev != null ==> p.hhPrev in layout.place && p.hhPrev != p) && (p.hhNext != null ==> p.hhNext in layout.place && p.hhNext != p)
    {
      assert ItemMirrors(layout, p);
      assert layout.place[p] > 0 ==> layout.NthOK(layout.place[p] - 1);
      assert layout.place[p] + 1 < |layout.order| ==> layout.NthOK(layout.place[p] + 1);
      assert layout.ChainOK(layout.Bucket(p.key));
      assert BucketMirrors(layout.chains, buckets, layout.Bucket(p.key));
    }

    // e put behind the last item relinked
    method Append(e: Item, list: Item?, tail: Item?, ghost g: Merging, ghost g': Merging) returns (list': Item?)
      requires g' == g.Push(e) && AllWritten(g) && e in g.l.place && e !in g.slot && tail == Top(g.done) && list == Nth(g.done, 0)
      requires tail != null ==> tail in g.slot && tail in g.l.place && g.slot[tail] == |g.done| - 1
      modifies e`prev, if tail != null then {tail} else {}
      ensures AllWritten(g') && list' == Nth(g'.done, 0) && e == Top(g'.done)
    {
      list' := list;
      assert MergeWritten(g, e);
      if tail != null {
        tail.next := e;
      } else {
        list' := e;
      }
      e.prev := tail;
      forall p | p in g.l.place ensures MergeWritten(g', p) {
        assert old(MergeWritten(g, p));
      }
    }

    // where the pointers of a merge stand: p with psize items of the left run to come, q with up to qsize of the right
    ghost predicate Cursors(r: Round, p: Item?, q: Item?, psize: nat, qsize: nat) {
      && r.i + psize == r.m <= |r.g.s| && (psize > 0 ==> p == r.g.s[r.i])
      && q == Nth(r.g.s, r.j) && r.e == (if r.j + qsize < |r.g.s| then r.j + qsize else |r.g.s|)
    }

    lemma TailItem(r: Round, tail: Item?)
      requires r.Stands() && AllWritten(r.g) && tail == Top(r.g.done)
      ensures tail != null ==> tail in r.g.slot && tail in r.g.l.place && r.g.slot[tail] == |r.g.done| - 1
    {
      if tail != null { assert r.g.DoneOK(|r.g.done| - 1); }
    }

    lemma CursorItems(r: Round, p: Item?, q: Item?, psize: nat, qsize: nat)
      requires r.Stands() && AllWritten(r.g) && Cursors(r, p, q, psize, qsize)
      ensures psize > 0 ==> p in r.g.l.place && p !in r.g.slot && (psize > 1 ==> p.next == Nth(r.g.s, r.i + 1))
      ensures q != null ==> r.j < |r.g.s| && q in r.g.l.place && q !in r.g.slot && q.next == Nth(r.g.s, r.j + 1)
    {
      var g := r.g;
      if psize > 0 {
        assert g.NthOK(r.i) && g.SlotOK(p, r.i, r.m, r.j) && MergeWritten(g, p);
      }
      if q != null {
        assert g.NthOK(r.j) && g.SlotOK(q, r.i, r.m, r.j) && MergeWritten(g, q);
      }
    }

    method TakeP(p: Item?, q: Item?, psize: nat, qsize: nat, ghost r: Round)
      returns (p': Item?, psize': nat, ghost r': Round)
      requires r.Stands() && AllWritten(r.g) && Cursors(r, p, q, psize, qsize) && psize > 0
      requires r.j < r.e ==> r.o.Le(p, r.g.s[r.j])
      ensures p in r.g.l.place && p !in r.g.slot && r.Same(r') && r'.Stands() && r'.g == r.g.Push(p)
      ensures Cursors(r', p', q, psize', qsize) && psize' + (r'.e - r'.j) < psize + (r.e - r.j)
    {
      CursorItems(r, p, q, psize, qsize);
      r.LeftStands();
      r' := r.Left();
      p', psize' := p.next, psize - 1;
    }

    method TakeQ(p: Item?, q: Item?, psize: nat, qsize: nat, ghost r: Round)
      returns (q': Item?, qsize': nat, ghost r': Round)
      requires r.Stands() && AllWritten(r.g) && Cursors(r, p, q, psize, qsize) && qsize > 0 && q != null
      requires psize > 0 ==> !r.o.Le(p, q)
      ensures q in r.g.l.place && q !in r.g.slot && r.Same(r') && r'.Stands() && r'.g == r.g.Push(q)
      ensures Cursors(r', p, q', psize, qsize') && psize + (r'.e - r'.j) < psize + (r.e - r.j)
    {
      CursorItems(r, p, q, psize, qsize);
      r.RightStands();
      r' := r.Right();
      q', qsize' := q.next, qsize - 1;
    }

    // the next item of two runs
    method Pick(cmp: (Item, Item) -> int, p: Item?, q: Item?, psize: nat, qsize: nat, ghost r: Round)
      returns (e: Item, p': Item?, q': Item?, psize': nat, qsize': nat, ghost r': Round)
      requires r.Stands() && r.o.cmp == cmp && AllWritten(r.g) && Cursors(r, p, q, psize, qsize)
      requires psize > 0 || (qsize > 0 && q != null)
      ensures e in r.g.l.place && e !in r.g.slot && r.Same(r') && r'.Stands() && r'.g == r.g.Push(e)
      ensures Cursors(r', p', q', psize', qsize') && psize' + (r'.e - r'.j) < psize + (r.e - r.j)
    {
      p', q', psize', qsize' := p, q, psize, qsize;
      if psize == 0 {
        e := q;
        q', qsize', r' := TakeQ(p, q, psize, qsize, r);
      } else if qsize == 0 || q == null {
        e := p;
        p', psize', r' := TakeP(p, q, psize, qsize, r);
      } else if cmp(p, q) <= 0 {
        e := p;
        p', psize', r' := TakeP(p, q, psize, qsize, r);
      } else {
        e := q;
        q', qsize', r' := TakeQ(p, q, psize, qsize, r);
      }
    }

    // a merge that started as r0 and has come to r
    ghost predicate Merges(r0: Round, r: Round, p: Item?, q: Item?, psize: nat, qsize: nat, list: Item?, tail: Item?)
      reads r.g.l.place.Keys
    {
      forall u {:trigger Shown(u)} :: Shown(u) ==>
        && r0.Same(r) && r.Stands() && AllWritten(r.g) && Cursors(r, p, q, psize, qsize)
        && list == Nth(r.g.done, 0) && tail == Top(r.g.done)
    }

    // the next item of two runs, relinked
    method MergeOne(cmp: (Item, Item) -> int, p: Item?, q: Item?, psize: nat, qsize: nat, list: Item?, tail: Item?,
                    ghost r0: Round, ghost r: Round)
      returns (p': Item?, q': Item?, psize': nat, qsize': nat, list': Item?, tail': Item?, ghost r': Round)
      requires r0.o.cmp == cmp && Merges(r0, r, p, q, psize, qsize, list, tail) && (psize > 0 || (qsize > 0 && q != null))
      modifies r0.g.l.place.Keys
      ensures Merges(r0, r', p', q', psize', qsize', list', tail')
      ensures r'.e == r.e && r'.j <= r'.e && psize' + (r'.e - r'.j) < psize + (r.e - r.j)
    {
      assert Shown(0);
      TailItem(r, tail);
      var e: Item;
      e, p', q', psize', qsize', r' := Pick(cmp, p, q, psize, qsize, r);
      list' := Append(e, list, tail, r.g, r'.g);
      tail' := e;
      MergesOn(r0, r, r', p', q', psize', qsize', list', tail');
    }

    lemma MergesOn(r0: Round, r: Round, r': Round, p: Item?, q: Item?, psize: nat, qsize: nat, list: Item?, tail: Item?)
      requires r0.Same(r) && r.Same(r') && r'.Stands() && AllWritten(r'.g) && Cursors(r', p, q, psize, qsize)
      requires list == Nth(r'.g.done, 0) && tail == Top(r'.g.done)
      ensures Merges(r0, r', p, q, psize, qsize, list, tail)
    {}

    // two runs merged behind what is relinked
    method MergeRuns(cmp: (Item, Item) -> int, p0: Item?, q0: Item?, psize0: nat, qsize0: nat, list0: Item?,
                     tail0: Item?, ghost r: Round)
      returns (q: Item?, list: Item?, tail: Item?, ghost r': Round)
      requires r.Stands() && r.o.cmp == cmp && AllWritten(r.g) && Cursors(r, p0, q0, psize0, qsize0)
      requires list0 == Nth(r.g.done, 0) && tail0 == Top(r.g.done)
      modifies r.g.l.place.Keys
      ensures r.Same(r') && r'.Stands() && r'.i == r'.m && r'.j == r'.e && AllWritten(r'.g)
      ensures q == Nth(r'.g.s, r'.e) && list == Nth(r'.g.done, 0) && tail == Top(r'.g.done)
    {
      r' := r;
      q, list, tail := q0, list0, tail0;
      var p, psize: nat, qsize: nat := p0, psize0, qsize0;
      while psize > 0 || (qsize > 0 && q != null)
        invariant Merges(r, r', p, q, psize, qsize, list, tail) && r'.j <= r'.e
        decreases psize + (r'.e - r'.j)
      {
        p, q, psize, qsize, list, tail, r' := MergeOne(cmp, p, q, psize, qsize, list, tail, r, r');
      }
      MergesEnd(r, r', p, q, psize, qsize, list, tail);
    }

    lemma MergesEnd(r0: Round, r: Round, p: Item?, q: Item?, psize: nat, qsize: nat, list: Item?, tail: Item?)
      requires Merges(r0, r, p, q, psize, qsize, list, tail) && psize == 0 && (qsize == 0 || q == null)
      ensures r0.Same(r) && r.Stands() && r.i == r.m && r.j == r.e && AllWritten(r.g)
      ensures q == Nth(r.g.s, r.e) && list == Nth(r.g.done, 0) && tail == Top(r.g.done)
    {
      assert Shown(0);
    }

    // up to `insize` items counted from p on, and the one behind them
    method CountRun(p: Item, insize: nat, ghost g: Merging, ghost pos: nat) returns (q: Item?, psize: nat)
      requires g.Stands(pos, pos, pos) && AllWritten(g) && pos < |g.s| && p == g.s[pos] && insize > 0
      ensures psize == (if pos + insize < |g.s| then insize else |g.s| - pos) && q == Nth(g.s, pos + psize)
    {
      q, psize := p, 0;
      var i := 0;
      while i < insize
        invariant i == psize <= insize && (i == insize || q != null) && pos + psize <= |g.s| && q == Nth(g.s, pos + psize)
      {
        assert g.NthOK(pos + psize) && g.SlotOK(q, pos, pos, pos) && MergeWritten(g, q);
        psize := psize + 1;
        q := q.next;
        if q == null { break; }
        i := i + 1;
      }
    }

    // the next two runs of a pass
    method MergeNext(cmp: (Item, Item) -> int, p: Item, insize: nat, list0: Item?, tail0: Item?, ghost o: Ordering,
                     ghost g: Merging, ghost pos: nat)
      returns (q: Item?, list: Item?, tail: Item?, ghost g': Merging, ghost e: nat)
      requires Passing(o, g, insize, pos) && o.cmp == cmp && AllWritten(g) && pos < |g.s| && p == g.s[pos]
      requires list0 == Nth(g.done, 0) && tail0 == Top(g.done)
      modifies g.l.place.Keys
      ensures g'.l == g.l && g'.s == g.s && g'.at == g.at && Passing(o, g', insize, e) && AllWritten(g')
      ensures e == if pos + 2 * insize < |g.s| then pos + 2 * insize else |g.s|
      ensures q == Nth(g.s, e) && list == Nth(g'.done, 0) && tail == Top(g'.done)
    {
      var psize;
      q, psize := CountRun(p, insize, g, pos);
      ghost var m := pos + psize;
      e := if m + insize < |g.s| then m + insize else |g.s|;
      q, list, tail, g' := MergeTwo(cmp, p, q, psize, insize, list0, tail0, o, g, pos, m, e);
    }

    // two runs found: pos..m and m..e
    method MergeTwo(cmp: (Item, Item) -> int, p: Item, q0: Item?, psize: nat, insize: nat, list0: Item?, tail0: Item?,
                    ghost o: Ordering, ghost g: Merging, ghost pos: nat, ghost m: nat, ghost e: nat)
      returns (q: Item?, list: Item?, tail: Item?, ghost g': Merging)
      requires Passing(o, g, insize, pos) && o.cmp == cmp && AllWritten(g) && pos < |g.s| && p == g.s[pos] && psize > 0
      requires m == pos + psize == (if pos + insize < |g.s| then pos + insize else |g.s|) && q0 == Nth(g.s, m)
      requires e == if m + insize < |g.s| then m + insize else |g.s|
      requires list0 == Nth(g.done, 0) && tail0 == Top(g.done)
      modifies g.l.place.Keys
      ensures g'.l == g.l && g'.s == g.s && g'.at == g.at && Passing(o, g', insize, e) && AllWritten(g')
      ensures q == Nth(g.s, e) && list == Nth(g'.done, 0) && tail == Top(g'.done)
    {
      RoundStarts(o, g, insize, pos, m, e);
      ghost var r := Round(o, g, g.done, [], pos, m, e, pos, m);
      q, list, tail, r := MergeRuns(cmp, p, q0, psize, insize, list0, tail0, r);
      g' := r.g;
      RoundEnds(o, g, g', r.c, insize, pos, m, e);
    }

    method Pass(cmp: (Item, Item) -> int, list0: Item, insize: nat, ghost o: Ordering, ghost g: Merging)
      returns (list: Item?, tail: Item?, merges: nat, ghost g': Merging)
      requires Passing(o, g, insize, 0) && o.cmp == cmp && AllWritten(g) && |g.s| > 0 && list0 == g.s[0] && g.done == []
      modifies g.l.place.Keys
      ensures g'.l == g.l && g'.s == g.s && g'.at == g.at && Passing(o, g', insize, |g.s|) && AllWritten(g')
      ensures list == Nth(g'.done, 0) && tail == Top(g'.done) && (merges <= 1 <==> |g.s| <= 2 * insize)
    {
      g' := g;
      var p: Item? := list0;
      list, tail, merges := null, null, 0;
      ghost var pos: nat := 0;
      while p != null
        invariant g'.l == g.l && g'.s == g.s && g'.at == g.at && Passing(o, g', insize, pos) && AllWritten(g')
        invariant p == Nth(g.s, pos) && list == Nth(g'.done, 0) && tail == Top(g'.done)
        invariant (merges == 0 <==> pos == 0) && (merges == 1 ==> pos == if 2 * insize < |g.s| then 2 * insize else |g.s|)
        invariant merges > 1 ==> pos > 2 * insize
        decreases |g.s| - pos
      {
        merges := merges + 1;
        p, list, tail, g', pos := MergeNext(cmp, p, insize, list, tail, o, g', pos);
      }
    }

    // the forward link of the last item cut
    method CutList(tail: Item, ghost g: Merging)
      requires g.Stands(|g.s|, |g.s|, |g.s|) && AllWritten(g) && tail == Top(g.done) && g.Again().Stands(0, 0, 0)
      modifies tail`next
      ensures AllWritten(g.Again())
    {
      assert g.DoneOK(|g.done| - 1);
      tail.next := null;
      ghost var h, n := g.Again(), |g.s|;
      forall p | p in g.l.place ensures MergeWritten(h, p) {
        assert old(MergeWritten(g, p));
        assert h.AtOK(p) && g.SlotOK(p, n, n, n);
      }
    }

    // the new list closed behind its last item
    method CloseList(tail: Item, ghost g: Merging)
      requires g.Stands(|g.s|, |g.s|, |g.s|) && AllWritten(g) && tail == Top(g.done) && g.Again().Stands(0, 0, 0)
      modifies tail`next
      ensures AllWritten(g.Again())
      ensures forall p {:trigger ItemMirrors(g.Again().Finish(), p)} | p in g.l.place :: ItemMirrors(g.Again().Finish(), p)
    {
      g.Again().FinishValid();
      BacksRight(g);
      CutList(tail, g);
      FinishMirrors(g.Again());
    }

    // the back links of an item are those of the layout l
    ghost predicate BackWritten(l: Layout, p: Item)
      reads p`prev
    {
      p in l.place && l.PlaceOK(p) && p.prev == l.Prev(p)
    }

    // when all is relinked the back links are already right
    lemma BacksRight(g: Merging)
      requires g.Stands(|g.s|, |g.s|, |g.s|) && AllWritten(g) && g.Again().Finish().Valid()
      ensures forall p {:trigger BackWritten(g.Again().Finish(), p)} | p in g.l.place :: BackWritten(g.Again().Finish(), p)
    {
      var d, n := g.Again().Finish(), |g.s|;
      forall p | p in g.l.place ensures BackWritten(d, p) {
        assert MergeWritten(g, p) && g.SlotOK(p, n, n, n) && d.PlaceOK(p) && g.Again().AtOK(p);
      }
    }

    lemma FinishMirrors(h: Merging)
      requires h.done == [] && h.slot == map[] && AllWritten(h) && h.Finish().Valid()
      requires forall p {:trigger BackWritten(h.Finish(), p)} | p in h.l.place :: BackWritten(h.Finish(), p)
      ensures forall p {:trigger ItemMirrors(h.Finish(), p)} | p in h.l.place :: ItemMirrors(h.Finish(), p)
    {
      forall p | p in h.l.place ensures ItemMirrors(h.Finish(), p) {
        assert MergeWritten(h, p) && BackWritten(h.Finish(), p) && h.Finish().PlaceOK(p);
      }
    }

    // A list of the table's items in runs of `insize`, each sorted.
    ghost predicate Sorting(o: Ordering, g: Merging, insize: nat, list: Item?)
      reads this, layout.place.Keys
    {
      && g.l == layout && o.rank == layout.place && o.Total() && insize > 0
      && g.done == [] && g.Stands(0, 0, 0) && AllWritten(g) && o.Runs(g.s, insize, 0) && list == Nth(g.s, 0) && |g.s| > 0
    }

    // the list sorted and linked both ways
    ghost predicate Sorted(o: Ordering, g: Merging)
      reads this, layout.place.Keys
    {
      && g.l == layout && o.Sorted(g.s) && g.Finish().Valid() && g.at.Keys == layout.place.Keys
      && (forall p {:trigger ItemMirrors(g.Finish(), p)} | p in layout.place :: ItemMirrors(g.Finish(), p))
    }

    // a pass, and the list it made closed
    method SortPass(cmp: (Item, Item) -> int, list0: Item, insize: nat, ghost o: Ordering, ghost g: Merging)
      returns (list: Item, last: Item, merges: nat, ghost g': Merging)
      requires Sorting(o, g, insize, list0) && o.cmp == cmp
      modifies layout.place.Keys
      ensures Sorting(o, g', 2 * insize, list) && last == Top(g'.s) && (merges <= 1 <==> |g'.s| <= 2 * insize)
      ensures |g'.s| == |g.s| && (merges <= 1 ==> Sorted(o, g'))
    {
      PassStarts(o, g, insize);
      var first, tail;
      first, tail, merges, g' := Pass(cmp, list0, insize, o, g);
      PassEnds(o, g', insize);
      assert g'.DoneOK(|g'.done| - 1);
      list, last := first, tail;
      CloseList(last, g');
      g' := g'.Again();
      g'.FinishValid();
    }

    // HASH_SORT: ascending by the comparison, equal items in the order they had
    method Sort(cmp: (Item, Item) -> int)
      requires Valid() && Ordering(cmp, layout.place).Total()
      modifies this`head, this`tail, this`layout, layout.place.Keys
      ensures Valid() && Ordering(cmp, old(layout).place).Sorted(layout.order)
      ensures var s, at := layout.order, old(layout).place;
        forall i, j | 0 <= i < j < |s| ::
          cmp(s[i], s[j]) <= 0 && (cmp(s[j], s[i]) <= 0 ==> s[i] in at && s[j] in at && at[s[i]] < at[s[j]])
      ensures layout == old(layout).(order := layout.order, place := layout.place) && layout.place.Keys == old(layout).place.Keys
      ensures multiset(layout.order) == multiset(old(layout.order)) && Value() == old(Value()).(l := Value().l)
    {
      if head != null {
        SortItems(cmp);
        old(layout).SameItems(layout);
      }
    }

    method SortItems(cmp: (Item, Item) -> int)
      requires Mirrors() && head != null && Ordering(cmp, layout.place).Total()
      modifies this`head, this`tail, this`layout, layout.place.Keys
      ensures Mirrors() && head != null && Ordering(cmp, old(layout).place).Sorted(layout.order)
      ensures layout == old(layout).(order := layout.order, place := layout.place) && layout.place.Keys == old(layout).place.Keys
    {
      ghost var o, g := Ordering(cmp, layout.place), Merging(layout, layout.order, layout.place, [], map[]);
      var list, last: Item, insize: nat, looping := head, head, 1, true;
      SortStarts(o, g);
      while looping
        invariant layout == old(layout) && layout.hash == hash && Sized() && Filled() && |g.s| == |layout.order| > 0
        invariant if looping then Sorting(o, g, insize, list) else Sorted(o, g) && list == g.s[0] && last == Top(g.s)
        decreases looping, if |layout.order| > insize then |layout.order| - insize else 0
      {
        var merges;
        list, last, merges, g := SortPass(cmp, list, insize, o, g);
        if merges <= 1 {
          looping := false;
        }
        insize := insize * 2;
      }
      Settle(list, last, o, g);
    }

    method Settle(list: Item, last: Item, ghost o: Ordering, ghost g: Merging)
      requires layout.hash == hash && Sized() && Sorted(o, g) && |g.s| == |layout.order| > 0 && list == g.s[0] && last == Top(g.s)
      requires Filled()
      modifies this`head, this`tail, this`layout
      ensures Mirrors() && head != null && layout == g.Finish()
    {
      tail := last;
      head := list;
      layout := g.Finish();
    }

    lemma SortStarts(o: Ordering, g: Merging)
      requires Mirrors() && head != null && o.rank == layout.place && o.Total() && g == Merging(layout, layout.order, layout.place, [], map[])
      ensures Sorting(o, g, 1, head)
    {
      forall i | 0 <= i < |g.s| ensures g.NthOK(i) { assert layout.NthOK(i); }
      forall p | p in g.at ensures g.AtOK(p) && g.SlotOK(p, 0, 0, 0) { assert layout.PlaceOK(p); }
      forall p | p in layout.place ensures MergeWritten(g, p) { assert ItemMirrors(layout, p) && g.AtOK(p); }
      forall i | 0 <= i < |g.s| ensures g.s[i] in o.rank && o.rank[g.s[i]] == 0 + i { assert g.NthOK(i); }
      o.Ones(g.s, 0);
    }

    // ---- the integrity check

    // the items of one chain counted, and their back links compared
    method CheckBucket(b: nat) returns (ok: bool, count: nat)
      requires Mirrors() && b < numBuckets
      ensures ok && count == |layout.chains[b]|
    {
      ghost var c := layout.chains[b];
      assert BucketMirrors(layout.chains, buckets, b) && layout.ChainOK(b);
      count := 0;
      var prev: Item? := null;
      var thh := buckets[b].head;
      while thh != null
        invariant count <= |c| && thh == Top(c[..|c| - count]) && prev == (if count == 0 then null else c[|c| - count])
        decreases |c| - count
      {
        assert layout.PlaceOK(thh) && ItemMirrors(layout, thh);
        if thh.hhPrev != prev { return false, count; }
        count := count + 1;
        prev := thh;
        thh := thh.hhNext;
      }
      ok := buckets[b].count == count;
    }

    // the items in their order counted, and their back links compared
    method CheckOrder() returns (ok: bool, count: nat)
      requires Mirrors()
      ensures ok && count == |layout.order|
    {
      count := 0;
      var prev: Item? := null;
      var thh := head;
      while thh != null
        invariant count <= |layout.order| && thh == Nth(layout.order, count) && prev == (if count == 0 then null else layout.order[count - 1])
        decreases |layout.order| - count
      {
        assert layout.NthOK(count) && ItemMirrors(layout, thh);
        if thh.prev != prev { return false, count; }
        count := count + 1;
        prev := thh;
        thh := thh.next;
      }
      ok := true;
    }

    // PB_HASH_FSCK finds nothing wrong with a valid table.
    method Fsck() returns (ok: bool)
      requires Valid()
      ensures ok
    {
      if head == null { return true; }
      var total, i := 0, 0;
      while i < numBuckets
        invariant i <= numBuckets && total + Excess(layout.chains[i..], 0) == |layout.order|
      {
        var count;
        ok, count := CheckBucket(i);
        ExcessTail(layout.chains, i, 0);
        if !ok { return; }
        total, i := total + count, i + 1;
      }
      if total != numItems { return false; }
      var count;
      ok, count := CheckOrder();
      if !ok { return; }
      ok := count == numItems;
    }

    lemma ValueValid()
      requires Valid()
      ensures Value().Valid() && Value().l.order == layout.order && Value().l.byKey == layout.byKey
    {
      EmptyValid(hash);
    }

    method Replace(p: Item) returns (replaced: Item?)
      requires Valid()
      modifies this, buckets, p, layout.place.Keys
      ensures Valid() && layout.byKey == old(layout.byKey)[p.key := p] && layout.place.Keys <= old(layout.place.Keys) + {p}
      ensures replaced == if p.key in old(layout.byKey) then old(layout.byKey)[p.key] else null
      ensures old(Value()).Valid() && old(Value()).Without(p.key).Adds(p, Value())
      ensures layout.order == Omit(old(layout.order), p.key) + [p]
      ensures buckets == old(buckets) || fresh(buckets)
    {
      ghost var was := layout.byKey;
      ValueValid();
      WithoutOrder(Value(), p.key);
      assert head != null && p.key in layout.byKey ==> layout.KeyOK(p.key);
      replaced := Find(p.key);
      if replaced != null {
        Delete(replaced);
      }
      assert layout.byKey[p.key := p] == was[p.key := p];
      Add(p);
    }

    method Remove(key: seq<byte>) returns (removed: Item?)
      requires Valid()
      modifies this, buckets, layout.place.Keys
      ensures Valid() && layout.byKey == old(layout.byKey) - {key} && layout.place.Keys <= old(layout.place.Keys)
      ensures removed == if key in old(layout.byKey) then old(layout.byKey)[key] else null
      ensures old(Value()).Valid() && Value() == old(Value()).Without(key) && layout.order == Omit(old(layout.order), key)
      ensures buckets == old(buckets)
    {
      ValueValid();
      WithoutOrder(Value(), key);
      assert head != null && key in layout.byKey ==> layout.KeyOK(key);
      removed := Find(key);
      if removed != null {
        Delete(removed);
      }
    }
  }
}
