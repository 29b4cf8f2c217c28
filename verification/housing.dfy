// Overwriting page by page: which pages are written in place, and which get a region of
// their own first.
module Housing {
  import opened Memory
  import opened Sequences
  import opened Ledgers
  import opened Fragments

  // The k-th page of the ring of e is written in place: if copies are made on writing, on a region that is not lent and
  // that no page shows but those in front of it, which will have regions of their own by then.
  ghost predicate Stays(was: Ledger, e: Page, k: nat, clone: bool)
    requires e in was.rings && k < |was.rings[e]|
  {
    clone && was.LastUser(e, k) && was.rings[e][k].data.owned
  }

  // c is what became of the k-th page by writing over it
  ghost predicate Housed(was: Ledger, e: Page, k: nat, clone: bool, c: Cell)
    requires e in was.rings && k < |was.rings[e]|
  {
    var c0 := was.rings[e][k];
    c.page == c0.page && if Stays(was, e, k, clone) then c.data == c0.data && c.off == c0.off
    else c.data != null && c.data !in was.stored && c.data.owned && c.off == 0
  }

  // the same, if the page is one of those that the first w bytes are on
  ghost predicate HousedAt(was: Ledger, e: Page, cs: seq<Cell>, k: nat, w: nat, clone: bool)
    requires e in was.rings && k < |was.rings[e]| == |cs|
  {
    if Position(was.rings[e], k, 0) < w then Housed(was, e, k, clone, cs[k]) else cs[k] == was.rings[e][k]
  }

  // all pages after the first w bytes were written over
  ghost predicate Rehoused(was: Ledger, e: Page, cs: seq<Cell>, w: nat, clone: bool) {
    && e in was.rings && |cs| == |was.rings[e]|
    && forall u {:trigger Shown(u)} :: Shown(u) ==> forall k | 0 < k < |cs| :: HousedAt(was, e, cs, k, w, clone)
  }

  // the first w bytes are written over, on the pages before the i-th
  ghost predicate Rehousing(was: Ledger, l: Ledger, e: Page, i: nat, w: nat, clone: bool) {
    && e in was.rings && e in l.rings && l.spots == was.spots
    && forall u {:trigger Shown(u)} :: Shown(u) ==>
      var cs0, cs := was.rings[e], l.rings[e];
      && |cs| == |cs0| && 0 < i <= |cs| && cs[i..] == cs0[i..]
      && (forall k | 0 < k < i :: Housed(was, e, k, clone, cs[k]))
      && w <= Position(cs0, i, 0) && (if i == 1 then w == 0 else Position(cs0, i - 1, 0) < w)
  }

  lemma HousingStarts(was: Ledger, e: Page, clone: bool)
    requires was.Valid() && e in was.rings
    ensures Rehousing(was, was, e, 1, 0, clone)
  {
    was.Here(e, 0);
  }

  // the page at hand, as it was to begin with
  lemma HousingAt(was: Ledger, l: Ledger, e: Page, i: nat, w: nat, clone: bool)
    requires Rehousing(was, l, e, i, w, clone) && was.Valid() && l.Valid() && l.rings == was.rings[e := l.rings[e]]
    ensures |l.rings[e]| == |was.rings[e]|
    ensures i < |was.rings[e]| ==> var c := was.rings[e][i];
      && c == l.rings[e][i] && c.data in was.stored
      && (Stays(was, e, i, clone) <==> clone && c.data.owned && l.Users(c.data) == {c.page})
  {
    assert Shown(0);
    if i < |was.rings[e]| {
      forall k | 0 < k < i
        ensures if was.LastUser(e, k) then l.rings[e][k].data == was.rings[e][k].data || l.rings[e][k].data !in was.stored
          else l.rings[e][k].data !in was.stored
      {
        assert Housed(was, e, k, clone, l.rings[e][k]);
      }
      was.AloneIffLast(l, e, i);
    }
  }

  // one page more
  lemma HousingOn(was: Ledger, mid: Ledger, l: Ledger, e: Page, i: nat, w: nat, clone: bool, w': nat, c: Cell)
    requires Rehousing(was, mid, e, i, w, clone) && i < |was.rings[e]| && Position(was.rings[e], i, 0) == w
    requires w < w' <= w + |was.rings[e][i].bytes| && Housed(was, e, i, clone, c)
    requires e in l.rings && i < |mid.rings[e]| && l.rings[e] == mid.rings[e][i := c] && l.spots == mid.spots
    ensures Rehousing(was, l, e, i + 1, w', clone)
  {
    assert Shown(0);
    FlatNext(was.rings[e], i);
    assert l.rings[e][i + 1..] == mid.rings[e][i..][1..];
  }

  lemma {:induction false} PositionsUp(cs: seq<Cell>, i: nat, j: nat)
    requires i <= j <= |cs|
    ensures Position(cs, i, 0) <= Position(cs, j, 0)
    decreases j - i
  {
    if i < j {
      FlatNext(cs, i);
      PositionsUp(cs, i + 1, j);
    }
  }

  lemma SamePosition(cs0: seq<Cell>, cs: seq<Cell>, i: nat)
    requires i <= |cs0| && i <= |cs| && cs[i..] == cs0[i..] && |Flat(cs)| == |Flat(cs0)|
    ensures Position(cs, i, 0) == Position(cs0, i, 0)
  {
    FlatSplit(cs0, i);
    FlatSplit(cs, i);
  }

  // the page at hand begins where the bytes written end
  lemma HousingStands(was: Ledger, l: Ledger, e: Page, i: nat, w: nat, clone: bool)
    requires Rehousing(was, l, e, i, w, clone) && i <= |l.rings[e]| && |Flat(l.rings[e])| == |Flat(was.rings[e])|
    requires Position(l.rings[e], i, 0) == w
    ensures i <= |was.rings[e]| && Position(was.rings[e], i, 0) == w
  {
    assert Shown(0);
    SamePosition(was.rings[e], l.rings[e], i);
  }

  lemma HousingEnds(was: Ledger, l: Ledger, e: Page, i: nat, w: nat, clone: bool)
    requires Rehousing(was, l, e, i, w, clone)
    ensures Rehoused(was, e, l.rings[e], w, clone)
  {
    assert Shown(0);
    var cs0, cs := was.rings[e], l.rings[e];
    forall k | 0 < k < |cs| ensures HousedAt(was, e, cs, k, w, clone) {
      if k < i {
        PositionsUp(cs0, k, i - 1);
      } else {
        PositionsUp(cs0, i, k);
        assert cs[k] == cs[i..][k - i] == cs0[i..][k - i];
      }
    }
  }

  lemma RehousedAt(was: Ledger, e: Page, cs: seq<Cell>, k: nat, w: nat, clone: bool)
    requires Rehoused(was, e, cs, w, clone) && 0 < k < |cs|
    ensures HousedAt(was, e, cs, k, w, clone)
  {
    assert Shown(0);
  }

  // every page that the first len bytes are on is written in place
  ghost predicate AllStay(was: Ledger, e: Page, len: nat, clone: bool) {
    e in was.rings && forall k | 0 < k < |was.rings[e]| && Position(was.rings[e], k, 0) < len :: Stays(was, e, k, clone)
  }

  // Pages with regions of their own are all written in place.
  lemma OwnStay(was: Ledger, e: Page, len: nat)
    requires was.Valid() && e in was.rings
    requires forall k | 0 < k < |was.rings[e]| && Position(was.rings[e], k, 0) < len ::
      var c := was.rings[e][k]; c.data != null && c.data.owned && was.Users(c.data) == {c.page}
    ensures AllStay(was, e, len, true)
  {
    forall k | 0 < k < |was.rings[e]| && Position(was.rings[e], k, 0) < len ensures Stays(was, e, k, true) {
      was.SoleIsLast(e, k);
    }
  }

  // the pages show the same windows of the same regions
  ghost predicate SameWindows(cs0: seq<Cell>, cs: seq<Cell>) {
    |cs| == |cs0| && forall k | 0 <= k < |cs| :: cs[k].page == cs0[k].page && cs[k].data == cs0[k].data && cs[k].off == cs0[k].off
  }

  // the pages that the first w bytes are on are on regions that were not there before
  ghost predicate AllMoved(was: Ledger, e: Page, cs: seq<Cell>, w: nat) {
    && e in was.rings && |cs| == |was.rings[e]|
    && forall k | 0 < k < |cs| && Position(was.rings[e], k, 0) < w :: cs[k].data != null && cs[k].data !in was.stored
  }

  // Pages written in place keep their windows; without copies on writing every page written over is moved.
  lemma RehousedMeans(was: Ledger, e: Page, cs: seq<Cell>, w: nat, clone: bool)
    requires Rehoused(was, e, cs, w, clone)
    requires 0 < |cs| && cs[0] == was.rings[e][0]
    ensures AllStay(was, e, w, clone) ==> SameWindows(was.rings[e], cs)
    ensures !clone ==> AllMoved(was, e, cs, w)
  {
    var cs0 := was.rings[e];
    forall k | 0 < k < |cs|
      ensures cs[k].page == cs0[k].page
      ensures AllStay(was, e, w, clone) ==> cs[k].data == cs0[k].data && cs[k].off == cs0[k].off
      ensures !clone && Position(cs0, k, 0) < w ==> cs[k].data != null && cs[k].data !in was.stored
    {
      RehousedAt(was, e, cs, k, w, clone);
      assert AllStay(was, e, w, clone) && Position(cs0, k, 0) < w ==> Stays(was, e, k, clone);
    }
  }
}
