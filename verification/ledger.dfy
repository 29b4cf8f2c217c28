// The state of all buffers as one value. A ledger knows the ring of pages of every
// buffer, the bytes of every region, and which pages use it. What an operation does to
// pointers and counts is first said, and proved to keep the ledger valid, on this value.
module Ledgers {
  import opened Memory
  import opened Sequences

  // What a page shows: a window of a region, and the bytes there.
  datatype Cell = Cell(page: Page, data: Data?, off: nat, bytes: seq<byte>)
  {
    // the two halves of a cell cut at o; the first half goes to a page of its own
    function Left(first: Page, o: nat): Cell
      requires o <= |bytes|
    {
      Cell(first, data, off, bytes[..o])
    }

    function Right(o: nat): Cell
      requires o <= |bytes|
    {
      Cell(page, data, off + o, bytes[o..])
    }
  }

  // where a page stands: in which ring, and at which place of it
  datatype Spot = Spot(ring: Page, slot: nat)

  // Rings are known by their end pages, which stand at place 0 and show nothing. `users` are the pages
  // in rings that name a region, `held` the references that code holds while it works, and `blocks` the
  // memory the regions own.
  datatype Ledger = Ledger(rings: map<Page, seq<Cell>>, spots: map<Page, Spot>,
                           stored: map<Data, seq<byte>>, users: map<Data, set<Page>>, held: multiset<Data>,
                           blocks: map<array<byte>, Data>)
  {
    ghost predicate Valid() {
      && (forall e {:trigger RingOK(e)} | e in rings :: RingOK(e))
      && (forall p {:trigger SpotOK(p)} | p in spots :: SpotOK(p))
      && (forall d {:trigger RegionOK(d)} | d in stored :: RegionOK(d))
    }

    ghost predicate RingOK(e: Page)
      requires e in rings
    {
      && |rings[e]| > 0 && rings[e][0] == Cell(e, null, 0, [])
      && (forall i | 0 <= i < |rings[e]| :: rings[e][i].page in spots && spots[rings[e][i].page] == Spot(e, i))
      && (forall i | 0 < i < |rings[e]| :: CellOK(rings[e][i]))
    }

    function Users(d: Data): set<Page> {
      if d in users then users[d] else {}
    }

    function Count(d: Data): nat {
      |Users(d)| + held[d]
    }

    // the region of c holds the bytes c shows
    ghost predicate Backed(c: Cell) {
      && c.data in stored
      && c.off + |c.bytes| <= |stored[c.data]|
      && c.bytes == stored[c.data][c.off..c.off + |c.bytes|]
    }

    ghost predicate CellOK(c: Cell) {
      Backed(c) && c.page in Users(c.data)
    }

    ghost predicate SpotOK(p: Page)
      requires p in spots
    {
      var s := spots[p];
      s.ring in rings && s.slot < |rings[s.ring]| && rings[s.ring][s.slot].page == p
    }

    ghost predicate RegionOK(d: Data)
      requires d in stored
    {
      && (forall p {:trigger p in spots} | p in Users(d) :: p in spots && SpotOK(p) && At(p).data == d)
      && Live(d)
    }

    ghost predicate Live(d: Data) {
      && d in stored && Count(d) > 0
      && d.base + d.len <= d.mem.Length && |stored[d]| == d.len
      && (if d.owned then d.mem in blocks && blocks[d.mem] == d else d.mem !in blocks)
    }

    lemma AllLive()
      requires Valid()
      ensures forall d | d in stored :: Live(d)
    {
      forall d | d in stored ensures Live(d) { assert RegionOK(d); }
    }

    ghost function At(p: Page): Cell
      requires p in spots && SpotOK(p)
    {
      rings[spots[p].ring][spots[p].slot]
    }

    ghost function Next(p: Page): Page
      requires p in spots && SpotOK(p)
    {
      var s := spots[p];
      if s.slot + 1 < |rings[s.ring]| then rings[s.ring][s.slot + 1].page else rings[s.ring][0].page
    }

    ghost function Prev(p: Page): Page
      requires p in spots && SpotOK(p)
    {
      var s := spots[p];
      if s.slot > 0 then rings[s.ring][s.slot - 1].page else rings[s.ring][|rings[s.ring]| - 1].page
    }

    // the cell at a place of a ring, found from its page
    lemma Here(e: Page, i: nat)
      requires Valid() && e in rings && (i == 0 || i < |rings[e]|)
      ensures i < |rings[e]| && var p := rings[e][i].page; p in spots && SpotOK(p) && spots[p] == Spot(e, i) && At(p) == rings[e][i]
      ensures i > 0 ==> CellOK(rings[e][i])
      ensures i == 0 ==> rings[e][0] == Cell(e, null, 0, [])
    {
      assert RingOK(e);
    }

    // one ring changed; memory stayed
    ghost predicate Became(l: Ledger, e: Page, cs: seq<Cell>) {
      l.rings == rings[e := cs] && l.stored == stored && l.blocks == blocks
    }

    // memory and who holds it stayed; pages may have come to use it
    ghost predicate SameStore(l: Ledger) {
      l.stored == stored && l.blocks == blocks && l.held == held
    }

    // ---- use counts

    // A change of counts that leaves the pages alone keeps a ledger valid.
    lemma SameUsers(l: Ledger)
      requires Valid() && l.rings == rings && l.spots == spots
      requires forall d | d in stored && Users(d) != {} :: d in l.stored
      requires forall d | d in l.stored ::
        && l.Users(d) == (if d in stored then Users(d) else {})
        && (l.Users(d) != {} ==> l.stored[d] == stored[d])
        && l.Live(d)
      ensures l.Valid()
    {
      forall e | e in rings ensures l.RingOK(e) {
        assert RingOK(e);
        forall i | 0 < i < |rings[e]| ensures l.CellOK(rings[e][i]) { assert CellOK(rings[e][i]); }
      }
      forall p | p in spots ensures l.SpotOK(p) { assert SpotOK(p); }
      forall d | d in l.stored ensures l.RegionOK(d) {
        assert d in stored ==> RegionOK(d);
      }
    }

    // a new region, held by its maker
    ghost function Added(d: Data, bytes: seq<byte>): Ledger {
      this.(stored := stored[d := bytes], users := users[d := {}], held := held[d := 1],
            blocks := if d.owned then blocks[d.mem := d] else blocks)
    }

    lemma AddedValid(d: Data, bytes: seq<byte>)
      requires Valid() && d !in stored && d.base + d.len <= d.mem.Length && |bytes| == d.len
      requires d.mem !in blocks && forall x | x in stored :: d.owned ==> x.mem != d.mem
      ensures Added(d, bytes).Valid()
    {
      AllLive();
      SameUsers(Added(d, bytes));
    }

    // pb_data_get
    ghost function Hold(d: Data): Ledger
      requires d in stored
    {
      this.(held := held[d := held[d] + 1])
    }

    lemma HoldValid(d: Data)
      requires Valid() && d in stored
      ensures Hold(d).Valid()
    {
      AllLive();
      SameUsers(Hold(d));
    }

    ghost function Freed(d: Data): Ledger {
      this.(stored := stored - {d}, users := users - {d}, held := held[d := 0],
            blocks := if d.owned then blocks - {d.mem} else blocks)
    }

    // pb_data_put
    ghost function Release(d: Data): Ledger
      requires d in stored && held[d] > 0
    {
      if Count(d) == 1 then Freed(d) else this.(held := held[d := held[d] - 1])
    }

    lemma ReleaseValid(d: Data)
      requires Valid() && d in stored && held[d] > 0
      ensures Release(d).Valid()
    {
      AllLive();
      SameUsers(Release(d));
    }

    lemma ReleaseFacts(d: Data)
      requires d in stored && held == multiset{d}
      ensures var l := Release(d);
        && l.rings == rings && l.spots == spots && l.held == multiset{}
        && l.stored.Keys <= stored.Keys && l.blocks.Keys <= blocks.Keys
    {}

    // A region goes exactly when the last to name it lets go.
    lemma ReleaseIff(d: Data)
      requires Valid() && d in stored && held[d] > 0
      ensures d !in Release(d).stored <==> Users(d) == {} && held[d] == 1
      ensures forall x | x in stored && x != d :: x in Release(d).stored && Release(d).stored[x] == stored[x]
    {
      if Users(d) != {} {
        var p :| p in Users(d);
        assert Users(d) == (Users(d) - {p}) + {p};
      }
    }

    // what creating a page on a new region comes to: the creator's hold passes to the page
    lemma AddedPage(d: Data, bytes: seq<byte>)
      requires d !in stored && d !in users && held[d] == 0 && d.mem !in blocks
      ensures Added(d, bytes).Hold(d).Release(d) == Added(d, bytes)
      ensures Added(d, bytes).Release(d) == this
    {
      var a := Added(d, bytes);
      assert a.stored - {d} == stored && a.users - {d} == users && a.held[d := 0] == held;
      assert d.owned ==> a.blocks - {d.mem} == blocks;
      assert a.held[d := 2][d := 1] == a.held;
    }

    // ---- linking

    // where a page linked in front of `next` lands in its ring
    ghost function Gap(next: Page): (k: nat)
      requires next in spots && SpotOK(next)
      ensures k <= |rings[spots[next].ring]|
    {
      if spots[next].slot == 0 then |rings[spots[next].ring]| else spots[next].slot
    }

    // c is that of a page in no ring, to be linked in front of `next`
    ghost predicate Linkable(c: Cell, next: Page) {
      && Valid() && next in spots && SpotOK(next) && c.page !in spots && Backed(c) && held[c.data] > 0
    }

    // The page of c linked: the pages behind it move up by one, and a held reference becomes the page's.
    ghost function Link(c: Cell, next: Page): (r: Ledger)
      requires Linkable(c, next)
    {
      var e, k := spots[next].ring, Gap(next);
      this.(
        rings := rings[e := InsertAt(rings[e], k, c)],
        spots := map p | p in spots.Keys + {c.page} ::
          if p == c.page then Spot(e, k)
          else if spots[p].ring == e && spots[p].slot >= k then Spot(e, spots[p].slot + 1) else spots[p],
        users := users[c.data := Users(c.data) + {c.page}], held := held[c.data := held[c.data] - 1])
    }

    lemma LinkSpot(c: Cell, next: Page, p: Page)
      requires Linkable(c, next) && p in Link(c, next).spots
      ensures Link(c, next).SpotOK(p)
      ensures p in spots ==> SpotOK(p) && Link(c, next).At(p) == At(p)
      ensures p == c.page ==> Link(c, next).At(p) == c
    {
      if p != c.page { assert SpotOK(p); }
    }

    lemma LinkRing(c: Cell, next: Page, e: Page)
      requires Linkable(c, next) && e in rings
      ensures Link(c, next).RingOK(e)
    {
      var l, k := Link(c, next), Gap(next);
      assert RingOK(e);
      if e == spots[next].ring {
        forall i | 0 <= i < |l.rings[e]| ensures l.rings[e][i].page in l.spots && l.spots[l.rings[e][i].page] == Spot(e, i)
        {
          if i < k { assert l.rings[e][i] == rings[e][i]; } else if i > k { assert l.rings[e][i] == rings[e][i-1]; }
        }
        forall i | 0 < i < |l.rings[e]| ensures l.CellOK(l.rings[e][i])
        {
          if i < k { assert CellOK(rings[e][i]); } else if i > k { assert CellOK(rings[e][i-1]); }
        }
      } else {
        forall i | 0 < i < |rings[e]| ensures l.CellOK(rings[e][i]) { assert CellOK(rings[e][i]); }
      }
    }

    lemma LinkValid(c: Cell, next: Page)
      requires Linkable(c, next)
      ensures Link(c, next).Valid()
    {
      var l := Link(c, next);
      forall e | e in l.rings ensures l.RingOK(e) { LinkRing(c, next, e); }
      forall p | p in l.spots ensures l.SpotOK(p) { LinkSpot(c, next, p); }
      forall d | d in l.stored ensures l.RegionOK(d) {
        assert RegionOK(d);
        forall p | p in l.Users(d) ensures p in l.spots && l.SpotOK(p) && l.At(p).data == d {
          LinkSpot(c, next, p);
        }
      }
    }

    lemma SameSpot(p: Page, q: Page)
      requires p in spots && SpotOK(p) && q in spots && SpotOK(q)
      ensures p == q <==> spots[p] == spots[q]
    {}

    lemma NextSpot(p: Page)
      requires Valid() && p in spots && SpotOK(p)
      ensures Next(p) in spots && SpotOK(Next(p))
      ensures spots[Next(p)] == Spot(spots[p].ring, if spots[p].slot + 1 < |rings[spots[p].ring]| then spots[p].slot + 1 else 0)
    {
      assert RingOK(spots[p].ring);
    }

    lemma PrevSpot(p: Page)
      requires Valid() && p in spots && SpotOK(p)
      ensures Prev(p) in spots && SpotOK(Prev(p))
      ensures spots[Prev(p)] == Spot(spots[p].ring, if spots[p].slot > 0 then spots[p].slot - 1 else |rings[spots[p].ring]| - 1)
    {
      assert RingOK(spots[p].ring);
    }

    // Linking changes one `next` and one `prev`, and no other.
    lemma LinkNext(c: Cell, next: Page, p: Page)
      requires Linkable(c, next) && p in spots && SpotOK(p)
      ensures var l := Link(c, next); p in l.spots && l.SpotOK(p) && l.Next(p) == (if p == Prev(next) then c.page else Next(p))
    {
      LinkSpot(c, next, p);
      PrevSpot(next);
      SameSpot(p, Prev(next));
      var l, e, k, i := Link(c, next), spots[next].ring, Gap(next), spots[p].slot;
      if spots[p].ring == e && i >= k && i + 1 < |rings[e]| {
        assert l.rings[e][i + 2] == rings[e][i + 1];
      }
    }

    lemma LinkPrev(c: Cell, next: Page, p: Page)
      requires Linkable(c, next) && p in spots && SpotOK(p)
      ensures var l := Link(c, next); p in l.spots && l.SpotOK(p) && l.Prev(p) == (if p == next then c.page else Prev(p))
    {
      LinkSpot(c, next, p);
      SameSpot(p, next);
      var l, e, k, i := Link(c, next), spots[next].ring, Gap(next), spots[p].slot;
      if spots[p].ring == e && i > k {
        assert l.rings[e][i] == rings[e][i - 1];
      }
    }

    lemma LinkSelf(c: Cell, next: Page)
      requires Linkable(c, next)
      ensures var l := Link(c, next); c.page in l.spots && l.SpotOK(c.page) && l.Next(c.page) == next && l.Prev(c.page) == Prev(next)
    {
      LinkSpot(c, next, c.page);
      assert RingOK(spots[next].ring);
      SameSpot(spots[next].ring, next);
    }

    lemma LinkCounts(c: Cell, next: Page)
      requires Linkable(c, next)
      ensures forall d | d in stored :: Link(c, next).Count(d) == Count(d)
    {
      assert RegionOK(c.data);
      assert c.page !in Users(c.data);
    }

    lemma LinkFacts(c: Cell, next: Page)
      requires Linkable(c, next)
      ensures var l, e := Link(c, next), spots[next].ring;
        && Became(l, e, InsertAt(rings[e], Gap(next), c))
        && l.spots.Keys == spots.Keys + {c.page}
        && l.held == held - multiset{c.data}
    {}

    // ---- unlinking

    ghost predicate Unlinkable(p: Page) {
      Valid() && p in spots && SpotOK(p) && spots[p].slot > 0 && At(p).data in stored
    }

    // The page p taken out of its ring; its reference is held until it is destroyed.
    ghost function Unlink(p: Page): Ledger
      requires Unlinkable(p)
    {
      var e, k, d := spots[p].ring, spots[p].slot, At(p).data;
      this.(
        rings := rings[e := RemoveAt(rings[e], k)],
        spots := map q | q in spots.Keys - {p} ::
          if spots[q].ring == e && spots[q].slot > k then Spot(e, spots[q].slot - 1) else spots[q],
        users := users[d := Users(d) - {p}], held := held[d := held[d] + 1])
    }

    lemma UnlinkSpot(p: Page, q: Page)
      requires Unlinkable(p) && q in spots && q != p
      ensures q in Unlink(p).spots && Unlink(p).SpotOK(q) && SpotOK(q) && Unlink(p).At(q) == At(q)
    {
      assert SpotOK(q);
      SameSpot(p, q);
    }

    lemma UnlinkOtherRing(p: Page, e: Page)
      requires Unlinkable(p) && e in rings && e != spots[p].ring
      ensures Unlink(p).RingOK(e)
    {
      var l := Unlink(p);
      assert RingOK(e);
      forall i | 0 < i < |rings[e]| ensures l.CellOK(rings[e][i]) {
        assert CellOK(rings[e][i]) && spots[rings[e][i].page] == Spot(e, i);
      }
    }

    lemma UnlinkOwnRing(p: Page)
      requires Unlinkable(p)
      ensures Unlink(p).RingOK(spots[p].ring)
    {
      var l, e, k := Unlink(p), spots[p].ring, spots[p].slot;
      assert RingOK(e);
      forall i | 0 <= i < |l.rings[e]|
        ensures l.rings[e][i].page in l.spots && l.spots[l.rings[e][i].page] == Spot(e, i)
        ensures i > 0 ==> l.CellOK(l.rings[e][i])
      {
        var j := if i < k then i else i + 1;
        assert l.rings[e][i] == rings[e][j] && spots[rings[e][j].page] == Spot(e, j);
        assert j > 0 ==> CellOK(rings[e][j]);
      }
    }

    lemma UnlinkRegion(p: Page, d: Data)
      requires Unlinkable(p) && d in stored
      ensures Unlink(p).RegionOK(d)
    {
      var l := Unlink(p);
      assert RegionOK(d);
      AllLive();
      assert l.Live(d);
      forall q | q in l.Users(d) ensures q in l.spots && l.SpotOK(q) && l.At(q).data == d {
        assert q != p;
        UnlinkSpot(p, q);
      }
    }

    lemma UnlinkValid(p: Page)
      requires Unlinkable(p)
      ensures Unlink(p).Valid()
    {
      var l := Unlink(p);
      forall e | e in l.rings ensures l.RingOK(e) {
        if e == spots[p].ring { UnlinkOwnRing(p); } else { UnlinkOtherRing(p, e); }
      }
      forall q | q in l.spots ensures l.SpotOK(q) { UnlinkSpot(p, q); }
      forall d | d in l.stored ensures l.RegionOK(d) { UnlinkRegion(p, d); }
    }

    // Unlinking changes one `next` and one `prev`, and no other.
    lemma UnlinkNext(p: Page, q: Page)
      requires Unlinkable(p) && q in spots && SpotOK(q) && q != p
      ensures var l := Unlink(p); q in l.spots && l.SpotOK(q) && l.Next(q) == (if q == Prev(p) then Next(p) else Next(q))
    {
      UnlinkSpot(p, q);
      PrevSpot(p);
      SameSpot(q, Prev(p));
      SameSpot(p, q);
      var l, e, k, i := Unlink(p), spots[p].ring, spots[p].slot, spots[q].slot;
      if spots[q].ring == e && i > k && i + 1 < |rings[e]| {
        assert l.rings[e][i] == rings[e][i + 1];
      }
    }

    lemma UnlinkPrev(p: Page, q: Page)
      requires Unlinkable(p) && q in spots && SpotOK(q) && q != p
      ensures var l := Unlink(p); q in l.spots && l.SpotOK(q) && l.Prev(q) == (if q == Next(p) then Prev(p) else Prev(q))
    {
      UnlinkSpot(p, q);
      var l, e, k, i := Unlink(p), spots[p].ring, spots[p].slot, spots[q].slot;
      NextSpot(p);
      SameSpot(q, Next(p));
      SameSpot(p, q);
      if spots[q].ring == e {
        var n := |rings[e]|;
        if i == 0 {
          assert l.rings[e][n - 2] == if k == n - 1 then rings[e][n - 2] else rings[e][n - 1];
        } else if i < k {
          assert l.rings[e][i - 1] == rings[e][i - 1];
        } else {
          assert l.rings[e][i - 2] == if i == k + 1 then rings[e][i - 2] else rings[e][i - 1];
        }
      }
    }

    lemma UnlinkCounts(p: Page)
      requires Unlinkable(p)
      ensures p !in Unlink(p).spots && Unlink(p).Backed(At(p)) && Unlink(p).held[At(p).data] > 0
      ensures forall d | d in stored :: Unlink(p).Count(d) == Count(d)
    {
      AtOK(p);
    }

    lemma UnlinkFacts(p: Page)
      requires Unlinkable(p)
      ensures var l, e := Unlink(p), spots[p].ring;
        && Became(l, e, RemoveAt(rings[e], spots[p].slot))
        && l.spots.Keys == spots.Keys - {p}
        && l.held == held + multiset{At(p).data}
    {}

    // ---- changing a cell in place

    ghost function Put(c: Cell): Ledger
      requires c.page in spots && SpotOK(c.page)
    {
      this.(rings := rings[spots[c.page].ring := rings[spots[c.page].ring][spots[c.page].slot := c]])
    }

    lemma PutSpot(c: Cell, q: Page)
      requires c.page in spots && SpotOK(c.page) && q in spots && SpotOK(q)
      ensures Put(c).SpotOK(q) && Put(c).At(q) == (if q == c.page then c else At(q))
    {
      SameSpot(c.page, q);
    }

    lemma PutLinks(c: Cell, q: Page)
      requires c.page in spots && SpotOK(c.page) && q in spots && SpotOK(q)
      ensures Put(c).SpotOK(q) && Put(c).Next(q) == Next(q) && Put(c).Prev(q) == Prev(q)
    {
      SameSpot(c.page, q);
    }

    // The cell of one page replaced by one of the same region; the region may
    // change its bytes if the page is its only user.
    ghost predicate Puttable(c: Cell, l: Ledger) {
      && Valid() && c.page in spots && SpotOK(c.page) && spots[c.page].slot > 0 && c.data == At(c.page).data
      && l == Put(c).(stored := l.stored) && l.Backed(c)
      && l.stored.Keys == stored.Keys
      && (forall d | d in stored :: l.Live(d) && (Users(d) != {c.page} ==> l.stored[d] == stored[d]))
    }

    lemma PutRing(c: Cell, l: Ledger, e: Page)
      requires Puttable(c, l) && e in rings
      ensures l.RingOK(e)
    {
      assert RingOK(e);
      forall i | 0 < i < |l.rings[e]| ensures l.CellOK(l.rings[e][i]) {
        assert CellOK(rings[e][i]) && spots[rings[e][i].page] == Spot(e, i);
      }
    }

    lemma PutRegion(c: Cell, l: Ledger, d: Data)
      requires Puttable(c, l) && d in stored
      ensures l.RegionOK(d)
    {
      assert RegionOK(d);
      forall q | q in l.Users(d) ensures q in l.spots && l.SpotOK(q) && l.At(q).data == d {
        assert q in spots;
        PutSpot(c, q);
      }
    }

    lemma PutValid(c: Cell, l: Ledger)
      requires Puttable(c, l)
      ensures l.Valid()
    {
      forall q | q in l.spots ensures l.SpotOK(q) { assert SpotOK(q); PutSpot(c, q); }
      forall e | e in l.rings ensures l.RingOK(e) { PutRing(c, l, e); }
      forall d | d in l.stored ensures l.RegionOK(d) { PutRegion(c, l, d); }
    }

    lemma AtOK(p: Page)
      requires Valid() && p in spots && SpotOK(p) && spots[p].slot > 0
      ensures CellOK(At(p)) && At(p).page == p
    {
      assert RingOK(spots[p].ring);
    }

    // the window of p moved within its region
    ghost function Resize(p: Page, off: nat, bytes: seq<byte>): Ledger
      requires p in spots && SpotOK(p)
    {
      Put(Cell(p, At(p).data, off, bytes))
    }

    lemma ResizeValid(p: Page, off: nat, bytes: seq<byte>)
      requires Valid() && p in spots && SpotOK(p) && spots[p].slot > 0 && Backed(Cell(p, At(p).data, off, bytes))
      ensures Resize(p, off, bytes).Valid()
    {
      AllLive();
      PutValid(Cell(p, At(p).data, off, bytes), Resize(p, off, bytes));
    }

    // ---- splitting a page

    // p may be cut at o, with a new page for its first half
    ghost predicate Splittable(p: Page, o: nat, first: Page) {
      Valid() && p in spots && SpotOK(p) && spots[p].slot > 0 && 0 < o <= |At(p).bytes| && At(p).data in stored && first !in spots
    }

    lemma SplitLinkable(p: Page, o: nat, first: Page)
      requires Splittable(p, o, first)
      ensures Hold(At(p).data).Linkable(At(p).Left(first, o), p)
    {
      AtOK(p);
      HoldValid(At(p).data);
      assert Hold(At(p).data).SpotOK(p);
    }

    ghost function Fronted(p: Page, o: nat, first: Page): Ledger
      requires Splittable(p, o, first)
    {
      SplitLinkable(p, o, first);
      Hold(At(p).data).Link(At(p).Left(first, o), p)
    }

    ghost predicate FrontedBy(l: Ledger, p: Page, o: nat, first: Page)
      requires p in spots && SpotOK(p)
    {
      var e, k, c := spots[p].ring, spots[p].slot, At(p);
      && p in l.spots && l.SpotOK(p) && l.At(p) == c && l.spots[p] == Spot(e, k + 1)
      && l.spots.Keys == spots.Keys + {first}
      && o <= |c.bytes| && l.rings == rings[e := InsertAt(rings[e], k, c.Left(first, o))]
      && SameStore(l)
      && c.data in l.stored && c.off + |c.bytes| <= |l.stored[c.data]|
      && l.stored[c.data][c.off + o..c.off + |c.bytes|] == c.bytes[o..]
    }

    lemma FrontedFacts(p: Page, o: nat, first: Page)
      requires Splittable(p, o, first)
      ensures FrontedBy(Fronted(p, o, first), p, o, first)
    {
      AtOK(p);
      var c := At(p);
      SliceOfSlice(stored[c.data], c.off, c.off + |c.bytes|, o, |c.bytes|);
      SplitLinkable(p, o, first);
      Hold(At(p).data).LinkSpot(At(p).Left(first, o), p, p);
    }

    // a page cut in two, and what is left of it narrowed
    lemma SplitRings(l: Ledger, p: Page, o: nat, first: Page)
      requires Splittable(p, o, first) && FrontedBy(l, p, o, first)
      ensures var e, k, c := spots[p].ring, spots[p].slot, At(p);
        && o <= |c.bytes| && l.Resize(p, c.off + o, c.bytes[o..]).rings ==
          rings[e := rings[e][..k] + [c.Left(first, o), c.Right(o)] + rings[e][k + 1..]]
    {
      var cs, k, c := rings[spots[p].ring], spots[p].slot, At(p);
      InsertThenReplace(cs, k, c.Left(first, o), c.Right(o));
    }

    // p moved from its region to the region d, which holds the same bytes
    ghost function Rebind(p: Page, d: Data): Ledger
      requires p in spots && SpotOK(p) && At(p).data in stored && d in stored
    {
      var c := At(p);
      var rest := this.(users := users[c.data := Users(c.data) - {p}]);
      var left := if rest.Count(c.data) == 0 then Freed(c.data) else rest;
      left.(rings := Put(c.(data := d, off := 0)).rings, users := left.users[d := Users(d) + {p}])
    }

    ghost predicate Rebindable(p: Page, d: Data) {
      && Valid() && p in spots && SpotOK(p) && spots[p].slot > 0 && At(p).data in stored
      && d in stored && d != At(p).data && stored[d] == At(p).bytes
    }

    lemma RebindRing(p: Page, d: Data, e: Page)
      requires Rebindable(p, d) && e in rings
      ensures Rebind(p, d).RingOK(e)
    {
      var l := Rebind(p, d);
      assert RingOK(e);
      AtOK(p);
      forall i | 0 < i < |l.rings[e]| ensures l.CellOK(l.rings[e][i]) {
        assert CellOK(rings[e][i]) && spots[rings[e][i].page] == Spot(e, i);
        if rings[e][i].page != p {
          assert rings[e][i].page in Users(rings[e][i].data) - {p};
        }
      }
    }

    lemma RebindLive(p: Page, d: Data, x: Data)
      requires Rebindable(p, d) && x in Rebind(p, d).stored
      ensures x in stored && Rebind(p, d).Live(x)
    {
      AllLive();
      AtOK(p);
      assert Live(x) && Live(At(p).data);
      assert |Users(At(p).data) - {p}| == |Users(At(p).data)| - 1;
    }

    lemma RebindCounts(p: Page, d: Data)
      requires Rebindable(p, d)
      ensures forall x | x in Rebind(p, d).stored :: x in stored && Rebind(p, d).stored[x] == stored[x]
      ensures forall x | x in Rebind(p, d).stored ::
                Rebind(p, d).Count(x) == Count(x) + (if x == d then 1 else 0) - (if x == At(p).data then 1 else 0)
    {
      AtOK(p);
      assert RegionOK(d);
      assert p !in Users(d);
    }

    // the region a page leaves goes exactly when nothing else counts on it
    lemma RebindFrees(p: Page, d: Data)
      requires Rebindable(p, d)
      ensures At(p).data !in Rebind(p, d).stored <==> Count(At(p).data) == 1
    {
      AtOK(p);
      assert |Users(At(p).data) - {p}| == |Users(At(p).data)| - 1;
    }

    lemma RebindUser(p: Page, d: Data, x: Data, q: Page)
      requires Rebindable(p, d) && x in Rebind(p, d).stored && x in stored && RegionOK(x) && q in Rebind(p, d).Users(x)
      ensures q in spots && Rebind(p, d).SpotOK(q) && Rebind(p, d).At(q).data == x
    {
      assert RegionOK(d);
      assert q in spots && SpotOK(q);
      PutSpot(At(p).(data := d, off := 0), q);
    }

    lemma RebindRegion(p: Page, d: Data, x: Data)
      requires Rebindable(p, d) && x in Rebind(p, d).stored
      ensures Rebind(p, d).RegionOK(x)
    {
      var l := Rebind(p, d);
      RebindLive(p, d, x);
      assert RegionOK(x);
      forall q | q in l.Users(x) ensures q in l.spots && l.SpotOK(q) && l.At(q).data == x { RebindUser(p, d, x, q); }
    }

    lemma RebindValid(p: Page, d: Data)
      requires Rebindable(p, d)
      ensures Rebind(p, d).Valid()
    {
      var l := Rebind(p, d);
      forall q | q in l.spots ensures l.SpotOK(q) { assert SpotOK(q); PutSpot(At(p).(data := d, off := 0), q); }
      forall e | e in l.rings ensures l.RingOK(e) { RebindRing(p, d, e); }
      forall x | x in l.stored ensures l.RegionOK(x) { RebindRegion(p, d, x); }
    }

    // p given a new region d with a copy of its bytes
    ghost function Dup(p: Page, d: Data): Ledger
      requires p in spots && SpotOK(p) && At(p).data in stored && d !in stored
    {
      Added(d, At(p).bytes).Rebind(p, d).Release(d)
    }

    lemma DupFacts(p: Page, d: Data)
      requires p in spots && SpotOK(p) && At(p).data in stored && d !in stored && held == multiset{}
      ensures var l, e, k := Dup(p, d), spots[p].ring, spots[p].slot;
        && l.rings == rings[e := rings[e][k := At(p).(data := d, off := 0)]]
        && l.spots == spots && l.held == multiset{} && l.Users(d) == {p}
        && l.stored.Keys <= stored.Keys + {d} && l.blocks.Keys <= blocks.Keys + {d.mem}
    {
      var a := Added(d, At(p).bytes);
      assert a.Users(d) == {} && a.At(p) == At(p);
      var r := a.Rebind(p, d);
      assert r.held[d] == 1 && r.Users(d) == {p};
    }

    // the first |bytes| bytes of p overwritten in the region that p alone uses
    ghost predicate Pokable(p: Page, bytes: seq<byte>) {
      && Valid() && p in spots && SpotOK(p) && spots[p].slot > 0 && CellOK(At(p))
      && |bytes| <= |At(p).bytes| && Users(At(p).data) == {p}
    }

    ghost function Poke(p: Page, bytes: seq<byte>): Ledger
      requires Pokable(p, bytes)
    {
      var c := At(p);
      Put(Poked(p, bytes)).(stored := stored[c.data := Splat(stored[c.data], c.off, bytes)])
    }

    ghost function Poked(p: Page, bytes: seq<byte>): Cell
      requires Pokable(p, bytes)
    {
      At(p).(bytes := bytes + At(p).bytes[|bytes|..])
    }

    lemma PokePut(p: Page, bytes: seq<byte>)
      requires Pokable(p, bytes)
      ensures Puttable(Poked(p, bytes), Poke(p, bytes))
    {
      var c, l := Poked(p, bytes), Poke(p, bytes);
      var r := l.stored[c.data];
      assert r[c.off..c.off + |c.bytes|] == c.bytes;
      assert c.page == p;
      AllLive();
    }

    lemma PokeValid(p: Page, bytes: seq<byte>)
      requires Pokable(p, bytes)
      ensures Poke(p, bytes).Valid()
    {
      PokePut(p, bytes);
      PutValid(Poked(p, bytes), Poke(p, bytes));
    }

    // a new region filled at once
    lemma AddedFill(d: Data, bytes: seq<byte>, bytes': seq<byte>)
      ensures Added(d, bytes).Fill(d, bytes') == Added(d, bytes')
    {
      assert stored[d := bytes][d := bytes'] == stored[d := bytes'];
    }

    // a region no page uses yet overwritten
    ghost function Fill(d: Data, bytes: seq<byte>): Ledger
      requires d in stored
    {
      this.(stored := stored[d := bytes])
    }

    lemma FillValid(d: Data, bytes: seq<byte>)
      requires Valid() && d in stored && Users(d) == {} && |bytes| == d.len
      ensures Fill(d, bytes).Valid()
    {
      AllLive();
      SameUsers(Fill(d, bytes));
    }

    // From this to l pages of the ring around e were taken away or narrowed, and nothing else happened.
    ghost predicate Sheds(l: Ledger, e: Page) {
      && e in l.rings && l.rings == rings[e := l.rings[e]] && l.held == multiset{}
      && l.spots.Keys <= spots.Keys && l.stored.Keys <= stored.Keys && l.blocks.Keys <= blocks.Keys
    }

    lemma ShedsOn(mid: Ledger, l: Ledger, e: Page)
      requires Sheds(mid, e) && mid.Sheds(l, e)
      ensures Sheds(l, e)
    {}

    // ---- rings come and go with their buffers

    // a new empty ring
    ghost function Open(e: Page): Ledger {
      this.(rings := rings[e := [Cell(e, null, 0, [])]], spots := spots[e := Spot(e, 0)])
    }

    lemma OpenSpot(e: Page, p: Page)
      requires Valid() && e !in rings && e !in spots && p in spots && SpotOK(p)
      ensures Open(e).SpotOK(p) && Open(e).At(p) == At(p)
      ensures Open(e).Next(p) == Next(p) && Open(e).Prev(p) == Prev(p)
    {}

    lemma OpenValid(e: Page)
      requires Valid() && e !in rings && e !in spots
      ensures Open(e).Valid()
    {
      var l := Open(e);
      forall x | x in l.rings ensures l.RingOK(x) {
        if x != e {
          assert RingOK(x);
          forall i | 0 < i < |rings[x]| ensures l.CellOK(rings[x][i]) { assert CellOK(rings[x][i]); }
        }
      }
      forall p | p in l.spots ensures l.SpotOK(p) { if p != e { assert SpotOK(p); } }
      forall d | d in l.stored ensures l.RegionOK(d) {
        assert RegionOK(d);
        forall q | q in l.Users(d) ensures q in l.spots && l.SpotOK(q) && l.At(q).data == d { assert q in spots; }
      }
    }

    // an empty ring gone
    ghost function Close(e: Page): Ledger {
      this.(rings := rings - {e}, spots := spots - {e})
    }

    lemma CloseSpot(e: Page, p: Page)
      requires Valid() && e in rings && |rings[e]| == 1 && p in Close(e).spots
      ensures p in spots && SpotOK(p) && Close(e).SpotOK(p) && Close(e).At(p) == At(p)
      ensures Close(e).Next(p) == Next(p) && Close(e).Prev(p) == Prev(p)
    {
      assert SpotOK(p);
      assert RingOK(e);
    }

    lemma CloseValid(e: Page)
      requires Valid() && e in rings && |rings[e]| == 1
      ensures Close(e).Valid()
    {
      var l := Close(e);
      assert RingOK(e);
      forall x | x in l.rings ensures l.RingOK(x) {
        assert RingOK(x);
        forall i | 0 < i < |rings[x]| ensures l.CellOK(rings[x][i]) { assert CellOK(rings[x][i]); }
      }
      forall p | p in l.spots ensures l.SpotOK(p) { assert SpotOK(p); SameSpot(p, e); }
      forall d | d in l.stored ensures l.RegionOK(d) {
        assert RegionOK(d);
        forall q | q in l.Users(d) ensures q in l.spots && l.SpotOK(q) && l.At(q).data == d { assert q in spots; SameSpot(q, e); }
      }
    }

    // ---- use counts are exact

    // The users of a region are the pages of all rings that name it, no more and no fewer.
    lemma UsersExact(d: Data)
      requires Valid() && d in stored
      ensures forall p | p in spots :: SpotOK(p)
      ensures Users(d) == set p | p in spots && At(p).data == d
    {
      assert RegionOK(d);
      forall p | p in spots ensures SpotOK(p) && (At(p).data == d ==> p in Users(d)) {
        assert SpotOK(p);
        assert RingOK(spots[p].ring);
        assert spots[p].slot > 0 ==> CellOK(At(p));
      }
    }

    // all pages that show the region of the k-th page stand in the ring of e, none of them behind that one
    ghost predicate LastUser(e: Page, k: nat)
      requires e in rings && k < |rings[e]|
    {
      var d := rings[e][k].data;
      d != null && forall q {:trigger q in Users(d)} | q in Users(d) :: q in spots && spots[q].ring == e && spots[q].slot <= k
    }

    lemma SoleIsLast(e: Page, k: nat)
      requires Valid() && e in rings && 0 < k < |rings[e]|
      ensures CellOK(rings[e][k]) && (Users(rings[e][k].data) == {rings[e][k].page} ==> LastUser(e, k))
    {
      Here(e, k);
    }

    // While the pages of a ring are given regions of their own one after the other, but for those that are the last
    // to use theirs, each page finds itself alone on its region exactly if it was the last user of it to begin with.
    lemma AloneIffLast(l: Ledger, e: Page, i: nat)
      requires Valid() && l.Valid() && e in rings && e in l.rings && l.spots == spots && l.rings == rings[e := l.rings[e]]
      requires 0 < i < |rings[e]| == |l.rings[e]| && l.rings[e][i..] == rings[e][i..]
      requires forall k | 0 < k < i :: if LastUser(e, k) then l.rings[e][k].data == rings[e][k].data || l.rings[e][k].data !in stored
        else l.rings[e][k].data !in stored
      ensures rings[e][i] == l.rings[e][i] && rings[e][i].data in stored
      ensures l.Users(rings[e][i].data) == {rings[e][i].page} <==> LastUser(e, i)
    {
      var cs, ds, d, p := rings[e], l.rings[e], rings[e][i].data, rings[e][i].page;
      assert ds[i] == ds[i..][0] == cs[i..][0] == cs[i];
      Here(e, i);
      l.Here(e, i);
      UsersExact(d);
      l.UsersExact(d);
      forall q | q in spots
        ensures q in l.Users(d) <==> q in Users(d) && (spots[q].ring == e ==> spots[q].slot >= i)
      {
        AloneAt(l, e, i, q);
      }
    }

    lemma AloneAt(l: Ledger, e: Page, i: nat, q: Page)
      requires Valid() && l.Valid() && e in rings && e in l.rings && l.spots == spots && l.rings == rings[e := l.rings[e]]
      requires 0 < i < |rings[e]| == |l.rings[e]| && l.rings[e][i..] == rings[e][i..] && rings[e][i].data in stored && q in spots
      requires forall k | 0 < k < i :: if LastUser(e, k) then l.rings[e][k].data == rings[e][k].data || l.rings[e][k].data !in stored
        else l.rings[e][k].data !in stored
      ensures SpotOK(q) && l.SpotOK(q)
      ensures var d := rings[e][i].data; l.At(q).data == d <==> At(q).data == d && (spots[q].ring == e ==> spots[q].slot >= i)
    {
      var s, d, p := spots[q], rings[e][i].data, rings[e][i].page;
      assert SpotOK(q) && l.SpotOK(q);
      if s.ring == e {
        if s.slot >= i {
          assert l.rings[e][s.slot] == l.rings[e][i..][s.slot - i] == rings[e][i..][s.slot - i] == rings[e][s.slot];
        } else if s.slot == 0 {
          l.Here(e, 0);
        } else {
          Here(e, i);
          assert At(q).data == d ==> !LastUser(e, s.slot) by {
            if At(q).data == d { assert p in Users(d); }
          }
        }
      }
    }

    // When nothing is held by running code, every region there is has a page of some buffer on it.
    lemma StoredIsUsed(d: Data)
      requires Valid() && d in stored && held == multiset{}
      ensures exists p :: p in spots && SpotOK(p) && At(p).data == d
    {
      assert RegionOK(d);
      var p :| p in Users(d);
      assert p in spots;
    }

    // a use count of one means that no other page of any buffer shows the region
    lemma SoleUser(p: Page)
      requires Valid() && p in spots && SpotOK(p) && spots[p].slot > 0
      requires At(p).data in stored && Count(At(p).data) == 1
      ensures Users(At(p).data) == {p} && held[At(p).data] == 0
      ensures forall q | q in spots && q != p :: SpotOK(q) && At(q).data != At(p).data
    {
      var d := At(p).data;
      AtOK(p);
      assert Users(d) == {p} by {
        assert |Users(d) - {p}| == |Users(d)| - 1;
      }
      UsersExact(d);
      forall q | q in spots && q != p ensures SpotOK(q) && At(q).data != d {
        assert q !in Users(d);
      }
    }
  }
}
