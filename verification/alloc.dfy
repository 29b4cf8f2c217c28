// The heap kept in step with a ledger: regions and pages made, linked, unlinked,
// moved and let go. Every allocation may be refused.
module Allocation {
  import opened Memory
  import opened Sequences
  import opened Ledgers

  // a page's fields and links are what the ledger says
  ghost predicate PageMirrors(l: Ledger, p: Page)
    reads p
  {
    && p in l.spots && l.SpotOK(p)
    && var c := l.At(p);
    && p.data == c.data && p.off == c.off && p.len == |c.bytes|
    && p.next == l.Next(p) && p.prev == l.Prev(p)
  }

  // a region's use count and bytes are what the ledger says
  ghost predicate DataMirrors(l: Ledger, d: Data)
    reads d, d.mem
  {
    && d in l.stored && d.useCount == l.Count(d)
    && d.base + d.len <= d.mem.Length
    && d.mem[d.base..d.base + d.len] == l.stored[d]
  }

  // the heap is as the ledger says, and the ledger is well formed
  ghost predicate Mirrors(l: Ledger)
    reads l.spots.Keys, l.stored.Keys, set d | d in l.stored :: d.mem
  {
    && l.Valid()
    && (forall p {:trigger PageMirrors(l, p)} | p in l.spots :: PageMirrors(l, p))
    && (forall d {:trigger DataMirrors(l, d)} | d in l.stored :: DataMirrors(l, d))
  }

  // d's block holds `bytes`, which the ledger does not know yet
  ghost predicate DataHolds(l: Ledger, d: Data, bytes: seq<byte>)
    reads d, d.mem
  {
    && d in l.stored && d.useCount == l.Count(d)
    && d.base + d.len <= d.mem.Length
    && d.mem[d.base..d.base + d.len] == bytes
  }

  // p's links once the page of c stands in front of next
  ghost predicate LinkWritten(was: Ledger, c: Cell, next: Page, p: Page)
    requires next in was.spots && was.SpotOK(next)
    reads p
  {
    && p in was.spots && was.SpotOK(p)
    && (var b := was.At(p); p.data == b.data && p.off == b.off && p.len == |b.bytes|)
    && p.next == (if p == was.Prev(next) then c.page else was.Next(p))
    && p.prev == (if p == next then c.page else was.Prev(p))
  }

  lemma LinkMirrors(was: Ledger, c: Cell, next: Page)
    requires was.Linkable(c, next)
    requires c.page.data == c.data && c.page.off == c.off && c.page.len == |c.bytes|
    requires c.page.next == next && c.page.prev == was.Prev(next)
    requires forall p {:trigger LinkWritten(was, c, next, p)} | p in was.spots :: LinkWritten(was, c, next, p)
    requires forall d {:trigger DataMirrors(was, d)} | d in was.stored :: DataMirrors(was, d)
    ensures Mirrors(was.Link(c, next))
  {
    var l := was.Link(c, next);
    was.LinkValid(c, next);
    was.LinkCounts(c, next);
    CountsMirror(was, l);
    forall p | p in l.spots ensures PageMirrors(l, p) {
      was.LinkSpot(c, next, p);
      if p == c.page {
        was.LinkSelf(c, next);
      } else {
        assert LinkWritten(was, c, next, p);
        was.LinkNext(c, next, p);
        was.LinkPrev(c, next, p);
      }
    }
  }

  // p's links once `gone` is taken out of its ring
  ghost predicate UnlinkWritten(was: Ledger, gone: Page, p: Page)
    requires gone in was.spots && was.SpotOK(gone)
    reads p
  {
    && p in was.spots && was.SpotOK(p)
    && (var b := was.At(p); p.data == b.data && p.off == b.off && p.len == |b.bytes|)
    && p.next == (if p == was.Prev(gone) then was.Next(gone) else was.Next(p))
    && p.prev == (if p == was.Next(gone) then was.Prev(gone) else was.Prev(p))
  }

  lemma UnlinkMirrors(was: Ledger, gone: Page)
    requires was.Unlinkable(gone)
    requires forall p {:trigger UnlinkWritten(was, gone, p)} | p in was.spots && p != gone :: UnlinkWritten(was, gone, p)
    requires forall d {:trigger DataMirrors(was, d)} | d in was.stored :: DataMirrors(was, d)
    ensures Mirrors(was.Unlink(gone))
  {
    var l := was.Unlink(gone);
    was.UnlinkValid(gone);
    was.UnlinkCounts(gone);
    CountsMirror(was, l);
    forall p | p in l.spots ensures PageMirrors(l, p) {
      assert UnlinkWritten(was, gone, p);
      was.UnlinkSpot(gone, p);
      was.UnlinkNext(gone, p);
      was.UnlinkPrev(gone, p);
    }
  }

  lemma PutMirrors(was: Ledger, c: Cell, l: Ledger)
    requires c.page in was.spots && was.SpotOK(c.page) && l.rings == was.Put(c).rings && l.spots == was.spots
    requires c.page.data == c.data && c.page.off == c.off && c.page.len == |c.bytes|
    requires c.page.next == was.Next(c.page) && c.page.prev == was.Prev(c.page)
    requires forall p {:trigger PageMirrors(was, p)} | p in was.spots && p != c.page :: PageMirrors(was, p)
    ensures forall p {:trigger PageMirrors(l, p)} | p in l.spots :: PageMirrors(l, p)
  {
    forall p | p in l.spots ensures PageMirrors(l, p) {
      assert p != c.page ==> PageMirrors(was, p);
      was.PutSpot(c, p);
      was.PutLinks(c, p);
    }
  }

  // the use counts and bytes of the stored unchanged
  lemma CountsMirror(was: Ledger, l: Ledger)
    requires l.stored == was.stored && forall d | d in was.stored :: l.Count(d) == was.Count(d)
    requires forall d {:trigger DataMirrors(was, d)} | d in was.stored :: DataMirrors(was, d)
    ensures forall d {:trigger DataMirrors(l, d)} | d in l.stored :: DataMirrors(l, d)
  {
    forall d | d in l.stored ensures DataMirrors(l, d) { assert DataMirrors(was, d); }
  }

  // the use count of x once one page has moved from region `from` to region `to`
  ghost predicate RebindWritten(was: Ledger, from: Data, to: Data, x: Data)
    reads x, x.mem
  {
    && x in was.stored && x.base + x.len <= x.mem.Length
    && x.useCount == was.Count(x) + (if x == to then 1 else 0) - (if x == from then 1 else 0)
    && x.mem[x.base..x.base + x.len] == was.stored[x]
  }

  lemma RebindMirrors(was: Ledger, p: Page, d: Data)
    requires was.Rebindable(p, d)
    requires p.data == d && p.off == 0 && p.len == d.len && p.next == was.Next(p) && p.prev == was.Prev(p)
    requires forall q {:trigger PageMirrors(was, q)} | q in was.spots && q != p :: PageMirrors(was, q)
    requires forall x {:trigger RebindWritten(was, was.At(p).data, d, x)} | x in was.stored :: RebindWritten(was, was.At(p).data, d, x)
    ensures was.Rebind(p, d).Valid()
    ensures forall q {:trigger PageMirrors(was.Rebind(p, d), q)} | q in was.Rebind(p, d).spots :: PageMirrors(was.Rebind(p, d), q)
    ensures forall x {:trigger DataMirrors(was.Rebind(p, d), x)} | x in was.Rebind(p, d).stored :: DataMirrors(was.Rebind(p, d), x)
  {
    var l, c := was.Rebind(p, d), was.At(p).(data := d, off := 0);
    was.AtOK(p);
    was.RebindValid(p, d);
    was.RebindCounts(p, d);
    was.AllLive();
    assert c.page == p;
    PutMirrors(was, c, l);
    forall x | x in l.stored ensures DataMirrors(l, x) { assert RebindWritten(was, was.At(p).data, d, x); }
  }

  // one region has got new bytes, and the others are as they were
  lemma PokeMirrors(was: Ledger, d: Data, bytes: seq<byte>, l: Ledger)
    requires DataHolds(was, d, bytes) && l.stored == was.stored[d := bytes] && l.users == was.users && l.held == was.held
    requires forall x {:trigger DataMirrors(was, x)} | x in was.stored && x != d :: DataMirrors(was, x)
    ensures forall x {:trigger DataMirrors(l, x)} | x in l.stored :: DataMirrors(l, x)
  {
    forall x | x in l.stored ensures DataMirrors(l, x) { assert x != d ==> DataMirrors(was, x); }
  }

  // The use count of a region is the number of pages, in all buffers, that name it,
  // and of those who hold it while they work.
  lemma UseCountExact(l: Ledger, d: Data)
    requires Mirrors(l) && d in l.stored
    ensures forall p | p in l.spots :: l.SpotOK(p)
    ensures d.useCount == |set p | p in l.spots && l.At(p).data == d| + l.held[d] > 0
  {
    assert DataMirrors(l, d);
    l.UsersExact(d);
    l.AllLive();
  }

  class Allocator {
    ghost var ledger: Ledger
    ghost var refusals: nat

    ghost predicate Valid()
      reads this, ledger.spots.Keys, ledger.stored.Keys, set d | d in ledger.stored :: d.mem
    {
      Mirrors(ledger)
    }

    // nothing allocated yet
    constructor ()
      ensures Valid() && fresh(this) && refusals == 0
      ensures ledger == Ledger(map[], map[], map[], map[], multiset{}, map[])
    {
      ledger, refusals := Ledger(map[], map[], map[], map[], multiset{}, map[]), 0;
    }

    // What there is in the ledger and was not there before is new, and refusals are never taken back.
    // `GrownShows` says it to whoever goes on with another operation.
    twostate predicate Grown()
      reads this
    {
      forall u {:trigger Aged(u)} :: Aged(u) ==>
        && (forall p | p in ledger.spots && p !in old(ledger.spots) :: fresh(p))
        && (forall d | d in ledger.stored && d !in old(ledger.stored) :: fresh(d))
        && (forall m | m in ledger.blocks && m !in old(ledger.blocks) :: fresh(m))
        && old(refusals) <= refusals
    }

    twostate lemma GrownShows()
      requires Grown()
      ensures fresh(ledger.spots.Keys - old(ledger.spots.Keys)) && fresh(ledger.stored.Keys - old(ledger.stored.Keys))
      ensures fresh(ledger.blocks.Keys - old(ledger.blocks.Keys)) && old(refusals) <= refusals
    {
      assert Aged(0);
    }

    // nothing is there that was not there before, but for one page and new ones
    twostate predicate GrownBy(page: Page)
      reads this
    {
      forall u {:trigger Aged(u)} :: Aged(u) ==>
        && (forall p | p in ledger.spots && p !in old(ledger.spots) :: p == page || fresh(p))
        && (forall d | d in ledger.stored :: d in old(ledger.stored)) && (forall m | m in ledger.blocks :: m in old(ledger.blocks))
        && old(refusals) <= refusals
    }

    twostate lemma GrownNot()
      requires ledger.spots.Keys <= old(ledger.spots.Keys) && ledger.stored.Keys <= old(ledger.stored.Keys)
      requires ledger.blocks.Keys <= old(ledger.blocks.Keys) && old(refusals) <= refusals
      ensures Grown()
    {}

    // an allocation, which may be refused
    method Grant() returns (ok: bool)
      modifies this`refusals
      ensures refusals == old(refusals) + if ok then 0 else 1
    {
      ok := *;
      if !ok { refusals := refusals + 1; }
    }

    // pb_trivial_data_create
    method DataCreate(len: nat) returns (d: Data?)
      requires Valid()
      modifies this
      ensures Valid()
      ensures refusals == old(refusals) + if d == null then 1 else 0
      ensures d == null ==> ledger == old(ledger)
      ensures d != null ==> fresh(d) && fresh(d.mem) && d.owned && d.base == 0 && d.len == len == d.mem.Length
      ensures d != null ==> ledger == old(ledger).Added(d, d.mem[..])
    {
      var ok := Grant();
      if !ok { return null; }
      var mem := new byte[len];
      ok := Grant();
      if !ok { return null; }
      d := new Data(mem, 0, len, true);
      assert mem !in ledger.blocks;
      assert forall x | x in ledger.stored :: x.mem != mem;
      ledger.AddedValid(d, mem[..]);
      ghost var was := ledger;
      ledger := ledger.Added(d, mem[..]);
      forall p | p in ledger.spots ensures PageMirrors(ledger, p) { assert old(PageMirrors(ledger, p)); }
      forall x | x in ledger.stored ensures DataMirrors(ledger, x) { if x != d { assert old(DataMirrors(ledger, x)); } }
    }

    // pb_trivial_data_create_ref
    method DataCreateRef(mem: array<byte>, base: nat, len: nat) returns (d: Data?)
      requires Valid() && base + len <= mem.Length && mem !in ledger.blocks
      modifies this
      ensures Valid()
      ensures refusals == old(refusals) + if d == null then 1 else 0
      ensures d == null ==> ledger == old(ledger)
      ensures d != null ==> fresh(d) && !d.owned && d.mem == mem && d.base == base && d.len == len
      ensures d != null ==> ledger == old(ledger).Added(d, mem[base..base + len])
    {
      var ok := Grant();
      if !ok { return null; }
      d := new Data(mem, base, len, false);
      ledger.AddedValid(d, mem[base..base + len]);
      ledger := ledger.Added(d, mem[base..base + len]);
      forall p | p in ledger.spots ensures PageMirrors(ledger, p) { assert old(PageMirrors(ledger, p)); }
      forall x | x in ledger.stored ensures DataMirrors(ledger, x) { if x != d { assert old(DataMirrors(ledger, x)); } }
    }

    // pb_data_get
    method DataGet(d: Data)
      requires Valid() && d in ledger.stored
      modifies this`ledger, d
      ensures Valid() && ledger == old(ledger).Hold(d)
    {
      assert DataMirrors(ledger, d);
      d.useCount := d.useCount + 1;
      ledger.HoldValid(d);
      ledger := ledger.Hold(d);
      forall p | p in ledger.spots ensures PageMirrors(ledger, p) { assert old(PageMirrors(ledger, p)); }
      forall x | x in ledger.stored ensures DataMirrors(ledger, x) { assert old(DataMirrors(ledger, x)); }
    }

    // pb_data_put: the count taken down by one, and the region freed if that leaves none
    method DataPut(d: Data) returns (gone: bool)
      requires Valid() && d in ledger.stored && ledger.held[d] > 0
      modifies this`ledger, d
      ensures Valid() && ledger == old(ledger).Release(d)
      ensures gone <==> d !in ledger.stored
      ensures gone <==> old(ledger).Users(d) == {} && old(ledger).held[d] == 1
    {
      assert DataMirrors(ledger, d);
      ledger.ReleaseIff(d);
      d.useCount := d.useCount - 1;
      gone := d.useCount == 0;
      ledger.ReleaseValid(d);
      ledger := ledger.Release(d);
      forall p | p in ledger.spots ensures PageMirrors(ledger, p) { assert old(PageMirrors(ledger, p)); }
      forall x | x in ledger.stored ensures DataMirrors(ledger, x) { assert old(DataMirrors(ledger, x)); }
    }

    // a page in no ring, with a reference to its region that is not yet counted as a page's
    ghost predicate Loose(page: Page)
      reads this, page
    {
      && page !in ledger.spots && page.data in ledger.stored && ledger.held[page.data] > 0
      && page.off + page.len <= |ledger.stored[page.data]|
    }

    ghost function CellOf(page: Page): (c: Cell)
      requires Loose(page)
      reads this, page
      ensures ledger.Backed(c)
    {
      Cell(page, page.data, page.off, ledger.stored[page.data][page.off..page.off + page.len])
    }

    // the four pointers of a linking
    method WriteLinks(page: Page, next: Page, ghost c: Cell)
      requires Valid() && page !in ledger.spots && c.page == page && next in ledger.spots && ledger.SpotOK(next)
      modifies page`prev, page`next, next`prev, next.prev
      ensures page.prev == ledger.Prev(next) && page.next == next && page.data == old(page.data)
        && page.off == old(page.off) && page.len == old(page.len)
      ensures next.prev == page && next.data == old(next.data)
      ensures forall p {:trigger LinkWritten(ledger, c, next, p)} | p in ledger.spots :: LinkWritten(ledger, c, next, p)
    {
      assert PageMirrors(ledger, next);
      ledger.PrevSpot(next);
      var prev := next.prev;
      page.prev, page.next := prev, next;
      prev.next := page;
      next.prev := page;
      forall p | p in ledger.spots ensures LinkWritten(ledger, c, next, p) { assert old(PageMirrors(ledger, p)); }
    }

    method LinkBefore(page: Page, next: Page)
      requires Valid() && Loose(page) && next in ledger.spots && ledger.SpotOK(next)
      modifies this`ledger, page`prev, page`next, next`prev, next.prev
      ensures Valid() && next.prev == page && next.data == old(next.data)
      ensures ledger == old(ledger.Link(CellOf(page), next))
    {
      ghost var c := CellOf(page);
      WriteLinks(page, next, c);
      LinkMirrors(ledger, c, next);
      ledger := ledger.Link(c, next);
    }

    // a new page for the first o bytes of `next`, linked in front of it
    method LinkFront(next: Page, o: nat) returns (first: Page?)
      requires Valid() && next in ledger.spots && ledger.SpotOK(next) && ledger.spots[next].slot > 0 && 0 < o <= next.len
      requires next.data == ledger.At(next).data
      modifies this, next`prev, next.prev, next.data
      ensures Valid() && next.data == old(next.data) && next.prev == (if first == null then old(next.prev) else first)
      ensures refusals == old(refusals) + if first == null then 1 else 0
      ensures first == null ==> ledger == old(ledger)
      ensures first != null ==> fresh(first) && old(ledger).FrontedBy(ledger, next, o, first)
    {
      ghost var was, c := ledger, ledger.At(next);
      assert PageMirrors(was, next);
      was.AtOK(next);
      SliceOfSlice(was.stored[c.data], c.off, c.off + |c.bytes|, 0, o);
      first := PageTransfer(next, next.len, 0);
      if first == null { return; }
      first.len := o;
      was.SplitLinkable(next, o, first);
      assert CellOf(first) == c.Left(first, o);
      LinkBefore(first, next);
      was.FrontedFacts(next, o, first);
    }

    // pb_trivial_buffer_insert, the branch for a non-zero offset: `next` keeps what is behind o
    method Split(next: Page, o: nat) returns (first: Page?)
      requires Valid() && next in ledger.spots && ledger.SpotOK(next) && ledger.spots[next].slot > 0 && 0 < o <= next.len
      modifies this, next, next.prev, next.data
      ensures Valid() && next.data == old(next.data) && next.prev == (if first == null then old(next.prev) else first)
      ensures refusals == old(refusals) + if first == null then 1 else 0
      ensures first == null ==> ledger == old(ledger)
      ensures first != null ==> fresh(first) && old(ledger).SameStore(ledger) && ledger.spots.Keys == old(ledger).spots.Keys + {first}
      ensures first != null ==>
        var e, k, c := old(ledger).spots[next].ring, old(ledger).spots[next].slot, old(ledger.At(next));
        && ledger.spots[next] == Spot(e, k + 1) && o <= |c.bytes|
        && ledger.rings == old(ledger).rings[e := old(ledger).rings[e][..k] + [c.Left(first, o), c.Right(o)] + old(ledger).rings[e][k + 1..]]
    {
      ghost var was := ledger;
      assert PageMirrors(was, next);
      was.AtOK(next);
      first := LinkFront(next, o);
      if first != null {
        Behind(next, o, was, first);
      }
    }

    // the page narrowed to what is behind o, when its front has a page of its own
    method Behind(next: Page, o: nat, ghost was: Ledger, first: Page)
      requires Valid() && was.Splittable(next, o, first) && was.FrontedBy(ledger, next, o, first)
      modifies this`ledger, next`off, next`len
      ensures Valid() && was.SameStore(ledger) && ledger.spots.Keys == was.spots.Keys + {first}
      ensures var e, k, c := was.spots[next].ring, was.spots[next].slot, was.At(next);
        && ledger.spots[next] == Spot(e, k + 1) && o <= |c.bytes|
        && ledger.rings == was.rings[e := was.rings[e][..k] + [c.Left(first, o), c.Right(o)] + was.rings[e][k + 1..]]
    {
      assert PageMirrors(ledger, next);
      was.SplitRings(ledger, next, o, first);
      Resize(next, next.off + o, next.len - o);
    }

    // a page that no buffer holds yet, linked in front of `next`
    method Join(page: Page, next: Page)
      requires Valid() && Loose(page) && next in ledger.spots && ledger.SpotOK(next)
      modifies this`ledger, page`prev, page`next, next`prev, next.prev
      ensures Valid() && next.prev == page && next.data == old(next.data)
      ensures var was, e := old(ledger), old(ledger).spots[next].ring;
        && was.Became(ledger, e, InsertAt(was.rings[e], was.Gap(next), old(CellOf(page))))
        && ledger.spots.Keys == was.spots.Keys + {page}
        && ledger.held == was.held - multiset{old(page.data)}
    {
      ledger.LinkFacts(CellOf(page), next);
      LinkBefore(page, next);
    }

    // the four pointers of an unlinking
    method WriteUnlink(page: Page)
      requires Valid() && ledger.Unlinkable(page)
      modifies page, page.prev, page.next
      ensures page.data == old(page.data)
        && page.off == old(page.off) && page.len == old(page.len)
      ensures forall p {:trigger UnlinkWritten(ledger, page, p)} | p in ledger.spots && p != page :: UnlinkWritten(ledger, page, p)
    {
      assert PageMirrors(ledger, page);
      ledger.PrevSpot(page);
      ledger.NextSpot(page);
      var next := page.next;
      page.prev.next := next;
      next.prev := page.prev;
      page.prev, page.next := null, null;
      forall p | p in ledger.spots && p != page ensures UnlinkWritten(ledger, page, p) { assert old(PageMirrors(ledger, p)); }
    }

    method Unlink(page: Page)
      requires Valid() && ledger.Unlinkable(page)
      modifies this`ledger, page, page.prev, page.next
      ensures Valid()
      ensures ledger == old(ledger.Unlink(page))
      ensures Loose(page) && page.data == old(page.data)
    {
      assert PageMirrors(ledger, page);
      WriteUnlink(page);
      UnlinkMirrors(ledger, page);
      ledger.UnlinkCounts(page);
      ledger := ledger.Unlink(page);
    }

    // pb_page_create
    method PageCreate(d: Data) returns (page: Page?)
      requires Valid() && d in ledger.stored
      modifies this, d
      ensures Valid()
      ensures refusals == old(refusals) + if page == null then 1 else 0
      ensures page == null ==> ledger == old(ledger)
      ensures page != null ==> fresh(page) && page.data == d && page.off == 0 && page.len == d.len
      ensures page != null ==> ledger == old(ledger).Hold(d) && page !in ledger.spots
    {
      var ok := Grant();
      if !ok { return null; }
      page := new Page();
      page.off, page.len, page.data := 0, d.len, d;
      DataGet(d);
    }

    // pb_page_transfer: another page on the same region
    method PageTransfer(src: Page, len: nat, off: nat) returns (page: Page?)
      requires Valid() && src in ledger.spots && src.data in ledger.stored && off + len <= src.len
      modifies this, src.data
      ensures Valid()
      ensures refusals == old(refusals) + if page == null then 1 else 0
      ensures page == null ==> ledger == old(ledger)
      ensures page != null ==> fresh(page) && page.data == src.data && page.off == src.off + off && page.len == len
      ensures page != null ==> ledger == old(ledger).Hold(src.data) && page !in ledger.spots
    {
      var ok := Grant();
      if !ok { return null; }
      page := new Page();
      page.off, page.len, page.data := src.off + off, len, src.data;
      DataGet(src.data);
    }

    // pb_page_destroy
    method PageDestroy(page: Page) returns (gone: bool)
      requires Valid() && Loose(page)
      modifies this`ledger, page, page.data
      ensures Valid()
      ensures ledger == old(ledger).Release(old(page.data))
      ensures gone <==> old(page.data) !in ledger.stored
    {
      gone := DataPut(page.data);
      page.data, page.off, page.len, page.prev, page.next := null, 0, 0, null, null;
      forall p | p in ledger.spots ensures PageMirrors(ledger, p) {}
      forall x | x in ledger.stored ensures DataMirrors(ledger, x) {}
    }

    // pb_trivial_buffer_page_create
    method BufferPageCreate(len: nat) returns (page: Page?)
      requires Valid()
      modifies this
      ensures Valid()
      ensures page == null ==> ledger == old(ledger) && refusals > old(refusals)
      ensures page != null ==> refusals == old(refusals) && fresh(page) && fresh(page.data) && fresh(page.data.mem)
      ensures page != null ==> page.off == 0 && page.len == len == page.data.len == page.data.mem.Length && page.data.owned && page.data.base == 0
      ensures page != null ==> ledger == old(ledger).Added(page.data, page.data.mem[..]) && page !in ledger.spots
    {
      ghost var was := ledger;
      var data := DataCreate(len);
      if data == null { return null; }
      was.AddedPage(data, data.mem[..]);
      page := PageCreate(data);
      var _ := DataPut(data);
    }

    // the same, with bytes of a block copied in
    method FilledPageCreate(src: array<byte>, from: nat, len: nat) returns (page: Page?)
      requires Valid() && from + len <= src.Length
      modifies this
      ensures Valid()
      ensures page == null ==> ledger == old(ledger) && refusals > old(refusals)
      ensures page != null ==> refusals == old(refusals) && fresh(page) && fresh(page.data) && fresh(page.data.mem)
      ensures page != null ==> page.off == 0 && page.len == len == page.data.len && page.data.owned && page.data.base == 0
      ensures page != null ==> ledger == old(ledger).Added(page.data, src[from..from + len]) && page !in ledger.spots
    {
      page := BufferPageCreate(len);
      if page != null {
        FillData(page.data, src, from);
      }
    }

    // pb_trivial_buffer_page_create_ref
    method BufferPageCreateRef(mem: array<byte>, base: nat, len: nat) returns (page: Page?)
      requires Valid() && base + len <= mem.Length && mem !in ledger.blocks
      modifies this
      ensures Valid()
      ensures page == null ==> ledger == old(ledger) && refusals > old(refusals)
      ensures page != null ==> refusals == old(refusals) && fresh(page) && fresh(page.data)
      ensures page != null ==> page.off == 0 && page.len == len == page.data.len && !page.data.owned && page.data.mem == mem && page.data.base == base
      ensures page != null ==> ledger == old(ledger).Added(page.data, mem[base..base + len]) && page !in ledger.spots
    {
      ghost var was := ledger;
      var data := DataCreateRef(mem, base, len);
      if data == null { return null; }
      was.AddedPage(data, mem[base..base + len]);
      page := PageCreate(data);
      var _ := DataPut(data);
    }

    // a page's window moved within its region
    method Resize(page: Page, off: nat, len: nat)
      requires Valid() && page in ledger.spots && ledger.SpotOK(page) && ledger.spots[page].slot > 0
      requires page.data in ledger.stored && off + len <= |ledger.stored[page.data]|
      modifies this`ledger, page`off, page`len
      ensures Valid()
      ensures ledger == old(ledger.Resize(page, off, ledger.stored[page.data][off..off + len]))
    {
      ghost var was, bytes := ledger, ledger.stored[page.data][off..off + len];
      assert PageMirrors(was, page);
      page.off, page.len := off, len;
      was.ResizeValid(page, off, bytes);
      forall p | p in was.spots && p != page ensures PageMirrors(was, p) { assert old(PageMirrors(was, p)); }
      PutMirrors(was, Cell(page, page.data, off, bytes), was.Resize(page, off, bytes));
      CountsMirror(was, was.Resize(page, off, bytes));
      ledger := was.Resize(page, off, bytes);
    }

    method WriteRebind(page: Page, from: Data, d: Data) returns (gone: bool)
      requires Valid() && ledger.Rebindable(page, d) && from == ledger.At(page).data == page.data
      modifies page`data, page`off, page`len, from, d
      ensures page.data == d && page.off == 0 && page.len == d.len && page.next == ledger.Next(page) && page.prev == ledger.Prev(page)
      ensures forall q {:trigger PageMirrors(ledger, q)} | q in ledger.spots && q != page :: PageMirrors(ledger, q)
      ensures forall x {:trigger RebindWritten(ledger, from, d, x)} | x in ledger.stored :: RebindWritten(ledger, from, d, x)
      ensures gone <==> ledger.Count(from) == 1
    {
      assert PageMirrors(ledger, page) && DataMirrors(ledger, from) && DataMirrors(ledger, d);
      assert ledger.RegionOK(from);
      from.useCount := from.useCount - 1;
      gone := from.useCount == 0;
      page.data, page.off, page.len := d, 0, d.len;
      d.useCount := d.useCount + 1;
      forall p | p in ledger.spots && p != page ensures PageMirrors(ledger, p) { assert old(PageMirrors(ledger, p)); }
      forall x | x in ledger.stored ensures RebindWritten(ledger, from, d, x) { assert old(DataMirrors(ledger, x)); }
    }

    // pb_page_set_data for a page in a ring
    method Rebind(page: Page, d: Data) returns (gone: bool)
      requires Valid() && ledger.Rebindable(page, d)
      modifies this`ledger, page`data, page`off, page`len, page.data, d
      ensures Valid()
      ensures page.data == d
      ensures ledger == old(ledger.Rebind(page, d))
      ensures gone <==> old(page.data) !in ledger.stored
    {
      assert PageMirrors(ledger, page);
      ledger.RebindFrees(page, d);
      gone := WriteRebind(page, page.data, d);
      RebindMirrors(ledger, page, d);
      ledger := ledger.Rebind(page, d);
    }

    // memcpy into a region
    method WriteRegion(d: Data, at: nat, src: array<byte>, from: nat, n: nat)
      requires Valid() && d in ledger.stored && d.owned && at + n <= d.len
      requires src != d.mem && from + n <= src.Length
      modifies d.mem
      ensures forall p {:trigger PageMirrors(ledger, p)} | p in ledger.spots :: PageMirrors(ledger, p)
      ensures |ledger.stored[d]| == d.len
      ensures DataHolds(ledger, d, Splat(ledger.stored[d], at, src[from..from + n]))
      ensures forall x {:trigger DataMirrors(ledger, x)} | x in ledger.stored && x != d :: DataMirrors(ledger, x)
    {
      assert DataMirrors(ledger, d);
      ledger.AllLive();
      ghost var m := d.mem[..];
      CopyBytes(d.mem, d.base + at, src, from, n);
      SplatWindow(m, d.mem[..], d.base, d.len, at, src[from..from + n]);
      forall p | p in ledger.spots ensures PageMirrors(ledger, p) { assert old(PageMirrors(ledger, p)); }
      forall x | x in ledger.stored && x != d ensures DataMirrors(ledger, x) {
        assert old(DataMirrors(ledger, x));
        assert x.mem != d.mem;
      }
    }

    // memcpy over the whole of a region that no page of a buffer uses yet
    method FillData(d: Data, src: array<byte>, from: nat)
      requires Valid() && d in ledger.stored && d.owned && ledger.Users(d) == {}
      requires src != d.mem && from + d.len <= src.Length
      modifies this`ledger, d.mem
      ensures Valid()
      ensures ledger == old(ledger).Fill(d, src[from..from + d.len])
    {
      ghost var was, bytes := ledger, src[from..from + d.len];
      WriteRegion(d, 0, src, from, d.len);
      assert Splat(was.stored[d], 0, bytes) == bytes;
      was.FillValid(d, bytes);
      ledger := was.Fill(d, bytes);
      forall p | p in was.spots ensures PageMirrors(ledger, p) { assert PageMirrors(was, p); }
      forall x | x in was.stored ensures DataMirrors(ledger, x) { assert x != d ==> DataMirrors(was, x); }
    }

    // memcpy over the front of a page in a ring
    method PokePage(page: Page, src: array<byte>, from: nat, n: nat)
      requires Valid() && from + n <= src.Length && ledger.Pokable(page, src[from..from + n])
      requires page.data == ledger.At(page).data && page.data.owned && src != page.data.mem
      modifies this`ledger, page.data.mem
      ensures Valid()
      ensures ledger == old(ledger).Poke(page, src[from..from + n])
    {
      ghost var was, bytes := ledger, src[from..from + n];
      assert PageMirrors(was, page);
      was.AllLive();
      WriteRegion(page.data, page.off, src, from, n);
      was.PokeValid(page, bytes);
      PutMirrors(was, was.Poked(page, bytes), was.Poke(page, bytes));
      PokeMirrors(was, page.data, Splat(was.stored[page.data], page.off, bytes), was.Poke(page, bytes));
      ledger := was.Poke(page, bytes);
    }

    // the end page of a new buffer, linked to itself
    method OpenRing() returns (end: Page)
      requires Valid()
      modifies this`ledger
      ensures Valid() && fresh(end) && ledger == old(ledger).Open(end) && end !in old(ledger).rings && end !in old(ledger).spots
    {
      end := new Page();
      end.prev, end.next := end, end;
      ledger.OpenValid(end);
      ghost var was := ledger;
      ledger := was.Open(end);
      forall p | p in ledger.spots ensures PageMirrors(ledger, p) {
        if p != end { assert old(PageMirrors(was, p)); was.OpenSpot(end, p); }
      }
      forall x | x in was.stored ensures DataMirrors(ledger, x) { assert old(DataMirrors(was, x)); }
    }

    ghost method CloseRing(end: Page)
      requires Valid() && end in ledger.rings && |ledger.rings[end]| == 1
      modifies this`ledger
      ensures Valid() && ledger == old(ledger).Close(end)
    {
      ghost var was := ledger;
      was.CloseValid(end);
      ledger := was.Close(end);
      forall p | p in ledger.spots ensures PageMirrors(ledger, p) { assert PageMirrors(was, p); was.CloseSpot(end, p); }
      forall x | x in was.stored ensures DataMirrors(ledger, x) { assert DataMirrors(was, x); }
    }

    // a new region holding what a page shows
    method DataCopy(page: Page) returns (data: Data?)
      requires Valid() && page in ledger.spots && ledger.SpotOK(page) && ledger.spots[page].slot > 0
      modifies this
      ensures Valid()
      ensures refusals == old(refusals) + if data == null then 1 else 0
      ensures data == null ==> ledger == old(ledger)
      ensures data != null ==> fresh(data) && fresh(data.mem) && data.owned && data.len == page.len && data !in old(ledger).stored
      ensures data != null ==> ledger == old(ledger).Added(data, old(ledger.At(page).bytes))
    {
      ghost var was, c := ledger, ledger.At(page);
      assert PageMirrors(was, page);
      was.AtOK(page);
      assert DataMirrors(was, c.data);
      assert forall i | 0 <= i < page.len :: c.bytes[i] == was.stored[c.data][page.off + i] == c.data.mem[c.data.base + page.off + i];
      assert page.data.mem[page.data.base + page.off..page.data.base + page.off + page.len] == c.bytes;
      data := FilledDataCreate(page.data.mem, page.data.base + page.off, page.len);
    }

    // a new region with bytes of a block copied in
    method FilledDataCreate(src: array<byte>, from: nat, len: nat) returns (data: Data?)
      requires Valid() && from + len <= src.Length
      modifies this
      ensures Valid()
      ensures refusals == old(refusals) + if data == null then 1 else 0
      ensures data == null ==> ledger == old(ledger)
      ensures data != null ==> fresh(data) && fresh(data.mem) && data.owned && data.len == len && data !in old(ledger).stored
      ensures data != null ==> ledger == old(ledger).Added(data, src[from..from + len])
    {
      ghost var was := ledger;
      data := DataCreate(len);
      if data != null {
        was.AddedFill(data, data.mem[..], src[from..from + len]);
        FillData(data, src, from);
      }
    }

    // pb_trivial_buffer_dup_page_data: the page gets a region of its own
    method DupPageData(page: Page) returns (ok: bool)
      requires Valid() && page in ledger.spots && ledger.SpotOK(page) && ledger.spots[page].slot > 0
      requires ledger.At(page).data in ledger.stored && page.data == ledger.At(page).data
      modifies this, page, page.data
      ensures Valid()
      ensures refusals == old(refusals) + if ok then 0 else 1
      ensures !ok ==> ledger == old(ledger)
      ensures ok ==> fresh(page.data) && fresh(page.data.mem) && page.data.owned && page.data !in old(ledger).stored
      ensures ok ==> ledger == old(ledger).Dup(page, page.data)
    {
      var data := DataCopy(page);
      if data == null { return false; }
      var _ := Rebind(page, data);
      var _ := DataPut(data);
      ok := true;
    }
  }
}
