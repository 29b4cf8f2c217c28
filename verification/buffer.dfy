// The trivial buffer: a ring of pages around an end page that behaves like one flat
// sequence of bytes.
module TrivialBuffer {
  import opened Memory
  import opened Sequences
  import opened Ledgers
  import opened Allocation
  import opened Fragments
  import opened Insertions
  import opened Portions
  import opened Housing

  // pb_buffer_strategy
  datatype Strategy = Strategy(pageSize: nat, cloneOnWrite: bool, fragmentAsTarget: bool,
                               rejectsInsert: bool, rejectsExtend: bool, rejectsRewind: bool, rejectsSeek: bool,
                               rejectsTrim: bool, rejectsWrite: bool, rejectsOverwrite: bool)

  // Where the bytes of a new page come from: copied from or left in memory of the caller,
  // whatever the allocator gives, shared with or copied from a page of another buffer.
  datatype Supply =
    | Copied(buf: array<byte>, at: nat)
    | Referenced(buf: array<byte>, at: nat)
    | Blank
    | Shared(src: Page, from: nat)
    | Cloned(src: Page, from: nat)

  class Buffer {
    const allocator: Allocator
    const strategy: Strategy
    const pageEnd: Page
    var dataRevision: nat
    var dataSize: nat
    ghost var history: seq<Snap>

    constructor (allocator: Allocator, strategy: Strategy, pageEnd: Page)
      ensures this.allocator == allocator && this.strategy == strategy && this.pageEnd == pageEnd
      ensures dataRevision == 0 && dataSize == 0 && history == [Snap(0, [Cell(pageEnd, null, 0, [])])]
    {
      this.allocator, this.strategy, this.pageEnd, dataRevision, dataSize := allocator, strategy, pageEnd, 0, 0;
      history := [Snap(0, [Cell(pageEnd, null, 0, [])])];
    }

    // the heap is in order and this buffer's ring is part of it
    ghost predicate Open()
      reads this, allocator, allocator.ledger.spots.Keys, allocator.ledger.stored.Keys, set d | d in allocator.ledger.stored :: d.mem
    {
      allocator.Valid() && pageEnd in allocator.ledger.rings
    }

    ghost function Cells(): seq<Cell>
      requires pageEnd in allocator.ledger.rings
      reads allocator
    {
      allocator.ledger.rings[pageEnd]
    }

    ghost predicate Inside(p: Page)
      reads allocator
    {
      p in allocator.ledger.spots && allocator.ledger.SpotOK(p) && allocator.ledger.spots[p].ring == pageEnd
    }

    ghost function Slot(p: Page): nat
      requires Inside(p)
      reads allocator
    {
      allocator.ledger.spots[p].slot
    }

    // The place in front of `next` at `offset`: the index of its cell, counting the end as one past the last.
    ghost function Gap(next: Page): nat
      requires Inside(next)
      reads allocator
    {
      allocator.ledger.Gap(next)
    }

    // the iterator page cut in two at o, unless o is 0
    method MakeGap(next: Page, o: nat) returns (ok: bool, ghost left: Page)
      requires Open() && Inside(next) && o <= next.len
      modifies allocator, next, next.prev, next.data
      ensures next.data == old(next.data) && (next.prev == old(next.prev) || (ok && fresh(next.prev)))
      ensures Open() && Inside(next) && Fragments.Gap(old(Cells()), old(Gap(next)), o)
      ensures !ok ==> allocator.ledger == old(allocator.ledger) && allocator.refusals > old(allocator.refusals)
      ensures ok ==> allocator.refusals == old(allocator.refusals)
      ensures o == 0 ==> ok
      ensures ok ==> allocator.ledger.rings == old(allocator.ledger.rings)[pageEnd := Gapped(old(Cells()), old(Gap(next)), o, left)]
      ensures ok ==> Gap(next) == old(Gap(next)) + if o > 0 then 1 else 0
      ensures old(allocator.ledger).SameStore(allocator.ledger) && allocator.Grown()
    {
      ghost var was := allocator.ledger;
      assert PageMirrors(was, next);
      was.Here(pageEnd, Slot(next));
      left := next;
      if o == 0 { return true, left; }
      var first := allocator.Split(next, o);
      if first == null { return false, left; }
      left := first;
      ok := true;
    }

    lemma Apart(next: Page, page: Page)
      requires Open() && Inside(next) && page !in allocator.ledger.spots
      ensures next != page && next.prev != page
    {
      assert PageMirrors(allocator.ledger, next);
      allocator.ledger.PrevSpot(next);
    }

    // the page linked into the gap that was made for it
    method JoinGap(next: Page, page: Page, ghost was: Ledger, ghost cs: seq<Cell>, ghost k: nat, ghost o: nat,
                   ghost left: Page)
      requires Open() && Inside(next) && allocator.Loose(page) && allocator.ledger.held == multiset{page.data}
      requires pageEnd in was.rings && was.rings[pageEnd] == cs && Fragments.Gap(cs, k, o) && was.SameStore(allocator.ledger)
      requires allocator.ledger.rings == was.rings[pageEnd := Gapped(cs, k, o, left)] && Gap(next) == k + if o > 0 then 1 else 0
      modifies allocator`ledger, page`prev, page`next, next`prev, next.prev
      ensures Open() && next.prev == page && next.data == old(next.data) && allocator.ledger.held == multiset{} && allocator.GrownBy(page)
      ensures was.Became(allocator.ledger, pageEnd, Spliced(cs, k, o, left, [old(allocator.CellOf(page))]))
    {
      ghost var mid, g, c := allocator.ledger, Gap(next), allocator.CellOf(page);
      allocator.Join(page, next);
      Placed(was, mid, allocator.ledger, pageEnd, cs, k, o, g, left, c);
    }

    // the page spliced into the ring, or nothing at all if the split is refused its page
    method Place(next: Page, o: nat, page: Page) returns (n: nat, ghost left: Page)
      requires Open() && Inside(next) && o <= next.len
      requires allocator.Loose(page) && page.len > 0 && allocator.ledger.held == multiset{page.data}
      modifies allocator, page`prev, page`next, next, next.prev, next.data
      ensures Open() && next.data == old(next.data) && (next.prev == old(next.prev) || next.prev == page)
      ensures page.data == old(page.data) && page.off == old(page.off) && page.len == old(page.len)
      ensures n == (if allocator.refusals == old(allocator.refusals) then page.len else 0) && (o == 0 ==> n > 0)
      ensures n == 0 ==> allocator.ledger == old(allocator.ledger)
      ensures n > 0 ==> Fragments.Gap(old(Cells()), old(Gap(next)), o)
      ensures n > 0 ==> old(allocator.ledger).Became(allocator.ledger, pageEnd,
                          Spliced(old(Cells()), old(Gap(next)), o, left, [old(allocator.CellOf(page))]))
      ensures n > 0 ==> allocator.ledger.held == multiset{}
      ensures allocator.GrownBy(page)
    {
      Apart(next, page);
      ghost var was, cs, k := allocator.ledger, Cells(), Gap(next);
      var ok;
      ok, left := MakeGap(next, o);
      n := 0;
      if ok {
        assert page !in allocator.ledger.spots by { assert Aged(0); }
        JoinGap(next, page, was, cs, k, o, left);
        n := page.len;
      }
    }

    // the revision changed unless data is to be put behind data
    method ReviseFor(next: Page)
      requires Open()
      modifies this`dataRevision
      ensures Open() && dataRevision == old(dataRevision) + if next == pageEnd && dataSize > 0 then 0 else 1
    {
      if next != pageEnd || dataSize == 0 {
        dataRevision := dataRevision + 1;
      }
    }

    // the page placed, and counted
    method PlaceCounted(next: Page, o: nat, page: Page) returns (n: nat, ghost left: Page)
      requires Open() && Inside(next) && o <= next.len && dataSize == |Flat(Cells())|
      requires allocator.Loose(page) && page.len > 0 && allocator.ledger.held == multiset{page.data}
      modifies this`dataSize, allocator, page`prev, page`next, next, next.prev, next.data
      ensures Open() && dataSize == |Flat(Cells())| && next.data == old(next.data) && (next.prev == old(next.prev) || next.prev == page)
      ensures page.data == old(page.data) && page.off == old(page.off) && page.len == old(page.len)
      ensures n == (if allocator.refusals == old(allocator.refusals) then page.len else 0) && (o == 0 ==> n > 0)
      ensures n == 0 ==> allocator.ledger == old(allocator.ledger) && allocator.Loose(page)
      ensures n > 0 ==> Fragments.Gap(old(Cells()), old(Gap(next)), o)
      ensures n > 0 ==> old(allocator.ledger).Became(allocator.ledger, pageEnd,
                          Spliced(old(Cells()), old(Gap(next)), o, left, [old(allocator.CellOf(page))]))
      ensures n > 0 ==> allocator.ledger.held == multiset{}
      ensures allocator.GrownBy(page)
    {
      ghost var was, k, c := allocator.ledger, Gap(next), allocator.CellOf(page);
      n, left := Place(next, o, page);
      if n > 0 {
        PlacedSize(was, allocator.ledger, pageEnd, k, o, left, c);
      }
      dataSize := dataSize + n;
    }

    // pb_trivial_buffer_insert
    method Insert(next: Page, offset: nat, page: Page) returns (n: nat, ghost left: Page)
      requires Open() && Inside(next) && dataSize == |Flat(Cells())|
      requires allocator.Loose(page) && page.len > 0 && allocator.ledger.held == multiset{page.data}
      modifies this`dataSize, this`dataRevision, allocator, page`prev, page`next, next, next.prev, next.data
      ensures Open() && dataSize == |Flat(Cells())| && next.data == old(next.data) && (next.prev == old(next.prev) || next.prev == page)
      ensures page.data == old(page.data) && page.off == old(page.off) && page.len == old(page.len)
      ensures dataRevision == old(dataRevision) + if next == pageEnd && old(dataSize) > 0 then 0 else 1
      ensures n == (if allocator.refusals == old(allocator.refusals) then page.len else 0)
      ensures Min(offset, old(next.len)) == 0 ==> n > 0
      ensures n == 0 ==> allocator.ledger == old(allocator.ledger) && allocator.Loose(page)
      ensures n > 0 ==> Fragments.Gap(old(Cells()), old(Gap(next)), Min(offset, old(next.len)))
      ensures n > 0 ==> old(allocator.ledger).Became(allocator.ledger, pageEnd,
                          Spliced(old(Cells()), old(Gap(next)), Min(offset, old(next.len)), left, [old(allocator.CellOf(page))]))
      ensures n > 0 ==> allocator.ledger.held == multiset{}
      ensures allocator.GrownBy(page)
    {
      Apart(next, page);
      ReviseFor(next);
      n, left := PlaceCounted(next, Min(offset, next.len), page);
    }

    ghost function Now(): Snap
      requires pageEnd in allocator.ledger.rings
      reads this, allocator
    {
      Snap(dataRevision, Cells())
    }

    // the data size is right, and nothing is held
    ghost predicate Consistent()
      reads this, allocator, allocator.ledger.spots.Keys, allocator.ledger.stored.Keys, set d | d in allocator.ledger.stored :: d.mem
    {
      Open() && dataSize == |Flat(Cells())| && allocator.ledger.held == multiset{}
    }

    // the page linked in, or destroyed again
    method InsertPage(next: Page, offset: nat, page: Page) returns (n: nat, ghost left: Page)
      requires Open() && Inside(next) && dataSize == |Flat(Cells())|
      requires allocator.Loose(page) && page.len > 0 && allocator.ledger.held == multiset{page.data}
      modifies this`dataSize, this`dataRevision, allocator, page, page.data, next, next.prev, next.data
      ensures Consistent() && next.data == old(next.data) && (next.prev == old(next.prev) || next.prev == page)
      ensures dataRevision == old(dataRevision) + if next == pageEnd && old(dataSize) > 0 then 0 else 1
      ensures n == (if allocator.refusals == old(allocator.refusals) then old(page.len) else 0)
      ensures Min(offset, old(next.len)) == 0 ==> n > 0
      ensures n == 0 ==> allocator.ledger.rings == old(allocator.ledger.rings) && allocator.ledger.spots == old(allocator.ledger.spots)
      ensures n > 0 ==> Fragments.Gap(old(Cells()), old(Gap(next)), Min(offset, old(next.len)))
      ensures n > 0 ==> old(allocator.ledger).Became(allocator.ledger, pageEnd,
                          Spliced(old(Cells()), old(Gap(next)), Min(offset, old(next.len)), left, [old(allocator.CellOf(page))]))
      ensures allocator.GrownBy(page)
    {
      Apart(next, page);
      n, left := Insert(next, offset, page);
      if n == 0 {
        allocator.ledger.ReleaseFacts(page.data);
        var _ := allocator.PageDestroy(page);
      }
    }

    // a page of its own region, or of a shared one, ready to be linked
    ghost predicate MadePage(page: Page, was: Ledger)
      reads allocator, page
    {
      && allocator.Loose(page) && page.len > 0
      && allocator.ledger.rings == was.rings && allocator.ledger.spots == was.spots
      && allocator.ledger.held == multiset{page.data} && allocator.ledger.stored.Keys == was.stored.Keys + {page.data}
    }

    ghost predicate Source(src: Page, from: nat, bytes: seq<byte>)
      reads allocator
    {
      var l := allocator.ledger;
      src in l.spots && l.SpotOK(src) && l.spots[src].slot > 0 && from + |bytes| <= |l.At(src).bytes|
      && l.At(src).bytes[from..from + |bytes|] == bytes
    }

    // `how` gives these bytes; of a blank page nothing is known but its length
    ghost predicate Supplies(how: Supply, bytes: seq<byte>)
      reads allocator, if how.Copied? || how.Referenced? then {how.buf} else {}
    {
      match how
      case Copied(buf, at) => at + |bytes| <= buf.Length && buf[at..at + |bytes|] == bytes
      case Referenced(buf, at) => at + |bytes| <= buf.Length && buf[at..at + |bytes|] == bytes && buf !in allocator.ledger.blocks
      case Blank => true
      case Shared(src, from) => Source(src, from, bytes)
      case Cloned(src, from) => Source(src, from, bytes)
    }

    lemma SourceBytes(src: Page, from: nat, bytes: seq<byte>)
      requires Open() && Source(src, from, bytes)
      ensures src.data != null && src.data in allocator.ledger.stored && from + |bytes| <= src.len
      ensures src.data.base + src.off + from + |bytes| <= src.data.mem.Length
      ensures src.off + from + |bytes| <= |allocator.ledger.stored[src.data]|
      ensures allocator.ledger.stored[src.data][src.off + from..src.off + from + |bytes|] == bytes
      ensures src.data.mem[src.data.base + src.off + from..src.data.base + src.off + from + |bytes|] == bytes
    {
      ghost var l := allocator.ledger;
      ghost var c := l.At(src);
      l.AtOK(src);
      assert PageMirrors(l, src);
      assert DataMirrors(l, src.data);
      assert l.RegionOK(src.data);
      assert forall j | 0 <= j < |c.bytes| :: c.bytes[j] == l.stored[c.data][c.off + j] == src.data.mem[src.data.base + c.off + j];
    }

    // what memory a page made from `how` is on: l is the state it was made in, `was` an earlier one
    ghost predicate Stems(how: Supply, l: Ledger, was: Ledger, c: Cell) {
      match how
      case Copied(_, _) => Own(was, c)
      case Referenced(buf, at) => InPlace(was, c, buf, at)
      case Blank => Own(was, c)
      case Shared(src, from) => src in l.spots && l.SpotOK(src) && c.data == l.At(src).data && c.off == l.At(src).off + from
      case Cloned(_, _) => Own(was, c)
    }

    // what a page made from `how` shows, and where: l is the state it was made in, `was` an earlier one
    ghost predicate Provided(page: Page, how: Supply, l: Ledger, was: Ledger, bytes: seq<byte>)
      reads allocator, page
    {
      && MadePage(page, l) && page.len == |bytes|
      && forall u {:trigger Shown(u)} :: Shown(u) ==>
        var c := allocator.CellOf(page); (!how.Blank? ==> c.bytes == bytes) && Stems(how, l, was, c)
    }

    lemma ProvidedShows(page: Page, how: Supply, l: Ledger, was: Ledger, bytes: seq<byte>)
      requires Provided(page, how, l, was, bytes)
      ensures MadePage(page, l) && var c := allocator.CellOf(page);
        |c.bytes| == |bytes| && (!how.Blank? ==> c.bytes == bytes) && Stems(how, l, was, c)
    {
      assert Shown(0);
    }

    method CopiedPage(how: Supply, buf: array<byte>, at: nat, n: nat, ghost bytes: seq<byte>, ghost was: Ledger)
      returns (page: Page?)
      requires Open() && allocator.ledger.held == multiset{} && 0 < n == |bytes| && (how.Copied? || how.Cloned?)
      requires at + n <= buf.Length && buf[at..at + n] == bytes
      modifies allocator
      ensures Open() && allocator.Grown()
      ensures page == null ==> allocator.ledger == old(allocator.ledger) && allocator.refusals > old(allocator.refusals)
      ensures page != null ==> allocator.refusals == old(allocator.refusals) && fresh(page) && fresh(page.data)
      ensures page != null ==> Provided(page, how, old(allocator.ledger), was, bytes)
    {
      page := allocator.FilledPageCreate(buf, at, n);
    }

    method ReferencedPage(how: Supply, n: nat, ghost bytes: seq<byte>, ghost was: Ledger) returns (page: Page?)
      requires Open() && allocator.ledger.held == multiset{} && 0 < n == |bytes| && how.Referenced? && Supplies(how, bytes)
      modifies allocator
      ensures Open() && allocator.Grown()
      ensures page == null ==> allocator.ledger == old(allocator.ledger) && allocator.refusals > old(allocator.refusals)
      ensures page != null ==> allocator.refusals == old(allocator.refusals) && fresh(page) && fresh(page.data)
      ensures page != null ==> Provided(page, how, old(allocator.ledger), was, bytes)
    {
      page := allocator.BufferPageCreateRef(how.buf, how.at, n);
    }

    method BlankPage(n: nat, ghost bytes: seq<byte>, ghost was: Ledger) returns (page: Page?)
      requires Open() && allocator.ledger.held == multiset{} && 0 < n == |bytes|
      modifies allocator
      ensures Open() && allocator.Grown()
      ensures page == null ==> allocator.ledger == old(allocator.ledger) && allocator.refusals > old(allocator.refusals)
      ensures page != null ==> allocator.refusals == old(allocator.refusals) && fresh(page) && fresh(page.data)
      ensures page != null ==> Provided(page, Blank, old(allocator.ledger), was, bytes)
    {
      page := allocator.BufferPageCreate(n);
    }

    method SharedPage(how: Supply, n: nat, ghost bytes: seq<byte>, ghost was: Ledger) returns (page: Page?)
      requires Open() && allocator.ledger.held == multiset{} && 0 < n == |bytes| && how.Shared? && Supplies(how, bytes)
      modifies allocator, how.src.data
      ensures Open() && allocator.Grown()
      ensures page == null ==> allocator.ledger == old(allocator.ledger) && allocator.refusals > old(allocator.refusals)
      ensures page != null ==> allocator.refusals == old(allocator.refusals) && fresh(page)
      ensures page != null ==> page.data == old(how.src.data) && page.data in old(allocator.ledger.stored)
      ensures page != null ==> Provided(page, how, old(allocator.ledger), was, bytes)
    {
      SourceBytes(how.src, how.from, bytes);
      assert PageMirrors(allocator.ledger, how.src);
      page := allocator.PageTransfer(how.src, n, how.from);
    }

    // one page from any supply, or a refusal
    method MakePage(how: Supply, n: nat, ghost bytes: seq<byte>, ghost was: Ledger) returns (page: Page?)
      requires Open() && allocator.ledger.held == multiset{} && 0 < n == |bytes| && Supplies(how, bytes)
      modifies allocator, if how.Shared? then {how.src.data} else {}
      ensures Open() && allocator.Grown()
      ensures page == null ==> allocator.ledger == old(allocator.ledger) && allocator.refusals > old(allocator.refusals)
      ensures page != null ==> allocator.refusals == old(allocator.refusals) && fresh(page)
      ensures page != null ==> if how.Shared? then page.data == old(how.src.data) else fresh(page.data)
      ensures page != null ==> Provided(page, how, old(allocator.ledger), was, bytes)
    {
      match how
      case Copied(buf, at) =>
        page := CopiedPage(how, buf, at, n, bytes, was);
      case Referenced(_, _) =>
        page := ReferencedPage(how, n, bytes, was);
      case Blank =>
        page := BlankPage(n, bytes, was);
      case Shared(_, _) =>
        page := SharedPage(how, n, bytes, was);
      case Cloned(src, from) =>
        SourceBytes(src, from, bytes);
        page := CopiedPage(how, src.data.mem, src.data.base + src.off + from, n, bytes, was);
    }

    lemma GapHere(next: Page, o: nat)
      requires Open() && Inside(next) && o <= next.len
      ensures Fragments.Gap(Cells(), Gap(next), o) && (next == pageEnd ==> next.len == 0)
    {
      assert PageMirrors(allocator.ledger, next);
      allocator.ledger.Here(pageEnd, Slot(next));
      allocator.ledger.Here(pageEnd, 0);
    }

    // j has come so far: `offset` is what is still to be cut of `next`
    ghost predicate Running(j: Insertion, next: Page, offset: nat)
      reads this, allocator, next
    {
      && j.end == pageEnd && j.next == next && j.Stands(allocator.ledger, dataRevision)
      && (if j.added == [] then Min(offset, next.len) == j.o else offset == 0)
    }

    lemma RunningPlace(j: Insertion, next: Page, offset: nat)
      requires Open() && Running(j, next, offset)
      ensures j.Aims() && Inside(next) && Gap(next) == j.Place() && Min(offset, next.len) == j.Offset()
      ensures Fragments.Gap(Cells(), j.Place(), j.Offset())
    {
      j.Show(allocator.ledger, dataRevision);
      j.PlaceFound(allocator.ledger);
      GapHere(next, j.Offset());
    }

    // one page more, if it is not refused
    method SplicePage(next: Page, offset: nat, page: Page, ghost j: Insertion)
      returns (n: nat, ghost j': Insertion, ghost c: Cell)
      requires Open() && dataSize == |Flat(Cells())| && Running(j, next, offset)
      requires allocator.Loose(page) && page.len > 0 && (j.limit == 0 || page.len <= j.limit)
      requires allocator.ledger.held == multiset{page.data}
      modifies this`dataSize, this`dataRevision, allocator, page, page.data, next, next.prev, next.data
      ensures Consistent() && next.data == old(next.data) && (next.prev == old(next.prev) || next.prev == page)
      ensures n == (if allocator.refusals == old(allocator.refusals) then old(page.len) else 0)
      ensures n == 0 ==> j' == j && j.Stands(allocator.ledger, dataRevision) && next != pageEnd
      ensures n > 0 ==> Running(j', next, 0) && j.Goal(j') && j'.added == j.added + [c] && j'.done == j.done + c.bytes
      ensures c == old(allocator.CellOf(page))
      ensures allocator.GrownBy(page)
    {
      RunningPlace(j, next, offset);
      GapHere(next, j.Offset());
      ghost var mid, r := allocator.ledger, dataRevision;
      c := allocator.CellOf(page);
      ghost var first;
      n, first := InsertPage(next, offset, page);
      if n == 0 {
        j' := j;
        j.Refused(mid, allocator.ledger, r, dataRevision);
      } else {
        j' := j.More(first, c);
        j.Advance(mid, allocator.ledger, r, dataRevision, first, c);
      }
    }

    // from j to j' one page was added, made from `how`
    ghost predicate Adds(j: Insertion, j': Insertion, how: Supply, l: Ledger, bytes: seq<byte>, c: Cell) {
      && j.Goal(j') && j'.added == j.added + [c] && j'.done == j.done + c.bytes
      && |c.bytes| == |bytes| && (!how.Blank? ==> c.bytes == bytes) && Stems(how, l, j.was, c)
    }

    // a page made from `how` spliced in
    method SpliceMade(next: Page, offset: nat, page: Page, how: Supply, ghost l: Ledger, ghost bytes: seq<byte>,
                      ghost j: Insertion)
      returns (n: nat, ghost j': Insertion, ghost c: Cell)
      requires Open() && dataSize == |Flat(Cells())| && Running(j, next, offset) && Provided(page, how, l, j.was, bytes)
      requires bytes != [] && (j.limit == 0 || |bytes| <= j.limit)
      modifies this`dataSize, this`dataRevision, allocator, page, page.data, next, next.prev, next.data
      ensures Consistent() && next.data == old(next.data) && (next.prev == old(next.prev) || next.prev == page)
      ensures n == if allocator.refusals == old(allocator.refusals) then |bytes| else 0
      ensures if n == 0 then j' == j && j.Stands(allocator.ledger, dataRevision) else Running(j', next, 0) && Adds(j, j', how, l, bytes, c)
      ensures allocator.GrownBy(page)
    {
      ProvidedShows(page, how, l, j.was, bytes);
      n, j', c := SplicePage(next, offset, page, j);
    }

    // one page more, of `len` bytes from where `how` says
    method Splice(next: Page, offset: nat, how: Supply, len: nat, ghost bytes: seq<byte>, ghost j: Insertion)
      returns (n: nat, ghost j': Insertion, ghost c: Cell)
      requires Consistent() && Running(j, next, offset) && 0 < len == |bytes| && (j.limit == 0 || len <= j.limit)
      requires Supplies(how, bytes)
      modifies this`dataSize, this`dataRevision, allocator, next, next.prev, next.data, if how.Shared? then {how.src.data} else {}
      ensures Consistent() && next.data == old(next.data) && (next.prev == old(next.prev) || fresh(next.prev))
      ensures n == if allocator.refusals == old(allocator.refusals) then len else 0
      ensures if n == 0 then j' == j && j.Stands(allocator.ledger, dataRevision) else Running(j', next, 0) && Adds(j, j', how, old(allocator.ledger), bytes, c)
      ensures allocator.Grown()
    {
      n, j', c := 0, j, Cell(next, null, 0, []);
      ghost var l := allocator.ledger;
      var page := MakePage(how, len, bytes, j.was);
      if page != null {
        n, j', c := SpliceMade(next, offset, page, how, l, bytes, j);
      }
    }

    method GetIterator() returns (it: Page)
      requires Open()
      ensures ReadsAt(Cells(), pageEnd, it, 1) && Cells()[0].bytes == []
    {
      allocator.ledger.Here(pageEnd, 0);
      assert PageMirrors(allocator.ledger, pageEnd);
      if |Cells()| > 1 { allocator.ledger.Here(pageEnd, 1); }
      it := pageEnd.next;
    }

    // What a ring's iterator shows, and where it goes from there.
    lemma IteratorAt(it: Page, i: nat)
      requires Open() && ReadsAt(Cells(), pageEnd, it, i) && it != pageEnd
      ensures i < |Cells()| && Cells()[i].page == it && Inside(it) && Slot(it) == i && allocator.ledger.At(it) == Cells()[i]
      ensures allocator.ledger.CellOK(Cells()[i]) && it.data == Cells()[i].data && it.len == |Cells()[i].bytes|
      ensures it.next != null && ReadsAt(Cells(), pageEnd, it.next, i + 1)
    {
      allocator.ledger.Here(pageEnd, 0);
      allocator.ledger.Here(pageEnd, i);
      if i + 1 < |Cells()| { allocator.ledger.Here(pageEnd, i + 1); }
      assert PageMirrors(allocator.ledger, it);
    }

    lemma BackAt(it: Page, i: nat)
      requires Open() && ReadsAt(Cells(), pageEnd, it, i)
      ensures it.prev != null && (if i == 1 then it.prev == pageEnd else it.prev != pageEnd && ReadsAt(Cells(), pageEnd, it.prev, i - 1))
      ensures it == pageEnd ==> it.len == 0
    {
      allocator.ledger.Here(pageEnd, 0);
      allocator.ledger.Here(pageEnd, i - 1);
      if it != pageEnd { IteratorAt(it, i); }
      assert PageMirrors(allocator.ledger, it);
    }

    lemma FirstFound()
      requires Open()
      ensures pageEnd.next != null && ReadsAt(Cells(), pageEnd, pageEnd.next, 1)
    {
      allocator.ledger.Here(pageEnd, 0);
      assert PageMirrors(allocator.ledger, pageEnd);
      if |Cells()| > 1 { allocator.ledger.Here(pageEnd, 1); }
    }

    ghost function Start(next: Page, offset: nat, limit: nat): Insertion
      requires pageEnd in allocator.ledger.rings
      reads this, allocator, next
    {
      Insertion(pageEnd, allocator.ledger, Now(), next, Min(offset, next.len), limit, next, [], [])
    }

    lemma Starts(next: Page, offset: nat, limit: nat)
      requires Open() && Inside(next)
      ensures Running(Start(next, offset, limit), next, offset)
      ensures next.len == |allocator.ledger.At(next).bytes| && (Packed(Cells()) && next != pageEnd ==> next.len > 0)
    {
      GapHere(next, Min(offset, next.len));
      assert PageMirrors(allocator.ledger, next);
      allocator.ledger.Here(pageEnd, Slot(next));
    }

    ghost function OriginOf(how: Supply): Origin {
      match how
      case Copied(_, _) => Copy
      case Referenced(buf, _) => Lent(buf)
      case Blank => Any
      case Shared(_, _) => Share
      case Cloned(_, _) => Copy
    }

    // the supply has src, from its byte number `at` on in what is not in yet
    ghost predicate Pours(how: Supply, src: seq<byte>, at: nat)
      reads allocator, if how.Copied? || how.Referenced? then {how.buf} else {}
    {
      match how
      case Copied(buf, k) => k == at <= |src| <= buf.Length && buf[..|src|] == src
      case Referenced(buf, k) => k == at <= |src| <= buf.Length && buf[..|src|] == src && buf !in allocator.ledger.blocks
      case Blank => true
      case _ => false
    }

    lemma PourSupplies(how: Supply, src: seq<byte>, at: nat, to: nat)
      requires Pours(how, src, at) && at <= to <= |src|
      ensures Supplies(how, src[at..to])
    {
      if !how.Blank? { PieceOf(how.buf[..], src, at, to - at); }
    }

    // one page more of a caller's data, of what is left to insert
    method InsertChunk(next: Page, offset: nat, how: Supply, at: nat, rest: nat, ghost src: seq<byte>,
                       ghost j0: Insertion, ghost j: Insertion)
      returns (ok: bool, done: nat, left: nat, ghost j': Insertion)
      requires Consistent() && Running(j, next, offset) && j.Poured(j0, OriginOf(how), src, at) && Pours(how, src, at)
      requires at + rest == |src| && 0 < rest && j0.limit == j.limit == strategy.pageSize
      modifies this`dataSize, this`dataRevision, allocator, next, next.prev, next.data
      ensures Consistent() && next.data == old(next.data) && (next.prev == old(next.prev) || fresh(next.prev)) && allocator.Grown()
      ensures done + left == |src| && (ok <==> allocator.refusals == old(allocator.refusals))
      ensures if ok then left < rest && Running(j', next, 0) else left == rest
      ensures j'.limit == j0.limit && j'.Stands(allocator.ledger, dataRevision) && j'.Poured(j0, OriginOf(how), src, done)
    {
      var size := Fit(strategy.pageSize, rest);
      done, left := at + size, rest - size;
      PourSupplies(how, src, at, done);
      ghost var c;
      var n;
      n, j', c := Splice(next, offset, how, size, src[at..done], j);
      ok := n > 0;
      if ok {
        j.PourOn(j0, j', OriginOf(how), src, at, done, rest, c);
      } else {
        done, left := at, rest;
      }
    }

    method InsertData1(next: Page, offset: nat, buf: array<byte>, len: nat) returns (inserted: nat, ghost j: Insertion)
      requires Consistent() && Inside(next) && len <= buf.Length
      modifies this`dataSize, this`dataRevision, allocator, next, next.prev, next.data
      ensures Consistent() && j.Stands(allocator.ledger, dataRevision) && allocator.Grown()
      ensures inserted <= len && (allocator.refusals == old(allocator.refusals) ==> inserted == len)
      ensures old(Start(next, offset, strategy.pageSize)).Goal(j) && j.done == buf[..inserted]
      ensures j.Delivers(Copy, Lump(pageEnd, buf[..len]), len, inserted == len)
    {
      allocator.GrownNot();
      ghost var j0, src := Start(next, offset, strategy.pageSize), buf[..len];
      Starts(next, offset, strategy.pageSize);
      j0.PourStarts(Copy, src);
      var rest: nat, off: nat := len, offset;
      inserted, j := 0, j0;
      while rest > 0
        invariant Consistent() && inserted + rest == len && buf[..len] == src
        invariant Running(j, next, off) && j.limit == j0.limit && j.Poured(j0, Copy, src, inserted)
        invariant allocator.refusals == old(allocator.refusals)
        invariant next.data == old(next.data) && (next.prev == old(next.prev) || fresh(next.prev))
        invariant allocator.Grown()
      {
        var ok;
        ok, inserted, rest, j := InsertChunk(next, off, Copied(buf, inserted), inserted, rest, src, j0, j);
        assert allocator.Grown() by { assert Aged(0); }
        off := 0;
        if !ok { break; }
      }
      j.PourEnds(j0, Copy, src, inserted);
      assert src[..inserted] == buf[..inserted];
    }

    method InsertDataRef1(next: Page, offset: nat, buf: array<byte>, len: nat) returns (inserted: nat, ghost j: Insertion)
      requires Consistent() && Inside(next) && len <= buf.Length && buf !in allocator.ledger.blocks
      modifies this`dataSize, this`dataRevision, allocator, next, next.prev, next.data
      ensures Consistent() && j.Stands(allocator.ledger, dataRevision) && allocator.Grown()
      ensures inserted <= len && (allocator.refusals == old(allocator.refusals) ==> inserted == len)
      ensures old(Start(next, offset, strategy.pageSize)).Goal(j) && j.done == buf[..inserted]
      ensures j.Delivers(Lent(buf), Lump(pageEnd, buf[..len]), len, inserted == len)
    {
      allocator.GrownNot();
      ghost var j0, src := Start(next, offset, strategy.pageSize), buf[..len];
      Starts(next, offset, strategy.pageSize);
      j0.PourStarts(Lent(buf), src);
      var rest: nat, off: nat := len, offset;
      inserted, j := 0, j0;
      while rest > 0
        invariant Consistent() && inserted + rest == len && buf[..len] == src
        invariant Running(j, next, off) && j.limit == j0.limit && j.Poured(j0, Lent(buf), src, inserted)
        invariant allocator.refusals == old(allocator.refusals)
        invariant next.data == old(next.data) && (next.prev == old(next.prev) || fresh(next.prev))
        invariant allocator.Grown()
      {
        assert buf !in allocator.ledger.blocks by { assert Aged(0); }
        var ok;
        ok, inserted, rest, j := InsertChunk(next, off, Referenced(buf, inserted), inserted, rest, src, j0, j);
        assert allocator.Grown() by { assert Aged(0); }
        off := 0;
        if !ok { break; }
      }
      j.PourEnds(j0, Lent(buf), src, inserted);
      assert src[..inserted] == buf[..inserted];
    }

    // What is read from another buffer while j is under way.
    lemma SourceAt(j: Insertion, src: Buffer, it: Page, i: nat)
      requires Open() && j.end == pageEnd && j.Stands(allocator.ledger, dataRevision)
      requires src.allocator == allocator && src.pageEnd != pageEnd && src.pageEnd in j.was.rings
      requires ReadsAt(j.was.rings[src.pageEnd], src.pageEnd, it, i) && it != src.pageEnd
      ensures src.Open() && src.Cells() == j.was.rings[src.pageEnd]
      ensures i < |src.Cells()| && it in allocator.ledger.spots && allocator.ledger.SpotOK(it) && allocator.ledger.spots[it].slot > 0
      ensures allocator.ledger.At(it) == src.Cells()[i] && it.len == |src.Cells()[i].bytes|
      ensures it.data in j.was.stored && it.next != null && ReadsAt(src.Cells(), src.pageEnd, it.next, i + 1)
    {
      j.Kept(allocator.ledger, dataRevision, src.pageEnd);
      src.IteratorAt(it, i);
      j.was.Here(src.pageEnd, i);
    }

    // the cell of a page shared with or copied from the i-th of a source
    lemma MadeFrom(was: Ledger, l: Ledger, src: seq<Cell>, it: Page, i: nat, from: nat, size: nat, clone: bool, c: Cell)
      requires it in l.spots && l.SpotOK(it) && i < |src| && l.At(it) == src[i] && from + size <= |src[i].bytes|
      requires |c.bytes| == size && c.bytes == src[i].bytes[from..from + size]
      requires Stems(if clone then Cloned(it, from) else Shared(it, from), l, was, c)
      ensures Made(was, TakenAs(clone), src, Portion(i, from, size), c)
    {}

    // One page more, with the bytes of the source page `it` from `from` up to `to`.
    method CopyPage(next: Page, off: nat, src: Buffer, it: Page, from: nat, size: nat, clone: bool,
                    ghost j0: Insertion, ghost j: Insertion, ghost i: nat, ghost to: nat, ghost rest: nat, ghost len: nat)
      returns (n: nat, ghost j': Insertion)
      requires Consistent() && Running(j, next, off) && src.allocator == allocator
      requires j.Copying(j0, src.pageEnd, TakenAs(clone), it, i, from, len) && it != src.pageEnd
      requires from < it.len && |j.done| + rest == len && rest > 0 && size == Fit(j0.limit, Min(it.len - from, rest)) && to == from + size
      modifies this`dataSize, this`dataRevision, allocator, next, next.prev, next.data, if clone then {} else {it.data}
      ensures Consistent() && next.data == old(next.data) && (next.prev == old(next.prev) || fresh(next.prev)) && allocator.Grown()
      ensures n == if allocator.refusals == old(allocator.refusals) then size else 0
      ensures n == 0 ==> j' == j && j.Stands(allocator.ledger, dataRevision)
      ensures n > 0 ==> Running(j', next, 0) && |j'.done| == |j.done| + n && it.len == old(it.len) && it.next != null
      ensures n > 0 && to < it.len ==> j'.Copying(j0, src.pageEnd, TakenAs(clone), it, i, to, len)
      ensures n > 0 && (to == it.len || |j'.done| == len) ==> j'.Copying(j0, src.pageEnd, TakenAs(clone), it.next, i + 1, 0, len)
    {
      j.CopyAt(j0, src.pageEnd, TakenAs(clone), it, i, from, len);
      ghost var cs, l := j.was.rings[src.pageEnd], allocator.ledger;
      SourceAt(j, src, it, i);
      ghost var c;
      n, j', c := Splice(next, off, if clone then Cloned(it, from) else Shared(it, from), size, cs[i].bytes[from..to], j);
      if n > 0 {
        CopiedOn(src, it, i, from, to, clone, rest, len, j0, j, j', l, c);
      }
    }

    lemma CopiedOn(src: Buffer, it: Page, i: nat, from: nat, to: nat, clone: bool, rest: nat, len: nat, j0: Insertion,
                   j: Insertion, j': Insertion, l: Ledger, c: Cell)
      requires Open() && j'.end == pageEnd && j'.Stands(allocator.ledger, dataRevision) && src.allocator == allocator
      requires j.Copying(j0, src.pageEnd, TakenAs(clone), it, i, from, len) && it != src.pageEnd && |j.done| + rest == len && rest > 0
      requires src.pageEnd in j.was.rings && var cs := j.was.rings[src.pageEnd];
        && i < |cs| && from < |cs[i].bytes| && it in l.spots && l.SpotOK(it) && l.At(it) == cs[i]
        && to == from + Fit(j0.limit, Min(|cs[i].bytes| - from, rest))
        && Adds(j, j', if clone then Cloned(it, from) else Shared(it, from), l, cs[i].bytes[from..to], c)
      ensures it.next != null && it.len == |j.was.rings[src.pageEnd][i].bytes|
      ensures to < it.len ==> j'.Copying(j0, src.pageEnd, TakenAs(clone), it, i, to, len)
      ensures to == it.len || |j'.done| == len ==> j'.Copying(j0, src.pageEnd, TakenAs(clone), it.next, i + 1, 0, len)
    {
      var cs := j.was.rings[src.pageEnd];
      j.CopyAt(j0, src.pageEnd, TakenAs(clone), it, i, from, len);
      MadeFrom(j.was, l, cs, it, i, from, to - from, clone, c);
      SourceAt(j', src, it, i);
      j.CopyOn(j0, j', src.pageEnd, TakenAs(clone), it, it.next, i, from, to, rest, len, c);
    }

    lemma CopyRoom(j0: Insertion, j: Insertion, next: Page, off: nat, src: Buffer, clone: bool, it: Page, i: nat,
                   from: nat, len: nat)
      requires Open() && Running(j, next, off) && src.allocator == allocator && it != src.pageEnd
      requires j.Copying(j0, src.pageEnd, TakenAs(clone), it, i, from, len)
      ensures |j.done| < len ==> from < it.len
      ensures it.data in j0.was.stored
    {
      j.CopyAt(j0, src.pageEnd, TakenAs(clone), it, i, from, len);
      SourceAt(j, src, it, i);
    }

    // what is read of another buffer from its first page on
    lemma CopyBegins(next: Page, offset: nat, limit: nat, src: Buffer, clone: bool, it: Page, len: nat)
      requires Open() && Inside(next) && src.allocator == allocator && src.pageEnd != pageEnd && src.Open() && Packed(src.Cells())
      requires ReadsAt(src.Cells(), src.pageEnd, it, 1)
      ensures var j := Start(next, offset, limit);
        Running(j, next, offset) && j.Copying(j, src.pageEnd, TakenAs(clone), it, 1, 0, len)
    {
      Starts(next, offset, limit);
      allocator.ledger.Here(src.pageEnd, 0);
      Start(next, offset, limit).CopyStarts(src.pageEnd, TakenAs(clone), it, len);
    }

    // the same as CopyPage, and on to the next source page if this one is all read
    method CopyNext(next: Page, off: nat, src: Buffer, it: Page, from: nat, size: nat, clone: bool,
                    ghost j0: Insertion, ghost j: Insertion, ghost i: nat, ghost rest: nat, ghost len: nat)
      returns (n: nat, it': Page, from': nat, ghost j': Insertion, ghost i': nat)
      requires Consistent() && Running(j, next, off) && src.allocator == allocator
      requires j.Copying(j0, src.pageEnd, TakenAs(clone), it, i, from, len) && it != src.pageEnd
      requires from < it.len && |j.done| + rest == len && rest > 0 && size == Fit(j0.limit, Min(it.len - from, rest))
      modifies this`dataSize, this`dataRevision, allocator, next, next.prev, next.data, if clone then {} else {it.data}
      ensures Consistent() && next.data == old(next.data) && (next.prev == old(next.prev) || fresh(next.prev)) && allocator.Grown()
      ensures n == if allocator.refusals == old(allocator.refusals) then size else 0
      ensures n == 0 ==> j' == j && j.Stands(allocator.ledger, dataRevision)
      ensures |j'.done| == |j.done| + n && j'.Copying(j0, src.pageEnd, TakenAs(clone), it', i', from', len)
      ensures n > 0 ==> Running(j', next, 0) && (if n == old(it.len) - from then from' == 0 else from' == from + n)
    {
      it', from', i' := it, from + size, i;
      n, j' := CopyPage(next, off, src, it, from, size, clone, j0, j, i, from', rest, len);
      if n == 0 {
        from' := from;
      } else if from' == it.len {
        it', from', i' := it.next, 0, i + 1;
      }
    }

    // clone_on_write: false, fragment_as_target: false
    method InsertBuffer1(next: Page, offset: nat, src: Buffer, len: nat) returns (inserted: nat, ghost j: Insertion)
      requires Consistent() && Inside(next)
      requires src.allocator == allocator && src.pageEnd != pageEnd && src.Open() && Packed(src.Cells())
      modifies this`dataSize, this`dataRevision, allocator, next, next.prev, next.data, allocator.ledger.stored.Keys
      ensures Consistent() && j.Stands(allocator.ledger, dataRevision) && inserted == |j.done| && allocator.Grown()
      ensures j.Copied(old(Start(next, offset, 0)), src.pageEnd, TakenAs(false), len, allocator.refusals == old(allocator.refusals))
    {
      allocator.GrownNot();
      ghost var j0, i := Start(next, offset, 0), 1;
      var it: Page := src.GetIterator();
      CopyBegins(next, offset, 0, src, false, it, len);
      var rest: nat, off: nat, from: nat := len, offset, 0;
      inserted, j := 0, j0;
      while rest > 0 && it != src.pageEnd
        invariant Consistent() && Running(j, next, off) && j.Copying(j0, src.pageEnd, TakenAs(false), it, i, from, len)
        invariant inserted + rest == len && inserted == |j.done| && from == 0
        invariant allocator.refusals == old(allocator.refusals) && allocator.Grown()
        invariant next.data == old(next.data) && (next.prev == old(next.prev) || fresh(next.prev))
      {
        CopyRoom(j0, j, next, off, src, false, it, i, from, len);
        var n;
        n, j := CopyPage(next, off, src, it, 0, Min(it.len, rest), false, j0, j, i, Min(it.len, rest), rest, len);
        assert allocator.Grown() by { assert Aged(0); }
        if n == 0 { break; }
        off, rest, inserted := 0, rest - n, inserted + n;
        it := it.next;
        i := i + 1;
      }
      j.CopyEnds(j0, src.pageEnd, TakenAs(false), it, i, from, len, allocator.refusals == old(allocator.refusals));
    }

    // clone_on_write: true, fragment_as_target: false
    method InsertBuffer2(next: Page, offset: nat, src: Buffer, len: nat) returns (inserted: nat, ghost j: Insertion)
      requires Consistent() && Inside(next)
      requires src.allocator == allocator && src.pageEnd != pageEnd && src.Open() && Packed(src.Cells())
      modifies this`dataSize, this`dataRevision, allocator, next, next.prev, next.data
      ensures Consistent() && j.Stands(allocator.ledger, dataRevision) && inserted == |j.done| && allocator.Grown()
      ensures j.Copied(old(Start(next, offset, 0)), src.pageEnd, TakenAs(true), len, allocator.refusals == old(allocator.refusals))
    {
      allocator.GrownNot();
      ghost var j0, i := Start(next, offset, 0), 1;
      var it: Page := src.GetIterator();
      CopyBegins(next, offset, 0, src, true, it, len);
      var rest: nat, off: nat, from: nat := len, offset, 0;
      inserted, j := 0, j0;
      while rest > 0 && it != src.pageEnd
        invariant Consistent() && Running(j, next, off) && j.Copying(j0, src.pageEnd, TakenAs(true), it, i, from, len)
        invariant inserted + rest == len && inserted == |j.done| && (rest > 0 ==> from == 0)
        invariant allocator.refusals == old(allocator.refusals) && allocator.Grown()
        invariant next.data == old(next.data) && (next.prev == old(next.prev) || fresh(next.prev))
      {
        CopyRoom(j0, j, next, off, src, true, it, i, from, len);
        var n;
        n, it, from, j, i := CopyNext(next, off, src, it, from, Min(it.len, rest), true, j0, j, i, rest, len);
        assert allocator.Grown() by { assert Aged(0); }
        if n == 0 { break; }
        off, rest, inserted := 0, rest - n, inserted + n;
      }
      j.CopyEnds(j0, src.pageEnd, TakenAs(true), it, i, from, len, allocator.refusals == old(allocator.refusals));
    }

    // clone_on_write: false, fragment_as_target: true
    method InsertBuffer3(next: Page, offset: nat, src: Buffer, len: nat) returns (inserted: nat, ghost j: Insertion)
      requires Consistent() && Inside(next)
      requires src.allocator == allocator && src.pageEnd != pageEnd && src.Open() && Packed(src.Cells())
      modifies this`dataSize, this`dataRevision, allocator, next, next.prev, next.data, allocator.ledger.stored.Keys
      ensures Consistent() && j.Stands(allocator.ledger, dataRevision) && inserted == |j.done| && allocator.Grown()
      ensures j.Copied(old(Start(next, offset, strategy.pageSize)), src.pageEnd, TakenAs(false), len, allocator.refusals == old(allocator.refusals))
    {
      allocator.GrownNot();
      ghost var j0, i := Start(next, offset, strategy.pageSize), 1;
      var it: Page := src.GetIterator();
      CopyBegins(next, offset, strategy.pageSize, src, false, it, len);
      var rest: nat, off: nat, from: nat := len, offset, 0;
      inserted, j := 0, j0;
      while rest > 0 && it != src.pageEnd
        invariant Consistent() && Running(j, next, off) && j.Copying(j0, src.pageEnd, TakenAs(false), it, i, from, len)
        invariant inserted + rest == len && inserted == |j.done|
        invariant allocator.refusals == old(allocator.refusals) && allocator.Grown()
        invariant next.data == old(next.data) && (next.prev == old(next.prev) || fresh(next.prev))
      {
        CopyRoom(j0, j, next, off, src, false, it, i, from, len);
        var n;
        n, it, from, j, i := CopyNext(next, off, src, it, from, Fit(strategy.pageSize, Min(it.len - from, rest)), false, j0, j, i, rest, len);
        assert allocator.Grown() by { assert Aged(0); }
        if n == 0 { break; }
        off, rest, inserted := 0, rest - n, inserted + n;
      }
      j.CopyEnds(j0, src.pageEnd, TakenAs(false), it, i, from, len, allocator.refusals == old(allocator.refusals));
    }

    // clone_on_write: true, fragment_as_target: true
    method InsertBuffer4(next: Page, offset: nat, src: Buffer, len: nat) returns (inserted: nat, ghost j: Insertion)
      requires Consistent() && Inside(next)
      requires src.allocator == allocator && src.pageEnd != pageEnd && src.Open() && Packed(src.Cells())
      modifies this`dataSize, this`dataRevision, allocator, next, next.prev, next.data
      ensures Consistent() && j.Stands(allocator.ledger, dataRevision) && inserted == |j.done| && allocator.Grown()
      ensures j.Copied(old(Start(next, offset, strategy.pageSize)), src.pageEnd, TakenAs(true), len, allocator.refusals == old(allocator.refusals))
    {
      allocator.GrownNot();
      ghost var j0, i := Start(next, offset, strategy.pageSize), 1;
      var it: Page := src.GetIterator();
      CopyBegins(next, offset, strategy.pageSize, src, true, it, len);
      var rest: nat, off: nat, from: nat := len, offset, 0;
      inserted, j := 0, j0;
      while rest > 0 && it != src.pageEnd
        invariant Consistent() && Running(j, next, off) && j.Copying(j0, src.pageEnd, TakenAs(true), it, i, from, len)
        invariant inserted + rest == len && inserted == |j.done|
        invariant allocator.refusals == old(allocator.refusals) && allocator.Grown()
        invariant next.data == old(next.data) && (next.prev == old(next.prev) || fresh(next.prev))
      {
        CopyRoom(j0, j, next, off, src, true, it, i, from, len);
        var n;
        n, it, from, j, i := CopyNext(next, off, src, it, from, Fit(strategy.pageSize, Min(it.len - from, rest)), true, j0, j, i, rest, len);
        assert allocator.Grown() by { assert Aged(0); }
        if n == 0 { break; }
        off, rest, inserted := 0, rest - n, inserted + n;
      }
      j.CopyEnds(j0, src.pageEnd, TakenAs(true), it, i, from, len, allocator.refusals == old(allocator.refusals));
    }

    // ---- the operations

    // consistent, and every state so far is in the history
    ghost predicate Sound()
      reads this, allocator, allocator.ledger.spots.Keys, allocator.ledger.stored.Keys, set d | d in allocator.ledger.stored :: d.mem
    {
      Consistent() && history != [] && history[|history| - 1] == Now() && Run(history)
    }

    // sound, and without empty pages
    ghost predicate Valid()
      reads this, allocator, allocator.ledger.spots.Keys, allocator.ledger.stored.Keys, set d | d in allocator.ledger.stored :: d.mem
    {
      Sound() && Packed(Cells())
    }

    // what the buffer holds
    ghost function Content(): seq<byte>
      requires pageEnd in allocator.ledger.rings
      reads this, allocator
    {
      Flat(Cells())
    }

    // Of two states this buffer has been in with the same revision, the pages, windows and bytes of the
    // earlier are the first ones of the later, and if it was empty it stayed empty. This state is the last of them.
    lemma RevisionMeansPrefix(i: nat, j: nat)
      requires Sound() && i <= j < |history| && history[i].revision == history[j].revision
      ensures history[i].cells <= history[j].cells && Flat(history[i].cells) <= Flat(history[j].cells)
      ensures |history[i].cells| == 1 ==> |history[j].cells| == 1
      ensures history[|history| - 1] == Snap(dataRevision, Cells())
    {
      RunPrefix(history, i, j);
    }

    // this state entered into the history
    ghost method Record()
      requires Consistent() && history != [] && Run(history) && Evolves(history[|history| - 1], Now())
      modifies this`history
      ensures Sound() && history == old(history) + [Now()]
    {
      RunOn(history, Now());
      history := history + [Now()];
    }

    // An insertion closed and entered into the history: c is what the buffer held before it, p where the new data goes.
    ghost method Conclude(j: Insertion, p: nat, c: seq<byte>)
      requires Consistent() && history != [] && Run(history) && history[|history| - 1] == j.start
      requires j.end == pageEnd && j.Stands(allocator.ledger, dataRevision) && Packed(j.start.cells)
      requires j.Aims() ==> p == Position(j.start.cells, j.was.Gap(j.next), j.o)
      requires c == Flat(j.start.cells)
      modifies this`history
      ensures j.Aims() && Sound() && history == old(history) + [Now()] && j.Brings(Cells()) && j.Revises(dataRevision)
      ensures allocator.ledger.rings == j.was.rings[pageEnd := Cells()]
      ensures p <= |c| && Content() == c[..p] + j.done + c[p..]
      ensures Packed(Cells()) <==> j.done == [] || j.next == pageEnd || j.o < |j.was.At(j.next).bytes|
    {
      j.Sights(allocator.ledger, dataRevision);
      j.Outcome(allocator.ledger, dataRevision);
      Record();
    }

    ghost function Before(next: Page, offset: nat): nat
      requires Inside(next) && pageEnd in allocator.ledger.rings
      reads allocator, next
    {
      Position(Cells(), Gap(next), Min(offset, next.len))
    }

    // The revision r became this one when n bytes were put into a buffer of `size` bytes. At the end the first
    // data of all changes it, and nothing else does; elsewhere all data does.
    predicate Revised(r: nat, size: nat, atEnd: bool, n: nat)
      reads this
    {
      if atEnd then dataRevision == r + if size == 0 && n > 0 then 1 else 0 else n > 0 ==> dataRevision > r
    }

    method InsertDataIf(next: Page, offset: nat, buf: array<byte>, len: nat, rejected: bool)
      returns (n: nat, ghost j: Insertion)
      requires Consistent() && Inside(next) && len <= buf.Length
      modifies this`dataSize, this`dataRevision, allocator, next, next.prev, next.data
      ensures Consistent() && j.Stands(allocator.ledger, dataRevision) && allocator.Grown()
      ensures old(Start(next, offset, strategy.pageSize)).Goal(j) && n <= len && j.done == buf[..n]
      ensures if rejected then n == 0 else allocator.refusals == old(allocator.refusals) ==> n == len
      ensures j.Delivers(Copy, Lump(pageEnd, buf[..len]), len, n == len)
      ensures CutEvenly(j.added, len, strategy.pageSize, n == len)
    {
      if rejected {
        Starts(next, offset, strategy.pageSize);
        n, j := 0, Start(next, offset, strategy.pageSize);
        j.PourStarts(Copy, buf[..len]);
        j.PourEnds(j, Copy, buf[..len], 0);
        allocator.GrownNot();
      } else {
        n, j := InsertData1(next, offset, buf, len);
      }
      LumpEvenly(j.was, Copy, pageEnd, buf[..len], strategy.pageSize, j.added, n == len);
    }

    method InsertDataRefIf(next: Page, offset: nat, buf: array<byte>, len: nat, rejected: bool)
      returns (n: nat, ghost j: Insertion)
      requires Consistent() && Inside(next) && len <= buf.Length && buf !in allocator.ledger.blocks
      modifies this`dataSize, this`dataRevision, allocator, next, next.prev, next.data
      ensures Consistent() && j.Stands(allocator.ledger, dataRevision) && allocator.Grown()
      ensures old(Start(next, offset, strategy.pageSize)).Goal(j) && n <= len && j.done == buf[..n]
      ensures if rejected then n == 0 else allocator.refusals == old(allocator.refusals) ==> n == len
      ensures j.Delivers(Lent(buf), Lump(pageEnd, buf[..len]), len, n == len)
      ensures CutEvenly(j.added, len, strategy.pageSize, n == len)
    {
      if rejected {
        Starts(next, offset, strategy.pageSize);
        n, j := 0, Start(next, offset, strategy.pageSize);
        j.PourStarts(Lent(buf), buf[..len]);
        j.PourEnds(j, Lent(buf), buf[..len], 0);
        allocator.GrownNot();
      } else {
        n, j := InsertDataRef1(next, offset, buf, len);
      }
      LumpEvenly(j.was, Lent(buf), pageEnd, buf[..len], strategy.pageSize, j.added, n == len);
    }

    // Data of the caller copied in front of a byte of a page, or at the end. Cutting at the very end of a page
    // is the one case that leaves an empty page behind.
    method InsertData(next: Page, offset: nat, buf: array<byte>, len: nat) returns (n: nat, ghost j: Insertion)
      requires Valid() && Inside(next) && len <= buf.Length
      modifies this, allocator, next, next.prev, next.data
      ensures Sound() && old(history) <= history && allocator.Grown()
      ensures allocator.ledger.rings == old(allocator.ledger.rings)[pageEnd := Cells()]
      ensures next != pageEnd && strategy.rejectsInsert ==> n == 0
      ensures !(next != pageEnd && strategy.rejectsInsert) && allocator.refusals == old(allocator.refusals) ==> n == len
      ensures n <= len && old(Start(next, offset, strategy.pageSize)).Goal(j) && j.Brings(Cells())
      ensures j.Delivers(Copy, Lump(pageEnd, buf[..len]), len, n == len)
      ensures CutEvenly(j.added, len, strategy.pageSize, n == len)
      ensures var p := old(Before(next, offset));
        p <= |old(Content())| && Content() == old(Content())[..p] + buf[..n] + old(Content())[p..]
      ensures Revised(old(dataRevision), old(dataSize), next == pageEnd, n)
      ensures Valid() <==> n == 0 || next == pageEnd || offset < old(next.len)
    {
      Starts(next, offset, strategy.pageSize);
      ghost var p, c := Before(next, offset), Content();
      n, j := InsertDataIf(next, offset, buf, len, next != pageEnd && strategy.rejectsInsert);
      Conclude(j, p, c);
    }

    // the same with the caller's memory used in place
    method InsertDataRef(next: Page, offset: nat, buf: array<byte>, len: nat) returns (n: nat, ghost j: Insertion)
      requires Valid() && Inside(next) && len <= buf.Length && buf !in allocator.ledger.blocks
      modifies this, allocator, next, next.prev, next.data
      ensures Sound() && old(history) <= history && allocator.Grown()
      ensures allocator.ledger.rings == old(allocator.ledger.rings)[pageEnd := Cells()]
      ensures next != pageEnd && strategy.rejectsInsert ==> n == 0
      ensures !(next != pageEnd && strategy.rejectsInsert) && allocator.refusals == old(allocator.refusals) ==> n == len
      ensures n <= len && old(Start(next, offset, strategy.pageSize)).Goal(j) && j.Brings(Cells())
      ensures j.Delivers(Lent(buf), Lump(pageEnd, buf[..len]), len, n == len)
      ensures CutEvenly(j.added, len, strategy.pageSize, n == len)
      ensures var p := old(Before(next, offset));
        p <= |old(Content())| && Content() == old(Content())[..p] + buf[..n] + old(Content())[p..]
      ensures Revised(old(dataRevision), old(dataSize), next == pageEnd, n)
      ensures Valid() <==> n == 0 || next == pageEnd || offset < old(next.len)
    {
      Starts(next, offset, strategy.pageSize);
      ghost var p, c := Before(next, offset), Content();
      n, j := InsertDataRefIf(next, offset, buf, len, next != pageEnd && strategy.rejectsInsert);
      Conclude(j, p, c);
    }

    // ---- what one buffer's operation means for the others

    // As long as an operation on this buffer changes no ring but its own, every other buffer keeps
    // its pages and its bytes, and stays sound.
    twostate lemma Untouched(other: Buffer)
      requires old(other.Valid()) && other.allocator == allocator && other.pageEnd != pageEnd
      requires allocator.Valid() && allocator.ledger.held == multiset{} && unchanged(other)
      requires pageEnd in allocator.ledger.rings && allocator.ledger.rings == old(allocator.ledger.rings)[pageEnd := Cells()]
      ensures other.Valid() && other.Cells() == old(other.Cells()) && other.Content() == old(other.Content())
    {}

    // how data of another buffer is taken over
    function Taking(): Origin {
      TakenAs(strategy.cloneOnWrite)
    }

    // the size pages taken over are cut to, as WriteBuffer spells out
    function CutTo(): nat {
      if strategy.fragmentAsTarget then strategy.pageSize else 0
    }

    // the variant the strategy asks for
    method InsertBufferBy(next: Page, offset: nat, src: Buffer, len: nat) returns (n: nat, ghost j: Insertion)
      requires Consistent() && Inside(next)
      requires src.allocator == allocator && src.pageEnd != pageEnd && src.Open() && Packed(src.Cells())
      modifies this`dataSize, this`dataRevision, allocator, next, next.prev, next.data, allocator.ledger.stored.Keys
      ensures Consistent() && j.Stands(allocator.ledger, dataRevision) && allocator.Grown() && n == |j.done|
      ensures j.Copied(old(Start(next, offset, CutTo())), src.pageEnd, Taking(), len, allocator.refusals == old(allocator.refusals))
    {
      if !strategy.cloneOnWrite && !strategy.fragmentAsTarget {
        n, j := InsertBuffer1(next, offset, src, len);
      } else if strategy.cloneOnWrite && !strategy.fragmentAsTarget {
        n, j := InsertBuffer2(next, offset, src, len);
      } else if !strategy.cloneOnWrite && strategy.fragmentAsTarget {
        n, j := InsertBuffer3(next, offset, src, len);
      } else {
        n, j := InsertBuffer4(next, offset, src, len);
      }
    }

    method InsertBufferIf(next: Page, offset: nat, src: Buffer, len: nat, rejected: bool)
      returns (n: nat, ghost j: Insertion)
      requires Consistent() && Inside(next)
      requires src.allocator == allocator && src.pageEnd != pageEnd && src.Open() && Packed(src.Cells())
      modifies this`dataSize, this`dataRevision, allocator, next, next.prev, next.data, allocator.ledger.stored.Keys
      ensures Consistent() && allocator.Grown() && j.Stands(allocator.ledger, dataRevision) && old(Start(next, offset, CutTo())).Goal(j)
      ensures n == |j.done| <= Min(len, |Flat(old(src.Cells()))|) && j.done == Flat(old(src.Cells()))[..n]
      ensures rejected ==> n == 0
      ensures !rejected && allocator.refusals == old(allocator.refusals) ==> n == Min(len, |Flat(old(src.Cells()))|)
      ensures j.Delivers(Taking(), old(src.Cells()), len, !rejected && allocator.refusals == old(allocator.refusals))
    {
      if rejected {
        Starts(next, offset, CutTo());
        allocator.GrownNot();
        DeliveryStarts(allocator.ledger, Taking(), src.Cells(), len, CutTo());
        n, j := 0, Start(next, offset, CutTo());
      } else {
        ghost var j0, e := Start(next, offset, CutTo()), src.pageEnd;
        n, j := InsertBufferBy(next, offset, src, len);
        j.CopiedShows(j0, e, Taking(), len, allocator.refusals == old(allocator.refusals));
      }
    }

    // pages of a size kept to, where the strategy asks for no cutting
    lemma PageSizeIff(was: Ledger, cs: seq<Cell>, len: nat, added: seq<Cell>)
      requires |cs| > 0 && cs[0].bytes == [] && Packed(cs)
      requires Delivered(was, if strategy.cloneOnWrite then Copy else Share, cs, len, if strategy.fragmentAsTarget then strategy.pageSize else 0, added, true)
      ensures !strategy.fragmentAsTarget && strategy.pageSize > 0 ==> (Bounded(added, strategy.pageSize) <==> Within(cs, len, strategy.pageSize))
    {
      if !strategy.fragmentAsTarget && strategy.pageSize > 0 {
        WithinIff(was, Taking(), cs, len, added, strategy.pageSize);
      }
    }

    // Data of another buffer, shared or copied as the strategy says: all four variants mean the same for the content.
    method InsertBuffer(next: Page, offset: nat, src: Buffer, len: nat) returns (n: nat, ghost j: Insertion)
      requires Valid() && Inside(next) && src.Valid() && src.allocator == allocator && src.pageEnd != pageEnd
      modifies this, allocator, next, next.prev, next.data, allocator.ledger.stored.Keys
      ensures Sound() && old(history) <= history && allocator.Grown()
      ensures allocator.ledger.rings == old(allocator.ledger.rings)[pageEnd := Cells()]
      ensures src.Valid() && src.Cells() == old(src.Cells())
      ensures next != pageEnd && strategy.rejectsInsert ==> n == 0
      ensures !(next != pageEnd && strategy.rejectsInsert) && allocator.refusals == old(allocator.refusals) ==>
        n == Min(len, |old(src.Content())|)
      ensures n <= Min(len, |old(src.Content())|)
      ensures old(Start(next, offset, CutTo())).Goal(j) && j.Brings(Cells())
      ensures j.Delivers(Taking(), src.Cells(), len,
        !(next != pageEnd && strategy.rejectsInsert) && allocator.refusals == old(allocator.refusals))
      ensures var p := old(Before(next, offset));
        p <= |old(Content())| && Content() == old(Content())[..p] + old(src.Content())[..n] + old(Content())[p..]
      ensures Revised(old(dataRevision), old(dataSize), next == pageEnd, n)
      ensures Valid() <==> n == 0 || next == pageEnd || offset < old(next.len)
    {
      Starts(next, offset, CutTo());
      ghost var p, c := Before(next, offset), Content();
      n, j := InsertBufferIf(next, offset, src, len, next != pageEnd && strategy.rejectsInsert);
      Conclude(j, p, c);
      Untouched(src);
    }

    lemma EndInside()
      requires Open()
      ensures Inside(pageEnd) && Slot(pageEnd) == 0 && pageEnd.data == null && pageEnd.len == 0
    {
      allocator.ledger.Here(pageEnd, 0);
      assert PageMirrors(allocator.ledger, pageEnd);
    }

    // Pages were added behind those there were, none of them empty or beyond the limit: those for
    // the first portions of `len` bytes of a source, and for all of them if that is said.
    ghost predicate Appended(was: Ledger, origin: Origin, cs: seq<Cell>, len: nat, limit: nat, all: bool)
      reads this, allocator
    {
      && pageEnd in was.rings && pageEnd in allocator.ledger.rings && was.rings[pageEnd] <= Cells()
      && var added := Cells()[|was.rings[pageEnd]|..];
      && Bounded(added, limit) && Delivered(was, origin, cs, len, limit, added, all)
    }

    // the page an insertion at the end is linked behind
    lemma LastKnown()
      requires Open()
      ensures pageEnd.prev in allocator.ledger.spots && pageEnd in allocator.ledger.spots
    {
      EndInside();
      assert PageMirrors(allocator.ledger, pageEnd);
      allocator.ledger.PrevSpot(pageEnd);
    }

    // the page data is put in front of
    lemma FirstKnown()
      requires Open()
      ensures pageEnd in allocator.ledger.spots && pageEnd.next in allocator.ledger.spots
      ensures pageEnd.next.data != null ==> pageEnd.next.data in allocator.ledger.stored
    {
      EndInside();
      FirstFound();
      if |Cells()| > 1 { IteratorAt(pageEnd.next, 1); }
    }

    // an empty ring is its end page
    lemma Alone()
      requires Valid() && Content() == []
      ensures |Cells()| == 1 && pageEnd.prev == pageEnd
    {
      allocator.ledger.Here(pageEnd, 0);
      assert PageMirrors(allocator.ledger, pageEnd);
      if |Cells()| > 1 { FlatAt(Cells(), 1); }
    }

    // an insertion at the end: everything there was is in front of it
    lemma AtEnd(j: Insertion, origin: Origin, cs: seq<Cell>, len: nat, all: bool)
      requires pageEnd in allocator.ledger.rings && j.Stands(allocator.ledger, dataRevision) && j.next == j.end == pageEnd && Packed(j.start.cells)
      requires j.Delivers(origin, cs, len, all)
      ensures Content() == Flat(j.start.cells) + j.done && Appended(j.was, origin, cs, len, j.limit, all)
      ensures Revised(j.start.revision, |Flat(j.start.cells)|, true, |j.done|)
    {
      j.Show(allocator.ledger, dataRevision);
      j.Outcome(allocator.ledger, dataRevision);
      j.was.Here(pageEnd, 0);
      ReadAll(j.start.cells);
      BoundedFlat(j.added, j.limit);
      assert Cells() == j.start.cells + j.added;
      assert Cells()[|j.start.cells|..] == j.added;
    }

    // an insertion at the end closed and entered into the history
    ghost method ConcludeAtEnd(j: Insertion, origin: Origin, cs: seq<Cell>, len: nat, all: bool)
      requires Consistent() && history != [] && Run(history) && history[|history| - 1] == j.start
      requires j.next == j.end == pageEnd && j.Stands(allocator.ledger, dataRevision) && Packed(j.start.cells)
      requires j.Delivers(origin, cs, len, all)
      modifies this`history
      ensures Valid() && history == old(history) + [Now()]
      ensures allocator.ledger.rings == j.was.rings[pageEnd := Cells()]
      ensures Content() == Flat(j.start.cells) + j.done && Appended(j.was, origin, cs, len, j.limit, all)
      ensures Revised(j.start.revision, |Flat(j.start.cells)|, true, |j.done|)
    {
      j.Sights(allocator.ledger, dataRevision);
      Conclude(j, Position(j.start.cells, j.was.Gap(j.next), j.o), Flat(j.start.cells));
      AtEnd(j, origin, cs, len, all);
    }

    // pb_trivial_buffer_write_data
    lemma AppendedEvenly(was: Ledger, origin: Origin, bytes: seq<byte>, all: bool)
      requires Appended(was, origin, Lump(pageEnd, bytes), |bytes|, strategy.pageSize, all)
      ensures |was.rings[pageEnd]| <= |Cells()| && CutEvenly(Cells()[|was.rings[pageEnd]|..], |bytes|, strategy.pageSize, all)
    {
      LumpEvenly(was, origin, pageEnd, bytes, strategy.pageSize, Cells()[|was.rings[pageEnd]|..], all);
    }

    method WriteData(buf: array<byte>, len: nat) returns (n: nat)
      requires Valid() && len <= buf.Length
      modifies this, allocator, pageEnd, pageEnd.prev
      ensures Valid() && old(history) <= history && allocator.Grown()
      ensures strategy.rejectsWrite ==> n == 0
      ensures !strategy.rejectsWrite && allocator.refusals == old(allocator.refusals) ==> n == len
      ensures n <= len && Content() == old(Content()) + buf[..n]
      ensures allocator.ledger.rings == old(allocator.ledger.rings)[pageEnd := Cells()]
      ensures Appended(old(allocator.ledger), Copy, Lump(pageEnd, buf[..len]), len, strategy.pageSize, n == len)
      ensures |old(Cells())| <= |Cells()| && CutEvenly(Cells()[|old(Cells())|..], len, strategy.pageSize, n == len)
      ensures Revised(old(dataRevision), old(dataSize), true, n)
    {
      EndInside();
      ghost var j;
      n, j := InsertDataIf(pageEnd, 0, buf, len, strategy.rejectsWrite);
      ConcludeAtEnd(j, Copy, Lump(pageEnd, buf[..len]), len, n == len);
      AppendedEvenly(old(allocator.ledger), Copy, buf[..len], n == len);
    }

    // pb_trivial_buffer_write_data_ref
    method WriteDataRef(buf: array<byte>, len: nat) returns (n: nat)
      requires Valid() && len <= buf.Length && buf !in allocator.ledger.blocks
      modifies this, allocator, pageEnd, pageEnd.prev
      ensures Valid() && old(history) <= history && allocator.Grown()
      ensures strategy.rejectsWrite ==> n == 0
      ensures !strategy.rejectsWrite && allocator.refusals == old(allocator.refusals) ==> n == len
      ensures n <= len && Content() == old(Content()) + buf[..n]
      ensures allocator.ledger.rings == old(allocator.ledger.rings)[pageEnd := Cells()]
      ensures Appended(old(allocator.ledger), Lent(buf), Lump(pageEnd, buf[..len]), len, strategy.pageSize, n == len)
      ensures |old(Cells())| <= |Cells()| && CutEvenly(Cells()[|old(Cells())|..], len, strategy.pageSize, n == len)
      ensures Revised(old(dataRevision), old(dataSize), true, n)
    {
      EndInside();
      ghost var j;
      n, j := InsertDataRefIf(pageEnd, 0, buf, len, strategy.rejectsWrite);
      ConcludeAtEnd(j, Lent(buf), Lump(pageEnd, buf[..len]), len, n == len);
      AppendedEvenly(old(allocator.ledger), Lent(buf), buf[..len], n == len);
    }

    // pb_trivial_buffer_write_buffer
    method WriteBuffer(src: Buffer, len: nat) returns (n: nat)
      requires Valid() && src.Valid() && src.allocator == allocator && src.pageEnd != pageEnd
      modifies this, allocator, pageEnd, pageEnd.prev, allocator.ledger.stored.Keys
      ensures Valid() && old(history) <= history && allocator.Grown()
      ensures src.Valid() && src.Cells() == old(src.Cells())
      ensures strategy.rejectsWrite ==> n == 0
      ensures !strategy.rejectsWrite && allocator.refusals == old(allocator.refusals) ==> n == Min(len, |old(src.Content())|)
      ensures n <= Min(len, |old(src.Content())|) && Content() == old(Content()) + old(src.Content())[..n]
      ensures allocator.ledger.rings == old(allocator.ledger.rings)[pageEnd := Cells()]
      ensures Appended(old(allocator.ledger), if strategy.cloneOnWrite then Copy else Share, src.Cells(), len,
        if strategy.fragmentAsTarget then strategy.pageSize else 0, !strategy.rejectsWrite && allocator.refusals == old(allocator.refusals))
      ensures Revised(old(dataRevision), old(dataSize), true, n)
    {
      EndInside();
      ghost var j;
      n, j := InsertBufferIf(pageEnd, 0, src, len, strategy.rejectsWrite);
      ConcludeAtEnd(j, Taking(), j.was.rings[src.pageEnd], len, !strategy.rejectsWrite && allocator.refusals == old(allocator.refusals));
      Untouched(src);
    }

    // Without cutting, the pages written keep to the page size exactly when no page of the source gives more.
    method WriteUncut(src: Buffer, len: nat) returns (n: nat)
      requires Valid() && src.Valid() && src.allocator == allocator && src.pageEnd != pageEnd
      requires !strategy.rejectsWrite && !strategy.fragmentAsTarget && strategy.pageSize > 0
      modifies this, allocator, pageEnd, pageEnd.prev, allocator.ledger.stored.Keys
      ensures Valid() && src.Valid() && old(Cells()) <= Cells()
      ensures allocator.refusals == old(allocator.refusals) ==>
        (Bounded(Cells()[|old(Cells())|..], strategy.pageSize) <==> Within(src.Cells(), len, strategy.pageSize))
    {
      allocator.ledger.Here(src.pageEnd, 0);
      ghost var was, cs := allocator.ledger, Cells();
      n := WriteBuffer(src, len);
      if allocator.refusals == old(allocator.refusals) {
        PageSizeIff(was, src.Cells(), len, Cells()[|cs|..]);
      }
    }

    // n bytes of no value in particular
    ghost function Blanks(n: nat): seq<byte> {
      seq(n, _ => 0)
    }

    method Extend1(len: nat) returns (extended: nat, ghost j: Insertion)
      requires Consistent()
      modifies this`dataSize, this`dataRevision, allocator, pageEnd, pageEnd.prev
      ensures Consistent() && j.Stands(allocator.ledger, dataRevision) && old(Start(pageEnd, 0, strategy.pageSize)).Goal(j)
      ensures extended == |j.done| <= len && (allocator.refusals == old(allocator.refusals) ==> extended == len)
      ensures j.Delivers(Any, Lump(pageEnd, Blanks(len)), len, extended == len) && allocator.Grown()
    {
      allocator.GrownNot();
      ghost var j0, any := Start(pageEnd, 0, strategy.pageSize), Blanks(len);
      EndInside();
      Starts(pageEnd, 0, strategy.pageSize);
      j0.PourStarts(Any, any);
      j := j0;
      var rest: nat := len;
      extended := 0;
      while rest > 0
        invariant Consistent() && extended + rest == len && Running(j, pageEnd, 0) && j.limit == j0.limit && j.Poured(j0, Any, any, extended)
        invariant allocator.refusals == old(allocator.refusals) && allocator.Grown()
        invariant pageEnd.data == null && (pageEnd.prev == old(pageEnd.prev) || fresh(pageEnd.prev))
      {
        var ok;
        ok, extended, rest, j := InsertChunk(pageEnd, 0, Blank, extended, rest, any, j0, j);
        assert allocator.Grown() by { assert Aged(0); }
        if !ok { break; }
      }
      j.PourEnds(j0, Any, any, extended);
    }

    // pb_trivial_buffer_extend: new bytes of any value at the end
    method Extend(len: nat) returns (n: nat)
      requires Valid()
      modifies this, allocator, pageEnd, pageEnd.prev
      ensures Valid() && old(history) <= history && allocator.Grown()
      ensures strategy.rejectsExtend ==> n == 0
      ensures !strategy.rejectsExtend && allocator.refusals == old(allocator.refusals) ==> n == len
      ensures n <= len && |Content()| == |old(Content())| + n && old(Content()) <= Content()
      ensures allocator.ledger.rings == old(allocator.ledger.rings)[pageEnd := Cells()]
      ensures Appended(old(allocator.ledger), Any, Lump(pageEnd, Blanks(len)), len, strategy.pageSize, n == len)
      ensures |old(Cells())| <= |Cells()| && CutEvenly(Cells()[|old(Cells())|..], len, strategy.pageSize, n == len)
      ensures Revised(old(dataRevision), old(dataSize), true, n)
    {
      EndInside();
      ghost var j := Start(pageEnd, 0, strategy.pageSize);
      Starts(pageEnd, 0, strategy.pageSize);
      j.PourStarts(Any, Blanks(len));
      j.PourEnds(j, Any, Blanks(len), 0);
      if strategy.rejectsExtend {
        n := 0;
        allocator.GrownNot();
      } else {
        n, j := Extend1(len);
      }
      ConcludeAtEnd(j, Any, Lump(pageEnd, Blanks(len)), len, n == len);
      AppendedEvenly(old(allocator.ledger), Any, Blanks(len), n == len);
    }

    // pb_trivial_buffer_reserve
    method Reserve(size: nat) returns (n: nat)
      requires Valid()
      modifies this, allocator, pageEnd, pageEnd.prev
      ensures Valid() && old(history) <= history && allocator.Grown()
      ensures strategy.rejectsExtend || size <= old(dataSize) ==> n == 0
      ensures !strategy.rejectsExtend && allocator.refusals == old(allocator.refusals) ==> dataSize >= size
      ensures n <= (if size <= old(dataSize) then 0 else size - old(dataSize))
      ensures allocator.ledger.rings == old(allocator.ledger.rings)[pageEnd := Cells()]
      ensures |Content()| == |old(Content())| + n && old(Content()) <= Content()
      ensures var need := if size <= old(dataSize) then 0 else size - old(dataSize);
        |old(Cells())| <= |Cells()| && CutEvenly(Cells()[|old(Cells())|..], need, strategy.pageSize, n == need)
      ensures Revised(old(dataRevision), old(dataSize), true, n)
    {
      n := 0;
      if strategy.rejectsExtend || size <= dataSize {
        allocator.GrownNot();
      } else {
        n := Extend(size - dataSize);
      }
    }

    // ---- adding data in front

    lemma FirstAt(it: Page)
      requires Open() && ReadsAt(Cells(), pageEnd, it, 1)
      ensures Inside(it) && Gap(it) == 1 && it.prev == pageEnd
      ensures it == pageEnd || (it.data != null && it.data in allocator.ledger.stored)
      ensures pageEnd.next == it
    {
      allocator.ledger.Here(pageEnd, 0);
      if it != pageEnd { IteratorAt(it, 1); }
      assert PageMirrors(allocator.ledger, it);
      assert PageMirrors(allocator.ledger, pageEnd);
    }

    lemma FrontPacked(was: seq<Cell>, left: Page, c: Cell)
      requires |was| > 0 && was[0].bytes == [] && Packed(was) && c.bytes != []
      ensures Spliced(was, 1, 0, left, [c]) == InsertAt(was, 1, c) && Packed(InsertAt(was, 1, c))
    {
      ghost var s := InsertAt(was, 1, c);
      forall i | 0 < i < |s| ensures s[i].bytes != [] { if i > 1 { assert s[i] == was[i - 1]; } }
    }

    // one page more in front of the first
    method RewindPage(size: nat) returns (n: nat)
      requires Consistent() && Packed(Cells()) && 0 < size
      modifies this`dataSize, this`dataRevision, allocator, pageEnd, pageEnd.next, if pageEnd.next == null then {} else {pageEnd.next.data}
      ensures Consistent() && |old(Cells())| > 0 && dataRevision == old(dataRevision) + (if n > 0 then 1 else 0) && allocator.Grown()
      ensures n == (if allocator.refusals == old(allocator.refusals) then size else 0)
      ensures n == 0 ==> allocator.ledger.rings == old(allocator.ledger.rings)
      ensures n > 0 ==> |Cells()| > 1 && |Cells()[1].bytes| == n
      ensures n > 0 ==> Cells() == InsertAt(old(Cells()), 1, Cells()[1])
      ensures n > 0 ==> allocator.ledger.rings == old(allocator.ledger.rings)[pageEnd := Cells()]
      ensures n > 0 ==> pageEnd.next != null && fresh(pageEnd.next) && fresh(pageEnd.next.data)
      ensures n > 0 ==> Own(old(allocator.ledger), Cells()[1]) && Cells()[1].data == pageEnd.next.data
    {
      n := 0;
      allocator.ledger.Here(pageEnd, 0);
      var it: Page := GetIterator();
      FirstAt(it);
      var page := allocator.BufferPageCreate(size);
      if page != null {
        n := RewindMade(it, page);
      }
    }

    method RewindMade(it: Page, page: Page) returns (n: nat)
      requires Open() && Packed(Cells()) && ReadsAt(Cells(), pageEnd, it, 1) && dataSize == |Flat(Cells())|
      requires allocator.Loose(page) && page.len > 0 && allocator.ledger.held == multiset{page.data}
      modifies this`dataSize, this`dataRevision, allocator, page, page.data, pageEnd, it, it.data
      ensures Consistent() && |old(Cells())| > 0 && dataRevision == old(dataRevision) + 1
      ensures n == old(page.len) && allocator.refusals == old(allocator.refusals)
      ensures Cells() == InsertAt(old(Cells()), 1, old(allocator.CellOf(page)))
      ensures allocator.ledger.rings == old(allocator.ledger.rings)[pageEnd := Cells()]
      ensures pageEnd.next == page && page.data == old(page.data)
      ensures allocator.GrownBy(page)
    {
      ghost var cs, c, left := Cells(), allocator.CellOf(page), page;
      allocator.ledger.Here(pageEnd, 0);
      FirstAt(it);
      FlatSingle(cs);
      n, left := InsertPage(it, 0, page);
      FrontPacked(cs, left, c);
      IteratorAt(page, 1);
      FirstAt(page);
    }

    // pages of `rewound` bytes in all are in front of those of cs
    ghost predicate Rewinds(was: Ledger, r: nat, len: nat, rewound: nat)
      reads this, allocator
    {
      && pageEnd in was.rings && pageEnd in allocator.ledger.rings && rewound <= len
      && forall u {:trigger Shown(u)} :: Shown(u) ==>
        && Preceded(was.rings[pageEnd], Cells(), strategy.pageSize, rewound) && Packed(Cells())
        && Fronted(was, was.rings[pageEnd], Cells(), len, rewound)
        && allocator.ledger.rings == was.rings[pageEnd := Cells()]
        && dataRevision >= r && (dataRevision == r <==> rewound == 0)
    }

    // the pages in front of those of cs are, in the order they were made, the first that `len` bytes are cut into
    ghost predicate Fronted(was: Ledger, cs: seq<Cell>, l: seq<Cell>, len: nat, rewound: nat) {
      && 0 < |cs| <= |l| && rewound <= len
      && Delivering(was, Any, Lump(pageEnd, Blanks(len)), len, strategy.pageSize, Backwards(l[1..1 + |l| - |cs|]), 0, rewound, len - rewound)
    }

    lemma FrontedOn(was: Ledger, cs: seq<Cell>, l: seq<Cell>, len: nat, rewound: nat, done: nat, rest: nat, c: Cell)
      requires Fronted(was, cs, l, len, rewound) && rewound + rest == len && rest > 0 && Own(was, c)
      requires |c.bytes| == Fit(strategy.pageSize, rest) && done == rewound + |c.bytes|
      ensures done <= len && Fronted(was, cs, InsertAt(l, 1, c), len, done)
    {
      var m, k := InsertAt(l, 1, c), |l| - |cs|;
      assert m[1..2 + k] == [c] + l[1..1 + k];
      assert Backwards(m[1..2 + k]) == Backwards(l[1..1 + k]) + [c];
      DeliveryOn(was, Any, Lump(pageEnd, Blanks(len)), len, strategy.pageSize, Backwards(l[1..1 + k]), 0, rewound, rest, c);
    }

    // The pages in front of the old ones are, in the order they were made, the first of those `len` bytes are cut into,
    // each on a region of its own; all of them if that is said.
    ghost predicate Prepended(was: Ledger, len: nat, all: bool)
      reads this, allocator
    {
      && pageEnd in was.rings && pageEnd in allocator.ledger.rings && 0 < |was.rings[pageEnd]| <= |Cells()|
      && var front := Backwards(Cells()[1..1 + |Cells()| - |was.rings[pageEnd]|]);
      && Delivered(was, Any, Lump(pageEnd, Blanks(len)), len, strategy.pageSize, front, all)
      && CutEvenly(front, len, strategy.pageSize, all) && forall k | 0 <= k < |front| :: Own(was, front[k])
    }

    lemma RewindEnds(was: Ledger, r: nat, len: nat, rewound: nat)
      requires Rewinds(was, r, len, rewound)
      ensures Prepended(was, len, rewound == len)
    {
      assert Shown(0);
      var lump, front := Lump(pageEnd, Blanks(len)), Backwards(Cells()[1..1 + |Cells()| - |was.rings[pageEnd]|]);
      DeliveryEnds(was, Any, lump, len, strategy.pageSize, front, 0, rewound, len - rewound);
      LumpEvenly(was, Any, pageEnd, Blanks(len), strategy.pageSize, front, rewound == len);
      DeliveredOwn(was, Any, lump, len, strategy.pageSize, front, rewound == len);
    }

    lemma RewindStarts(len: nat)
      requires Open() && Packed(Cells())
      ensures Rewinds(allocator.ledger, dataRevision, len, 0)
    {
      allocator.ledger.Here(pageEnd, 0);
      DeliveryStarts(allocator.ledger, Any, Lump(pageEnd, Blanks(len)), len, strategy.pageSize);
    }

    lemma RewindOn(was: Ledger, r: nat, r0: nat, mid: seq<Cell>, len: nat, rewound: nat, rest: nat, n: nat, done: nat)
      requires pageEnd in was.rings && pageEnd in allocator.ledger.rings && |was.rings[pageEnd]| > 0 && was.rings[pageEnd][0].bytes == []
      requires Preceded(was.rings[pageEnd], mid, strategy.pageSize, rewound) && Packed(was.rings[pageEnd])
      requires Fronted(was, was.rings[pageEnd], mid, len, rewound) && rewound + rest == len && n == Fit(strategy.pageSize, rest)
      requires |Cells()| > 1 && |Cells()[1].bytes| == n > 0 && Cells() == InsertAt(mid, 1, Cells()[1]) && Own(was, Cells()[1])
      requires allocator.ledger.rings == was.rings[pageEnd := Cells()] && done == rewound + n && dataRevision == r0 + 1 && r0 >= r
      ensures Rewinds(was, r, len, done)
    {
      PrecededOn(was.rings[pageEnd], mid, strategy.pageSize, rewound, Cells()[1]);
      PrecededFlat(was.rings[pageEnd], Cells(), strategy.pageSize, done);
      FrontedOn(was, was.rings[pageEnd], mid, len, rewound, done, rest, Cells()[1]);
    }

    // one page more in front, of what is left to rewind
    method RewindChunk(rest: nat, rewound: nat, ghost was: Ledger, ghost r: nat, ghost len: nat)
      returns (ok: bool, done: nat, left: nat)
      requires Consistent() && Rewinds(was, r, len, rewound) && 0 < rest && rewound + rest == len && Packed(was.rings[pageEnd])
      modifies this`dataSize, this`dataRevision, allocator, pageEnd, pageEnd.next, if pageEnd.next == null then {} else {pageEnd.next.data}
      ensures Consistent() && Rewinds(was, r, len, done) && done + left == len && allocator.Grown()
      ensures ok <==> allocator.refusals == old(allocator.refusals)
      ensures if ok then left < rest && pageEnd.next != null && fresh(pageEnd.next) && fresh(pageEnd.next.data) else left == rest
    {
      ghost var mid, r0 := Cells(), dataRevision;
      assert Preceded(was.rings[pageEnd], mid, strategy.pageSize, rewound) && Packed(mid)
        && Fronted(was, was.rings[pageEnd], mid, len, rewound)
        && allocator.ledger.rings == was.rings[pageEnd := mid] && r0 >= r && (r0 == r <==> rewound == 0) by { assert Shown(0); }
      allocator.ledger.Here(pageEnd, 0);
      var size := Fit(strategy.pageSize, rest);
      var n := RewindPage(size);
      ok, done, left := n > 0, rewound + n, rest - n;
      if ok {
        RewindOn(was, r, r0, mid, len, rewound, rest, n, done);
      }
    }

    method Rewind1(len: nat) returns (rewound: nat)
      requires Consistent() && Packed(Cells())
      modifies this`dataSize, this`dataRevision, allocator, pageEnd, pageEnd.next, if pageEnd.next == null then {} else {pageEnd.next.data}
      ensures Consistent() && rewound <= len && Preceded(old(Cells()), Cells(), strategy.pageSize, rewound)
      ensures Prepended(old(allocator.ledger), len, rewound == len)
      ensures allocator.ledger.rings == old(allocator.ledger.rings)[pageEnd := Cells()]
      ensures dataRevision >= old(dataRevision) && (dataRevision == old(dataRevision) <==> rewound == 0)
      ensures (allocator.refusals == old(allocator.refusals) ==> rewound == len) && allocator.Grown()
    {
      allocator.GrownNot();
      ghost var was, r := allocator.ledger, dataRevision;
      RewindStarts(len);
      var rest: nat := len;
      rewound := 0;
      while rest > 0
        invariant Consistent() && Rewinds(was, r, len, rewound) && rewound + rest == len
        invariant allocator.refusals == old(allocator.refusals) && allocator.Grown()
        invariant if rest == len then pageEnd.next == old(pageEnd.next) && (pageEnd.next != null ==> pageEnd.next.data == old(pageEnd.next.data))
          else pageEnd.next != null && fresh(pageEnd.next) && fresh(pageEnd.next.data)
      {
        var ok;
        ok, rewound, rest := RewindChunk(rest, rewound, was, r, len);
        assert allocator.Grown() by { assert Aged(0); }
        if !ok { break; }
      }
      RewindEnds(was, r, len, rewound);
      RewindShows(was, r, len, rewound);
    }

    lemma RewindShows(was: Ledger, r: nat, len: nat, rewound: nat)
      requires Rewinds(was, r, len, rewound)
      ensures Preceded(was.rings[pageEnd], Cells(), strategy.pageSize, rewound)
      ensures allocator.ledger.rings == was.rings[pageEnd := Cells()]
      ensures dataRevision >= r && (dataRevision == r <==> rewound == 0)
    {
      assert Shown(0);
    }

    method RewindIf(len: nat, rejected: bool) returns (n: nat)
      requires Consistent() && Packed(Cells())
      modifies this`dataSize, this`dataRevision, allocator, pageEnd, pageEnd.next, if pageEnd.next == null then {} else {pageEnd.next.data}
      ensures Consistent() && n <= len && Preceded(old(Cells()), Cells(), strategy.pageSize, n)
      ensures Prepended(old(allocator.ledger), len, n == len) && (rejected ==> n == 0)
      ensures allocator.ledger.rings == old(allocator.ledger.rings)[pageEnd := Cells()]
      ensures dataRevision >= old(dataRevision) && (dataRevision == old(dataRevision) <==> n == 0)
      ensures (!rejected && allocator.refusals == old(allocator.refusals) ==> n == len) && allocator.Grown()
    {
      if rejected {
        n := 0;
        allocator.GrownNot();
        RewindStarts(len);
        RewindEnds(allocator.ledger, dataRevision, len, 0);
        RewindShows(allocator.ledger, dataRevision, len, 0);
      } else {
        n := Rewind1(len);
      }
    }

    method RewindBare(len: nat) returns (n: nat)
      requires Consistent() && Packed(Cells())
      modifies this`dataSize, this`dataRevision, allocator, pageEnd, pageEnd.next, if pageEnd.next == null then {} else {pageEnd.next.data}
      ensures Consistent() && Packed(Cells()) && n <= len && (strategy.rejectsRewind ==> n == 0)
      ensures |Flat(Cells())| == n + |old(Flat(Cells()))| && Flat(Cells())[n..] == old(Flat(Cells()))
      ensures Preceded(old(Cells()), Cells(), strategy.pageSize, n) && Prepended(old(allocator.ledger), len, n == len)
      ensures allocator.ledger.rings == old(allocator.ledger.rings)[pageEnd := Cells()] && allocator.Grown()
      ensures (dataRevision == old(dataRevision) <==> n == 0) && Evolves(old(Now()), Now())
      ensures !strategy.rejectsRewind && allocator.refusals == old(allocator.refusals) ==> n == len
    {
      ghost var cs := Cells();
      allocator.ledger.Here(pageEnd, 0);
      n := RewindIf(len, strategy.rejectsRewind);
      PrecededFlat(cs, Cells(), strategy.pageSize, n);
    }

    // pb_trivial_buffer_rewind: new bytes of any value in front
    method Rewind(len: nat) returns (n: nat)
      requires Valid()
      modifies this, allocator, pageEnd, pageEnd.next, if pageEnd.next == null then {} else {pageEnd.next.data}
      ensures Valid() && old(history) <= history
      ensures allocator.ledger.rings == old(allocator.ledger.rings)[pageEnd := Cells()]
      ensures strategy.rejectsRewind ==> n == 0
      ensures !strategy.rejectsRewind && allocator.refusals == old(allocator.refusals) ==> n == len
      ensures n <= len && |Content()| == n + |old(Content())| && Content()[n..] == old(Content())
      ensures Preceded(old(Cells()), Cells(), strategy.pageSize, n) && allocator.Grown()
      ensures Prepended(old(allocator.ledger), len, n == len)
      ensures dataRevision == old(dataRevision) <==> n == 0
    {
      n := RewindBare(len);
      Record();
    }

    // ---- taking data away

    // a page unlinked and destroyed
    method Remove(page: Page)
      requires Open() && allocator.ledger.held == multiset{} && Inside(page) && Slot(page) > 0
      modifies allocator`ledger, page, page.prev, page.next, page.data
      ensures Open() && old(allocator.ledger).Sheds(allocator.ledger, pageEnd)
      ensures Cells() == RemoveAt(old(Cells()), old(Slot(page)))
    {
      allocator.ledger.AtOK(page);
      assert PageMirrors(allocator.ledger, page);
      allocator.ledger.UnlinkFacts(page);
      allocator.Unlink(page);
      allocator.ledger.ReleaseFacts(page.data);
      var _ := allocator.PageDestroy(page);
    }

    // A page's window narrowed to `len` bytes behind the first `skip`; a page that shows nothing is destroyed.
    method Narrow(page: Page, skip: nat, len: nat)
      requires Open() && allocator.ledger.held == multiset{} && Inside(page) && Slot(page) > 0
      requires skip + len <= |allocator.ledger.At(page).bytes|
      modifies allocator`ledger, page, page.prev, page.next, page.data
      ensures Open() && old(allocator.ledger).Sheds(allocator.ledger, pageEnd)
      ensures var c, i := old(allocator.ledger.At(page)), old(Slot(page));
        Cells() == Shrunk(old(Cells()), i, Cell(page, c.data, c.off + skip, c.bytes[skip..skip + len]))
    {
      ghost var was, c := allocator.ledger, allocator.ledger.At(page);
      was.AtOK(page);
      assert PageMirrors(was, page);
      SliceOfSlice(was.stored[c.data], c.off, c.off + |c.bytes|, skip, skip + len);
      allocator.Resize(page, page.off + skip, len);
      was.PutSpot(Cell(page, c.data, c.off + skip, c.bytes[skip..skip + len]), page);
      if len == 0 {
        Remove(page);
      }
    }

    lemma Neighbours(p: Page)
      requires Open() && Inside(p) && Slot(p) > 0
      ensures p.prev in allocator.ledger.spots && p.next in allocator.ledger.spots && p.data in allocator.ledger.stored
    {
      var l := allocator.ledger;
      assert PageMirrors(l, p);
      l.AtOK(p);
      l.PrevSpot(p);
      l.NextSpot(p);
    }

    // n bytes off the first page
    method SeekPage(page: Page, n: nat) returns (it: Page)
      requires Open() && allocator.ledger.held == multiset{} && Packed(Cells())
      requires ReadsAt(Cells(), pageEnd, page, 1) && page != pageEnd && 0 < n <= page.len
      modifies allocator`ledger, page, page.prev, page.next, page.data
      ensures Open() && old(allocator.ledger).Sheds(allocator.ledger, pageEnd) && Packed(Cells())
      ensures n <= |old(Flat(Cells()))| && Flat(Cells()) == old(Flat(Cells()))[n..]
      ensures |old(Cells())| > 1 && n <= |old(Cells())[1].bytes| && Cells() == Shrunk(old(Cells()), 1, Behind(old(Cells())[1], n))
      ensures ReadsAt(Cells(), pageEnd, it, 1)
    {
      ghost var cs := Cells();
      IteratorAt(page, 1);
      allocator.ledger.Here(pageEnd, 0);
      it := page;
      if page.len == n { it := page.next; }
      ghost var c := Behind(cs[1], n);
      assert cs[1].bytes[n..n + (page.len - n)] == cs[1].bytes[n..];
      Narrow(page, n, page.len - n);
      DropFirst(cs, n, c);
      ShrunkFlat(cs, 1, c);
    }

    method SeekStep(page: Page, n: nat) returns (it: Page)
      requires Consistent() && Packed(Cells())
      requires ReadsAt(Cells(), pageEnd, page, 1) && page != pageEnd && 0 < n <= page.len
      modifies this`dataSize, allocator`ledger, page, page.prev, page.next, page.data
      ensures Consistent() && old(allocator.ledger).Sheds(allocator.ledger, pageEnd) && Packed(Cells())
      ensures n <= |old(Flat(Cells()))| && Flat(Cells()) == old(Flat(Cells()))[n..]
      ensures |old(Cells())| > 1 && n <= |old(Cells())[1].bytes| && Cells() == Shrunk(old(Cells()), 1, Behind(old(Cells())[1], n))
      ensures ReadsAt(Cells(), pageEnd, it, 1)
    {
      it := SeekPage(page, n);
      dataSize := dataSize - n;
    }

    // What is left of `all` once `seeked` bytes are gone from its front.
    ghost predicate Seeking(was: Ledger, all: seq<byte>, seeked: nat)
      reads this, allocator
    {
      && was.Sheds(allocator.ledger, pageEnd) && Packed(Cells())
      && seeked <= |all| && Flat(Cells()) == all[seeked..]
      && pageEnd in was.rings && BackOf(was.rings[pageEnd], Cells()) && (seeked == 0 ==> Cells() == was.rings[pageEnd])
    }

    lemma SeekOn(was: Ledger, mid: Ledger, all: seq<byte>, seeked: nat, n: nat)
      requires was.Sheds(mid, pageEnd) && mid.Sheds(allocator.ledger, pageEnd) && Packed(Cells())
      requires seeked + n <= |all| && Flat(mid.rings[pageEnd]) == all[seeked..] && Flat(Cells()) == all[seeked..][n..] && n > 0
      requires pageEnd in was.rings && BackOf(was.rings[pageEnd], mid.rings[pageEnd])
      requires var cs := mid.rings[pageEnd]; |cs| > 1 && n <= |cs[1].bytes| && Cells() == Shrunk(cs, 1, Behind(cs[1], n))
      ensures Seeking(was, all, seeked + n) && |Flat(Cells())| == |Flat(mid.rings[pageEnd])| - n
    {
      was.ShedsOn(mid, allocator.ledger, pageEnd);
      BackOn(was.rings[pageEnd], mid.rings[pageEnd], n);
    }

    // up to `rest` bytes off the first page
    method SeekNext(page: Page, rest: nat, seeked: nat, ghost was: Ledger, ghost all: seq<byte>)
      returns (left: nat, done: nat, it: Page)
      requires Consistent() && Seeking(was, all, seeked) && rest > 0
      requires ReadsAt(Cells(), pageEnd, page, 1) && page != pageEnd
      modifies this`dataSize, allocator`ledger, page, page.prev, page.next, page.data
      ensures Consistent() && Seeking(was, all, done) && ReadsAt(Cells(), pageEnd, it, 1)
      ensures left < rest && left + done == rest + seeked
    {
      IteratorAt(page, 1);
      ghost var mid := allocator.ledger;
      var n := Min(page.len, rest);
      it := SeekStep(page, n);
      left, done := rest - n, seeked + n;
      SeekOn(was, mid, all, seeked, n);
    }

    lemma Reach(page: Page, was: Ledger)
      requires Open() && was.Sheds(allocator.ledger, pageEnd) && ReadsAt(Cells(), pageEnd, page, 1) && page != pageEnd
      ensures page in was.spots && page.prev in was.spots && page.next in was.spots && page.data in was.stored
    {
      IteratorAt(page, 1);
      Neighbours(page);
    }

    lemma SeekDone(it: Page, was: Ledger, all: seq<byte>, seeked: nat)
      requires Open() && Seeking(was, all, seeked) && ReadsAt(Cells(), pageEnd, it, 1)
      ensures it == pageEnd ==> seeked == |all|
    {
      FlatSingle(Cells());
      allocator.ledger.Here(pageEnd, 0);
    }

    method Seek1(len: nat) returns (seeked: nat)
      requires Consistent() && Packed(Cells())
      modifies this`dataSize, allocator`ledger, allocator.ledger.spots.Keys, allocator.ledger.stored.Keys
      ensures Consistent() && Seeking(old(allocator.ledger), old(Flat(Cells())), seeked)
      ensures seeked == Min(len, old(dataSize))
    {
      ghost var was, all := allocator.ledger, Flat(Cells());
      allocator.ledger.Here(pageEnd, 0);
      BackStarts(Cells());
      seeked := 0;
      var rest: nat := len;
      var it: Page := GetIterator();
      while rest > 0 && it != pageEnd
        invariant Consistent() && Seeking(was, all, seeked) && seeked + rest == len && ReadsAt(Cells(), pageEnd, it, 1)
      {
        Reach(it, was);
        rest, seeked, it := SeekNext(it, rest, seeked, was, all);
      }
      SeekDone(it, was, all, seeked);
    }

    ghost predicate Moved(was: Snap, n: nat)
      requires pageEnd in allocator.ledger.rings
      reads this, allocator
    {
      dataRevision == was.revision + (if n > 0 then 1 else 0) && (n == 0 ==> Cells() == was.cells)
    }

    method Revise(n: nat, ghost was: Snap)
      requires Consistent() && dataRevision == was.revision && (n == 0 ==> Cells() == was.cells)
      modifies this`dataRevision
      ensures Consistent() && Moved(was, n) && Evolves(was, Now())
    {
      if n > 0 {
        dataRevision := dataRevision + 1;
      }
    }

    // pb_trivial_buffer_seek
    method Seek(len: nat) returns (seeked: nat)
      requires Valid()
      modifies this, allocator`ledger, allocator.ledger.spots.Keys, allocator.ledger.stored.Keys
      ensures Valid() && old(history) <= history && old(allocator.ledger).Sheds(allocator.ledger, pageEnd) && allocator.Grown()
      ensures seeked == (if strategy.rejectsSeek then 0 else Min(len, old(dataSize)))
      ensures Content() == old(Content())[seeked..]
      ensures dataRevision == old(dataRevision) + if seeked > 0 then 1 else 0
      ensures BackOf(old(Cells()), Cells()) && (strategy.rejectsSeek ==> unchanged(this) && allocator.ledger == old(allocator.ledger))
    {
      allocator.ledger.Here(pageEnd, 0);
      if strategy.rejectsSeek {
        allocator.GrownNot();
        BackStarts(Cells());
        return 0;
      }
      ghost var was := Now();
      seeked := Seek1(len);
      allocator.GrownNot();
      Revise(seeked, was);
      Record();
    }

    // the last page of the ring, or the end if there is none
    ghost predicate Last(it: Page)
      reads this, allocator
    {
      pageEnd in allocator.ledger.rings && |Cells()| > 0 && it == Cells()[|Cells()| - 1].page && (it == pageEnd ==> |Cells()| == 1)
    }

    lemma LastAt(it: Page)
      requires Open() && Last(it)
      ensures it == pageEnd <==> |Cells()| == 1
      ensures it != pageEnd ==> Inside(it) && Slot(it) == |Cells()| - 1 && allocator.ledger.At(it) == Cells()[Slot(it)]
      ensures it != pageEnd ==> it.len == |Cells()[Slot(it)].bytes| && it.prev == Cells()[Slot(it) - 1].page
      ensures it != pageEnd && it.prev == pageEnd ==> |Cells()| == 2
    {
      var n := |Cells()|;
      allocator.ledger.Here(pageEnd, 0);
      allocator.ledger.Here(pageEnd, n - 1);
      assert PageMirrors(allocator.ledger, it);
      if n > 1 { allocator.ledger.Here(pageEnd, n - 2); }
    }

    method GetLastIterator() returns (it: Page)
      requires Open()
      ensures Last(it)
    {
      allocator.ledger.Here(pageEnd, 0);
      assert PageMirrors(allocator.ledger, pageEnd);
      allocator.ledger.Here(pageEnd, |Cells()| - 1);
      it := pageEnd.prev;
    }

    // the pages are those of cs, the last one shorter by n bytes or gone
    ghost predicate Shortened(cs: seq<Cell>, n: nat)
      requires |cs| > 0
      reads this, allocator
    {
      && pageEnd in allocator.ledger.rings && n <= |cs[|cs| - 1].bytes|
      && Cells() == Shrunk(cs, |cs| - 1, Ahead(cs[|cs| - 1], n))
    }

    // n bytes off the last page
    method TrimPage(page: Page, n: nat) returns (it: Page)
      requires Open() && allocator.ledger.held == multiset{} && Packed(Cells())
      requires Last(page) && page != pageEnd && 0 < n <= page.len
      modifies allocator`ledger, page, page.prev, page.next, page.data
      ensures Open() && old(allocator.ledger).Sheds(allocator.ledger, pageEnd) && Packed(Cells())
      ensures n <= |old(Flat(Cells()))| && Flat(Cells()) == old(Flat(Cells()))[..|old(Flat(Cells()))| - n]
      ensures |old(Cells())| > 1 && Shortened(old(Cells()), n)
      ensures Last(it)
    {
      ghost var cs, b := Cells(), Cells()[|Cells()| - 1];
      LastAt(page);
      it := page;
      if page.len == n { it := page.prev; }
      ghost var c := Ahead(b, n);
      assert b.bytes[0..page.len - n] == b.bytes[..page.len - n];
      Narrow(page, 0, page.len - n);
      DropLast(cs, n, c);
      ShrunkFlat(cs, |cs| - 1, c);
    }

    method TrimStep(page: Page, n: nat) returns (it: Page)
      requires Consistent() && Packed(Cells())
      requires Last(page) && page != pageEnd && 0 < n <= page.len
      modifies this`dataSize, allocator`ledger, page, page.prev, page.next, page.data
      ensures Consistent() && old(allocator.ledger).Sheds(allocator.ledger, pageEnd) && Packed(Cells())
      ensures n <= |old(Flat(Cells()))| && Flat(Cells()) == old(Flat(Cells()))[..|old(Flat(Cells()))| - n]
      ensures |old(Cells())| > 1 && Shortened(old(Cells()), n)
      ensures Last(it)
    {
      it := TrimPage(page, n);
      dataSize := dataSize - n;
    }

    // What is left of `all` once `trimmed` bytes are gone from its back.
    ghost predicate Trimming(was: Ledger, all: seq<byte>, trimmed: nat)
      reads this, allocator
    {
      && was.Sheds(allocator.ledger, pageEnd) && Packed(Cells())
      && trimmed <= |all| && Flat(Cells()) == all[..|all| - trimmed]
      && pageEnd in was.rings && FrontOf(was.rings[pageEnd], Cells()) && (trimmed == 0 ==> Cells() == was.rings[pageEnd])
    }

    lemma TrimOn(was: Ledger, mid: Ledger, all: seq<byte>, trimmed: nat, n: nat)
      requires was.Sheds(mid, pageEnd) && mid.Sheds(allocator.ledger, pageEnd) && Packed(Cells())
      requires trimmed + n <= |all| && Flat(mid.rings[pageEnd]) == all[..|all| - trimmed] && n > 0
      requires Flat(Cells()) == all[..|all| - trimmed][..|all| - trimmed - n]
      requires pageEnd in was.rings && FrontOf(was.rings[pageEnd], mid.rings[pageEnd])
      requires |mid.rings[pageEnd]| > 1 && Shortened(mid.rings[pageEnd], n)
      ensures Trimming(was, all, trimmed + n)
    {
      was.ShedsOn(mid, allocator.ledger, pageEnd);
      FrontOn(was.rings[pageEnd], mid.rings[pageEnd], n);
    }

    // up to `rest` bytes off the last page
    method TrimNext(page: Page, rest: nat, trimmed: nat, ghost was: Ledger, ghost all: seq<byte>)
      returns (left: nat, done: nat, it: Page)
      requires Consistent() && Trimming(was, all, trimmed) && rest > 0
      requires Last(page) && page != pageEnd
      modifies this`dataSize, allocator`ledger, page, page.prev, page.next, page.data
      ensures Consistent() && Trimming(was, all, done) && Last(it)
      ensures left < rest && left + done == rest + trimmed
    {
      LastAt(page);
      ghost var mid := allocator.ledger;
      var n := Min(page.len, rest);
      it := TrimStep(page, n);
      left, done := rest - n, trimmed + n;
      TrimOn(was, mid, all, trimmed, n);
    }

    lemma ReachLast(page: Page, was: Ledger)
      requires Open() && was.Sheds(allocator.ledger, pageEnd) && Last(page) && page != pageEnd
      ensures page in was.spots && page.prev in was.spots && page.next in was.spots && page.data in was.stored
    {
      LastAt(page);
      Neighbours(page);
    }

    lemma TrimDone(it: Page, was: Ledger, all: seq<byte>, trimmed: nat)
      requires Open() && Trimming(was, all, trimmed) && Last(it)
      ensures it == pageEnd ==> trimmed == |all|
    {
      FlatSingle(Cells());
      allocator.ledger.Here(pageEnd, 0);
    }

    method Trim1(len: nat) returns (trimmed: nat)
      requires Consistent() && Packed(Cells())
      modifies this`dataSize, allocator`ledger, allocator.ledger.spots.Keys, allocator.ledger.stored.Keys
      ensures Consistent() && Trimming(old(allocator.ledger), old(Flat(Cells())), trimmed)
      ensures trimmed == Min(len, old(dataSize))
    {
      ghost var was, all := allocator.ledger, Flat(Cells());
      allocator.ledger.Here(pageEnd, 0);
      FrontStarts(Cells());
      trimmed := 0;
      var rest: nat := len;
      var it: Page := GetLastIterator();
      while rest > 0 && it != pageEnd
        invariant Consistent() && Trimming(was, all, trimmed) && trimmed + rest == len && Last(it)
      {
        ReachLast(it, was);
        rest, trimmed, it := TrimNext(it, rest, trimmed, was, all);
      }
      TrimDone(it, was, all, trimmed);
    }

    // pb_trivial_buffer_trim
    method Trim(len: nat) returns (trimmed: nat)
      requires Valid()
      modifies this, allocator`ledger, allocator.ledger.spots.Keys, allocator.ledger.stored.Keys
      ensures Valid() && old(history) <= history && old(allocator.ledger).Sheds(allocator.ledger, pageEnd) && allocator.Grown()
      ensures trimmed == (if strategy.rejectsTrim then 0 else Min(len, old(dataSize)))
      ensures Content() == old(Content())[..old(dataSize) - trimmed]
      ensures dataRevision == old(dataRevision) + if trimmed > 0 then 1 else 0
      ensures FrontOf(old(Cells()), Cells()) && (strategy.rejectsTrim ==> unchanged(this) && allocator.ledger == old(allocator.ledger))
    {
      allocator.ledger.Here(pageEnd, 0);
      if strategy.rejectsTrim {
        allocator.GrownNot();
        FrontStarts(Cells());
        return 0;
      }
      ghost var was := Now();
      trimmed := Trim1(len);
      allocator.GrownNot();
      Revise(trimmed, was);
      Record();
    }

    method Clear1()
      requires Consistent()
      modifies this`dataRevision, this`dataSize, allocator`ledger, allocator.ledger.spots.Keys, allocator.ledger.stored.Keys
      ensures Consistent() && dataSize == 0 && |Cells()| == 1 && dataRevision == old(dataRevision) + 1
      ensures old(allocator.ledger).Sheds(allocator.ledger, pageEnd)
    {
      ghost var was := allocator.ledger;
      dataRevision := dataRevision + 1;
      dataSize := 0;
      var it: Page := GetIterator();
      while it != pageEnd
        invariant Open() && was.Sheds(allocator.ledger, pageEnd) && ReadsAt(Cells(), pageEnd, it, 1)
        invariant dataSize == 0 && dataRevision == old(dataRevision) + 1
        decreases |Cells()|
      {
        Reach(it, was);
        ghost var mid := allocator.ledger;
        it := ClearPage(it);
        was.ShedsOn(mid, allocator.ledger, pageEnd);
      }
      FlatSingle(Cells());
      allocator.ledger.Here(pageEnd, 0);
    }

    method ClearPage(page: Page) returns (it: Page)
      requires Open() && allocator.ledger.held == multiset{} && ReadsAt(Cells(), pageEnd, page, 1) && page != pageEnd
      modifies allocator`ledger, page, page.prev, page.next, page.data
      ensures Open() && old(allocator.ledger).Sheds(allocator.ledger, pageEnd)
      ensures ReadsAt(Cells(), pageEnd, it, 1) && |Cells()| == |old(Cells())| - 1
    {
      IteratorAt(page, 1);
      it := page.next;
      Remove(page);
    }

    // pb_trivial_buffer_clear
    method Clear()
      requires Sound()
      modifies this, allocator`ledger, allocator.ledger.spots.Keys, allocator.ledger.stored.Keys
      ensures Valid() && old(history) <= history && old(allocator.ledger).Sheds(allocator.ledger, pageEnd) && allocator.Grown()
      ensures Content() == [] && |Cells()| == 1 && dataRevision == old(dataRevision) + 1
    {
      Clear1();
      allocator.GrownNot();
      Record();
    }

    // ---- overwriting

    // The page is alone on a region that the library owns, and is to be written there.
    ghost predicate Sole(page: Page)
      reads this, allocator, page
    {
      strategy.cloneOnWrite && page.data != null && page.data.owned && allocator.ledger.Users(page.data) == {page}
    }

    // The page alone on a region that may be written: its own as it is, or a copy.
    method OwnPage(page: Page) returns (ok: bool)
      requires Open() && allocator.ledger.held == multiset{} && Inside(page) && Slot(page) > 0
      modifies allocator, page, page.data
      ensures Open() && allocator.ledger.held == multiset{} && allocator.ledger.spots == old(allocator.ledger.spots) && Inside(page)
      ensures !ok ==> allocator.ledger == old(allocator.ledger) && allocator.refusals > old(allocator.refusals)
      ensures ok ==> allocator.refusals == old(allocator.refusals)
      ensures ok ==> page.data != null && page.data.owned && allocator.ledger.Users(page.data) == {page}
      ensures ok ==> page.data == allocator.ledger.At(page).data
      ensures ok ==> (page.data == old(page.data) && page.data.mem in old(allocator.ledger.blocks)) || fresh(page.data.mem)
      ensures ok ==> allocator.ledger.rings == old(allocator.ledger.rings)[pageEnd := Cells()]
      ensures allocator.Grown()
      ensures ok ==> var c := old(allocator.ledger.At(page));
        Cells() == old(Cells())[Slot(page) := Cell(page, page.data, if page.data == c.data then c.off else 0, c.bytes)]
      ensures old(Sole(page)) ==> ok && allocator.ledger == old(allocator.ledger) && page.data == old(page.data)
      ensures ok && !old(Sole(page)) ==> fresh(page.data)
    {
      ghost var was := allocator.ledger;
      was.AtOK(page);
      assert PageMirrors(was, page);
      assert DataMirrors(was, page.data);
      assert was.RegionOK(page.data);
      if !strategy.cloneOnWrite || page.data.useCount > 1 || !page.data.owned {
        ok := allocator.DupPageData(page);
        if ok {
          was.DupFacts(page, page.data);
          assert PageMirrors(allocator.ledger, page);
        }
      } else {
        was.SoleUser(page);
        ok := true;
      }
    }

    // the block that may be written when the page is overwritten in place: never one lent by a caller
    ghost function Block(page: Page): set<array<byte>>
      reads page
    {
      if page.data != null && page.data.owned then {page.data.mem} else {}
    }

    // memcpy over the front of a page that is alone on its region
    method PokeFront(page: Page, ghost i: nat, buf: array<byte>, from: nat, n: nat)
      requires Open() && allocator.ledger.held == multiset{} && Inside(page) && Slot(page) == i > 0
      requires n <= |Cells()[i].bytes| && from + n <= buf.Length
      requires page.data != null && page.data.owned && page.data == Cells()[i].data && buf != page.data.mem
      requires allocator.ledger.Users(page.data) == {page}
      modifies allocator`ledger, page.data.mem
      ensures Open() && allocator.ledger.held == multiset{}
      ensures allocator.ledger.spots == old(allocator.ledger.spots) && allocator.ledger.blocks == old(allocator.ledger.blocks)
      ensures allocator.ledger.stored.Keys == old(allocator.ledger.stored.Keys)
      ensures allocator.ledger.rings == old(allocator.ledger.rings)[pageEnd := Cells()]
      ensures var c := old(Cells())[i];
        Cells() == old(Cells())[i := c.(bytes := old(buf[from..from + n]) + c.bytes[n..])]
    {
      allocator.ledger.AtOK(page);
      allocator.PokePage(page, buf, from, n);
    }

    // a cell before and after it is written over: its window stays if it is written in place
    predicate Window(inPlace: bool, c0: Cell, c: Cell) {
      c.page == c0.page && if inPlace then c.data == c0.data && c.off == c0.off else c.data != null && c.data.owned && c.off == 0
    }

    method OverwritePage(page: Page, ghost i: nat, buf: array<byte>, from: nat, n: nat) returns (ok: bool)
      requires Open() && allocator.ledger.held == multiset{} && Inside(page) && Slot(page) == i > 0
      requires n <= |Cells()[i].bytes| && from + n <= buf.Length && buf !in allocator.ledger.blocks
      modifies allocator, page, page.data, Block(page)
      ensures Open() && allocator.ledger.held == multiset{}
      ensures !ok ==> allocator.ledger == old(allocator.ledger) && allocator.refusals > old(allocator.refusals)
      ensures ok ==> allocator.refusals == old(allocator.refusals)
      ensures ok ==> allocator.ledger.rings == old(allocator.ledger.rings)[pageEnd := Cells()]
      ensures allocator.Grown()
      ensures ok ==> |Cells()| == |old(Cells())|
      ensures ok ==> var c := old(Cells())[i];
        Cells() == old(Cells())[i := Cell(page, Cells()[i].data, Cells()[i].off, old(buf[from..from + n]) + c.bytes[n..])]
      ensures allocator.ledger.spots == old(allocator.ledger.spots) && (old(Sole(page)) ==> ok)
      ensures ok ==> Window(old(Sole(page)), old(Cells())[i], Cells()[i]) && (old(Sole(page)) || fresh(Cells()[i].data))
    {
      ok := OwnPage(page);
      if ok {
        PokeFront(page, i, buf, from, n);
      }
    }

    // An overwriting under way: the pages not yet reached are as they were.
    ghost predicate Overwrites(was: Ledger, src: seq<byte>, it: Page, i: nat, w: nat, rest: nat)
      reads this, allocator
    {
      forall u {:trigger Shown(u)} :: Shown(u) ==>
      && was.Valid() && pageEnd in was.rings && pageEnd in allocator.ledger.rings
      && allocator.ledger.rings == was.rings[pageEnd := Cells()]
      && ReadsAt(Cells(), pageEnd, it, i) && Overwriting(was.rings[pageEnd], Cells(), src, i, w)
      && (rest > 0 ==> Position(Cells(), i, 0) == w) && (w == 0 ==> Cells() == was.rings[pageEnd])
    }

    // the first w bytes overwritten, and nothing else
    ghost predicate Overwrote(was: Ledger, src: seq<byte>, w: nat)
      reads this, allocator
    {
      && pageEnd in was.rings && pageEnd in allocator.ledger.rings && w <= |src| && w <= |Flat(was.rings[pageEnd])|
      && forall u {:trigger Shown(u)} :: Shown(u) ==>
        && allocator.ledger.rings == was.rings[pageEnd := Cells()] && Packed(Cells())
        && Flat(Cells()) == src[..w] + Flat(was.rings[pageEnd])[w..]
        && (w == 0 ==> Cells() == was.rings[pageEnd])
    }

    lemma OverwritesStarts(src: seq<byte>)
      requires Open()
      ensures forall it | ReadsAt(Cells(), pageEnd, it, 1) :: Overwrites(allocator.ledger, src, it, 1, 0, |src|)
    {
      allocator.ledger.Here(pageEnd, 0);
      OverwritingStarts(Cells(), src);
    }

    lemma OverwriteReach(was: Ledger, src: seq<byte>, it: Page, i: nat, w: nat, rest: nat)
      requires Open() && Overwrites(was, src, it, i, w, rest) && it != pageEnd
      ensures Inside(it) && Slot(it) == i && i < |Cells()| && it.len == |Cells()[i].bytes|
      ensures it in was.spots && it.data in was.stored && Block(it) <= was.blocks.Keys
    {
      assert Shown(0);
      IteratorAt(it, i);
      OverwritingNext(was.rings[pageEnd], Cells(), src, i, w);
      was.Here(pageEnd, i);
      was.AllLive();
    }

    lemma OverwritesGo(was: Ledger, src: seq<byte>, it: Page, i: nat, w: nat, rest: nat)
      requires Overwrites(was, src, it, i, w, rest)
      ensures was.Valid() && pageEnd in was.rings && pageEnd in allocator.ledger.rings
      ensures allocator.ledger.rings == was.rings[pageEnd := Cells()]
      ensures ReadsAt(Cells(), pageEnd, it, i) && Overwriting(was.rings[pageEnd], Cells(), src, i, w)
      ensures rest > 0 ==> Position(Cells(), i, 0) == w
    {
      assert Shown(0);
    }

    // One page more: its cell was that of `cs`, and is now `c`.
    lemma OverwritesOn(was: Ledger, mid: map<Page, seq<Cell>>, cs: seq<Cell>, c: Cell, src: seq<byte>, it: Page, i: nat,
                       w: nat, n: nat, done: nat, left: nat)
      requires was.Valid() && pageEnd in was.rings && pageEnd in allocator.ledger.rings
      requires mid == was.rings[pageEnd := cs] && allocator.ledger.rings == mid[pageEnd := Cells()]
      requires Overwriting(was.rings[pageEnd], cs, src, i, w) && i < |cs| && Position(cs, i, 0) == w
      requires 0 < n <= |cs[i].bytes| && w + n == done <= |src| && (left > 0 ==> n == |cs[i].bytes|)
      requires c.page == cs[i].page && c.bytes == src[w..w + n] + cs[i].bytes[n..]
      requires Cells() == cs[i := c] && ReadsAt(Cells(), pageEnd, it, i + 1)
      ensures Overwrites(was, src, it, i + 1, done, left)
    {
      OverwritingOn(was.rings[pageEnd], cs, src, i, w, c, n);
    }

    // up to `rest` bytes over the page `it`
    method OverwriteNext(page: Page, buf: array<byte>, w: nat, rest: nat, ghost was: Ledger, ghost src: seq<byte>,
                         ghost i: nat)
      returns (ok: bool, done: nat, left: nat, it: Page, ghost j: nat)
      requires Open() && allocator.ledger.held == multiset{} && Overwrites(was, src, page, i, w, rest) && pageEnd in was.rings
      requires w + rest == |src| <= buf.Length && buf[..|src|] == src && buf !in allocator.ledger.blocks && rest > 0 && page != pageEnd
      requires Packed(was.rings[pageEnd]) && i < |Cells()|
      modifies allocator, page, page.data, Block(page)
      ensures Open() && allocator.ledger.held == multiset{} && allocator.Grown()
      ensures Overwrites(was, src, it, j, done, left) && done + left == |src|
      ensures if ok then left < rest && allocator.refusals == old(allocator.refusals)
        else it == page && left == rest && allocator.refusals > old(allocator.refusals)
      ensures allocator.ledger.spots == old(allocator.ledger.spots) && (old(Sole(page)) ==> ok)
      ensures if ok then
        && w < done == w + Min(|old(Cells())[i].bytes|, rest) && j == i + 1 && i < |Cells()| && Cells() == old(Cells())[i := Cells()[i]]
        && Window(old(Sole(page)), old(Cells())[i], Cells()[i]) && (old(Sole(page)) || fresh(Cells()[i].data))
      else done == w && j == i && allocator.ledger == old(allocator.ledger)
    {
      OverwritesGo(was, src, page, i, w, rest);
      IteratorAt(page, i);
      allocator.ledger.Here(pageEnd, 0);
      it, j, done, left := page, i, w, rest;
      ghost var mid, cs := allocator.ledger.rings, Cells();
      OverwritingPacked(was.rings[pageEnd], cs, src, i, w);
      var n := Min(page.len, rest);
      PieceOf(buf[..], src, w, n);
      ok := OverwritePage(page, i, buf, w, n);
      if ok {
        IteratorAt(page, i);
        it, j, done, left := page.next, i + 1, w + n, rest - n;
        OverwritesOn(was, mid, cs, Cells()[i], src, it, i, w, n, done, left);
      }
    }

    // the page at hand is written in place exactly if it was to be from the beginning
    lemma SoleIff(was: Ledger, src: seq<byte>, page: Page, i: nat, w: nat, rest: nat)
      requires Open() && Overwrites(was, src, page, i, w, rest) && pageEnd in was.rings && page != pageEnd && rest > 0
      requires Packed(was.rings[pageEnd]) && Rehousing(was, allocator.ledger, pageEnd, i, w, strategy.cloneOnWrite)
      ensures 0 < i < |Cells()| == |was.rings[pageEnd]| && Cells()[i] == was.rings[pageEnd][i]
      ensures Position(was.rings[pageEnd], i, 0) == w && Cells()[i].data in was.stored && 0 < |Cells()[i].bytes|
      ensures Sole(page) <==> Stays(was, pageEnd, i, strategy.cloneOnWrite)
    {
      OverwritesGo(was, src, page, i, w, rest);
      OverwritingPacked(was.rings[pageEnd], Cells(), src, i, w);
      IteratorAt(page, i);
      HousingAt(was, allocator.ledger, pageEnd, i, w, strategy.cloneOnWrite);
      HousingStands(was, allocator.ledger, pageEnd, i, w, strategy.cloneOnWrite);
      allocator.ledger.Here(pageEnd, i);
      assert PageMirrors(allocator.ledger, page);
    }

    // pages written and housed so far
    ghost predicate Underway(was: Ledger, src: seq<byte>, it: Page, i: nat, w: nat, rest: nat)
      reads this, allocator
    {
      forall u {:trigger Shown(u)} :: Shown(u) ==>
        && pageEnd in was.rings && pageEnd in allocator.ledger.rings && Packed(was.rings[pageEnd])
        && Overwrites(was, src, it, i, w, rest) && Rehousing(was, allocator.ledger, pageEnd, i, w, strategy.cloneOnWrite)
    }

    lemma UnderwayStarts(src: seq<byte>)
      requires Open() && Packed(Cells())
      ensures forall it | ReadsAt(Cells(), pageEnd, it, 1) :: Underway(allocator.ledger, src, it, 1, 0, |src|)
    {
      OverwritesStarts(src);
      HousingStarts(allocator.ledger, pageEnd, strategy.cloneOnWrite);
    }

    lemma UnderwayShows(was: Ledger, src: seq<byte>, it: Page, i: nat, w: nat, rest: nat)
      requires Underway(was, src, it, i, w, rest)
      ensures pageEnd in was.rings && pageEnd in allocator.ledger.rings && Packed(was.rings[pageEnd])
      ensures Overwrites(was, src, it, i, w, rest) && Rehousing(was, allocator.ledger, pageEnd, i, w, strategy.cloneOnWrite)
    {
      assert Shown(0);
    }

    lemma UnderwayReach(was: Ledger, src: seq<byte>, it: Page, i: nat, w: nat, rest: nat)
      requires Open() && Underway(was, src, it, i, w, rest) && it != pageEnd
      ensures it in was.spots && it.data in was.stored && Block(it) <= was.blocks.Keys
    {
      UnderwayShows(was, src, it, i, w, rest);
      OverwriteReach(was, src, it, i, w, rest);
    }

    lemma UnderwayEnds(was: Ledger, src: seq<byte>, it: Page, i: nat, w: nat, rest: nat)
      requires Underway(was, src, it, i, w, rest)
      ensures Overwrote(was, src, w) && |Flat(Cells())| == |Flat(was.rings[pageEnd])|
      ensures rest > 0 && it == pageEnd ==> w == |Flat(Cells())|
      ensures Rehoused(was, pageEnd, Cells(), w, strategy.cloneOnWrite)
    {
      UnderwayShows(was, src, it, i, w, rest);
      OverwriteDone(was, src, it, i, w, rest);
      HousingEnds(was, allocator.ledger, pageEnd, i, w, strategy.cloneOnWrite);
    }

    // the same, and what becomes of the page's region
    method OverwriteStep(page: Page, buf: array<byte>, w: nat, rest: nat, ghost was: Ledger, ghost src: seq<byte>,
                         ghost i: nat)
      returns (ok: bool, done: nat, left: nat, it: Page, ghost j: nat)
      requires Open() && allocator.ledger.held == multiset{} && Underway(was, src, page, i, w, rest)
      requires w + rest == |src| <= buf.Length && buf[..|src|] == src && buf !in allocator.ledger.blocks && rest > 0 && page != pageEnd
      modifies allocator, page, page.data, Block(page)
      ensures Open() && allocator.ledger.held == multiset{} && allocator.Grown()
      ensures Underway(was, src, it, j, done, left) && done + left == |src|
      ensures if ok then left < rest && allocator.refusals == old(allocator.refusals)
        else left == rest && allocator.refusals > old(allocator.refusals) && Refused(was, j, done)
    {
      UnderwayShows(was, src, page, i, w, rest);
      SoleIff(was, src, page, i, w, rest);
      ghost var mid := allocator.ledger;
      ok, done, left, it, j := OverwriteNext(page, buf, w, rest, was, src, i);
      if ok {
        HousingOn(was, mid, allocator.ledger, pageEnd, i, w, strategy.cloneOnWrite, done, Cells()[i]);
      }
    }

    // the k-th page was to be written over from byte w on, and needed a copy
    ghost predicate Refused(was: Ledger, k: nat, w: nat) {
      && pageEnd in was.rings && 0 < k < |was.rings[pageEnd]| && Position(was.rings[pageEnd], k, 0) == w
      && !Stays(was, pageEnd, k, strategy.cloneOnWrite)
    }

    lemma OverwriteDone(was: Ledger, src: seq<byte>, it: Page, i: nat, w: nat, rest: nat)
      requires Overwrites(was, src, it, i, w, rest) && pageEnd in was.rings && Packed(was.rings[pageEnd])
      ensures Overwrote(was, src, w) && |Flat(Cells())| == |Flat(was.rings[pageEnd])|
      ensures rest > 0 && it == pageEnd ==> w == |Flat(Cells())|
    {
      assert Shown(0);
      OverwritingPacked(was.rings[pageEnd], Cells(), src, i, w);
      ReadAll(Cells());
    }

    method Overwrite1(buf: array<byte>, len: nat) returns (written: nat)
      requires Consistent() && Packed(Cells()) && len <= buf.Length && buf !in allocator.ledger.blocks
      modifies allocator, allocator.ledger.spots.Keys, allocator.ledger.stored.Keys, allocator.ledger.blocks.Keys
      ensures Consistent() && Overwrote(old(allocator.ledger), old(buf[..len]), written) && allocator.Grown()
      ensures Rehoused(old(allocator.ledger), pageEnd, Cells(), written, strategy.cloneOnWrite)
      ensures if allocator.refusals == old(allocator.refusals) then written == Min(len, dataSize)
        else written < len && exists k :: Refused(old(allocator.ledger), k, written)
    {
      ghost var was, src, i := allocator.ledger, buf[..len], 1;
      allocator.GrownNot();
      UnderwayStarts(src);
      written := 0;
      var rest: nat := len;
      var it: Page := GetIterator();
      var ok := true;
      while ok && rest > 0 && it != pageEnd
        invariant Open() && allocator.ledger.held == multiset{} && Underway(was, src, it, i, written, rest)
        invariant written + rest == len && buf[..len] == src && allocator.Grown()
        invariant if ok then allocator.refusals == old(allocator.refusals)
          else allocator.refusals > old(allocator.refusals) && rest > 0 && Refused(was, i, written)
        decreases rest, ok
      {
        UnderwayReach(was, src, it, i, written, rest);
        assert buf !in allocator.ledger.blocks by { assert Aged(0); }
        ok, written, rest, it, i := OverwriteStep(it, buf, written, rest, was, src, i);
        assert allocator.Grown() by { assert Aged(0); }
      }
      UnderwayEnds(was, src, it, i, written, rest);
    }

    method OverwriteIf(buf: array<byte>, len: nat, rejected: bool) returns (written: nat)
      requires Consistent() && Packed(Cells()) && len <= buf.Length && buf !in allocator.ledger.blocks
      modifies allocator, allocator.ledger.spots.Keys, allocator.ledger.stored.Keys, allocator.ledger.blocks.Keys
      ensures Consistent() && Overwrote(old(allocator.ledger), old(buf[..len]), written) && allocator.Grown()
      ensures Rehoused(old(allocator.ledger), pageEnd, Cells(), written, strategy.cloneOnWrite)
      ensures if rejected then written == 0 && allocator.refusals == old(allocator.refusals)
        else if allocator.refusals == old(allocator.refusals) then written == Min(len, dataSize)
        else written < len && exists k :: Refused(old(allocator.ledger), k, written)
    {
      if rejected {
        allocator.GrownNot();
        HousingStarts(allocator.ledger, pageEnd, strategy.cloneOnWrite);
        HousingEnds(allocator.ledger, allocator.ledger, pageEnd, 1, 0, strategy.cloneOnWrite);
        written := 0;
      } else {
        written := Overwrite1(buf, len);
      }
    }

    // What becomes of the pages' regions: nothing if every page written over has its own, or is the last to use
    // it; without copies on writing every page written over is moved to a new one.
    lemma OverwriteHouses(was: Ledger, len: nat, written: nat, refused: bool)
      requires Open() && was.Valid() && Rehoused(was, pageEnd, Cells(), written, strategy.cloneOnWrite) && written <= len
      requires refused ==> written < len && exists k :: Refused(was, k, written)
      ensures AllStay(was, pageEnd, len, strategy.cloneOnWrite) ==> !refused && SameWindows(was.rings[pageEnd], Cells())
      ensures !strategy.cloneOnWrite ==> AllMoved(was, pageEnd, Cells(), written)
    {
      was.Here(pageEnd, 0);
      allocator.ledger.Here(pageEnd, 0);
      RehousedMeans(was, pageEnd, Cells(), written, strategy.cloneOnWrite);
      if AllStay(was, pageEnd, len, strategy.cloneOnWrite) {
        forall k | 0 < k < |Cells()| && Position(was.rings[pageEnd], k, 0) < written
          ensures Stays(was, pageEnd, k, strategy.cloneOnWrite) {}
        forall k: nat | written < len ensures !Refused(was, k, written) {}
      }
    }

    // pb_trivial_buffer_overwrite_data: pages that are shared, or lent by a caller, get a copy of their own first.
    // Where all pages written over are to be written in place no memory is asked for, and no page moves.
    method OverwriteData(buf: array<byte>, len: nat) returns (written: nat)
      requires Valid() && len <= buf.Length && buf !in allocator.ledger.blocks
      modifies this, allocator, allocator.ledger.spots.Keys, allocator.ledger.stored.Keys, allocator.ledger.blocks.Keys
      ensures Valid() && old(history) <= history && allocator.Grown()
      ensures allocator.ledger.rings == old(allocator.ledger.rings)[pageEnd := Cells()]
      ensures strategy.rejectsOverwrite ==> written == 0
      ensures !strategy.rejectsOverwrite && allocator.refusals == old(allocator.refusals) ==> written == Min(len, dataSize)
      ensures written <= len && written <= |old(Content())| && Content() == buf[..written] + old(Content())[written..]
      ensures dataRevision == old(dataRevision) + if written > 0 then 1 else 0
      ensures Rehoused(old(allocator.ledger), pageEnd, Cells(), written, strategy.cloneOnWrite)
      ensures allocator.refusals != old(allocator.refusals) ==> written < len && exists k :: Refused(old(allocator.ledger), k, written)
      ensures AllStay(old(allocator.ledger), pageEnd, len, strategy.cloneOnWrite) ==>
        allocator.refusals == old(allocator.refusals) && SameWindows(old(Cells()), Cells())
      ensures !strategy.cloneOnWrite ==> AllMoved(old(allocator.ledger), pageEnd, Cells(), written)
    {
      ghost var was, start := Now(), allocator.ledger;
      written := OverwriteIf(buf, len, strategy.rejectsOverwrite);
      OverwroteShows(start, old(buf[..len]), written);
      assert buf[..len][..written] == buf[..written];
      Revise(written, was);
      OverwriteHouses(start, len, written, allocator.refusals != old(allocator.refusals));
      Record();
    }

    lemma OverwroteShows(was: Ledger, src: seq<byte>, w: nat)
      requires Overwrote(was, src, w)
      ensures allocator.ledger.rings == was.rings[pageEnd := Cells()] && Packed(Cells())
      ensures Flat(Cells()) == src[..w] + Flat(was.rings[pageEnd])[w..] && (w == 0 ==> Cells() == was.rings[pageEnd])
    {
      assert Shown(0);
    }

    // ---- reading

    // memory that no region of any buffer lies in
    ghost predicate Foreign(buf: array<byte>)
      reads allocator
    {
      forall d | d in allocator.ledger.stored :: d.mem != buf
    }

    method CopyOut(page: Page, ghost i: nat, from: nat, n: nat, buf: array<byte>, at: nat)
      requires Open() && Foreign(buf) && ReadsAt(Cells(), pageEnd, page, i) && page != pageEnd
      requires from + n <= page.len && at + n <= buf.Length
      modifies buf
      ensures Open() && i < |Cells()| && from + n <= |Cells()[i].bytes|
      ensures buf[..] == old(buf[..at]) + Cells()[i].bytes[from..from + n] + old(buf[at + n..])
    {
      IteratorAt(page, i);
      SourceBytes(page, from, Cells()[i].bytes[from..from + n]);
      CopyBytes(buf, at, page.data.mem, page.data.base + page.off + from, n);
    }

    // up to `rest` bytes from the i-th page
    method ReadNext(page: Page, ghost i: nat, buf: array<byte>, n: nat, rest: nat, ghost was: seq<byte>,
                    ghost done: seq<byte>)
      returns (m: nat, ghost done': seq<byte>)
      requires Open() && Packed(Cells()) && Foreign(buf) && ReadsAt(Cells(), pageEnd, page, i) && page != pageEnd
      requires n + rest <= buf.Length && rest > 0 && |done| == n
      requires Reading(Cells(), i, 0, done, n + rest) && Filled(buf[..], was, done)
      modifies buf
      ensures Open() && 0 < m <= rest && |done'| == n + m
      ensures Reading(Cells(), i + 1, 0, done', n + rest) && Filled(buf[..], was, done')
      ensures page.next != null && ReadsAt(Cells(), pageEnd, page.next, i + 1)
    {
      IteratorAt(page, i);
      m := Min(page.len, rest);
      ReadingOn(Cells(), i, 0, done, n + rest, m);
      ghost var now, piece := buf[..], Cells()[i].bytes[0..m];
      done' := done + piece;
      CopyOut(page, i, 0, m, buf, n);
      FilledOn(now, buf[..], was, done, piece);
    }

    // pb_trivial_buffer_read_data
    method ReadData(buf: array<byte>, len: nat) returns (n: nat)
      requires Valid() && Foreign(buf) && len <= buf.Length
      modifies buf
      ensures Valid() && n == Min(len, dataSize)
      ensures buf[..] == Content()[..n] + old(buf[n..])
    {
      ghost var i, done: seq<byte>, was := 1, [], buf[..];
      n := 0;
      var rest: nat := len;
      var it: Page := GetIterator();
      ReadingStarts(Cells(), len);
      FilledStarts(was);
      while rest > 0 && it != pageEnd
        invariant Open() && ReadsAt(Cells(), pageEnd, it, i) && Reading(Cells(), i, 0, done, len)
        invariant n + rest == len && |done| == n && Filled(buf[..], was, done)
      {
        var m;
        m, done := ReadNext(it, i, buf, n, rest, was, done);
        rest, n := rest - m, n + m;
        it := it.next;
        i := i + 1;
      }
      ReadingShows(Cells(), i, 0, done, len);
      FilledShows(buf[..], was, done);
    }

    // the size, and the audit of it: the lengths of the pages summed up
    method GetDataSize() returns (size: nat, audited: bool)
      requires Consistent()
      ensures audited && size == |Content()|
    {
      ghost var cs, i := Cells(), 1;
      var audit := 0;
      var it: Page := GetIterator();
      ReadFirst(cs);
      while it != pageEnd
        invariant ReadsAt(cs, pageEnd, it, i) && audit == Position(cs, i, 0)
        decreases |cs| - i
      {
        IteratorAt(it, i);
        FlatAt(cs, i);
        audit := audit + it.len;
        it := it.next;
        i := i + 1;
      }
      ReadAll(cs);
      size, audited := dataSize, audit == dataSize;
    }

    // ---- the end of a buffer

    // pb_trivial_buffer_destroy: the pages go first, then the ring itself
    method Destroy()
      requires Sound()
      modifies this, allocator`ledger, allocator.ledger.spots.Keys, allocator.ledger.stored.Keys
      ensures allocator.Valid() && allocator.ledger.rings == old(allocator.ledger.rings) - {pageEnd}
      ensures allocator.ledger.held == multiset{} && allocator.Grown()
    {
      Clear();
      allocator.GrownShows();
      allocator.CloseRing(pageEnd);
      assert allocator.Grown() by { assert Aged(0); }
    }

    // Overwriting changes no other buffer, and no memory that a caller has only lent.
    method OverwriteBeside(other: Buffer, lent: array<byte>, buf: array<byte>, len: nat) returns (written: nat)
      requires Valid() && other.Valid() && other.allocator == allocator && other != this && other.pageEnd != pageEnd
      requires len <= buf.Length && buf !in allocator.ledger.blocks && lent !in allocator.ledger.blocks
      modifies this, allocator, allocator.ledger.spots.Keys, allocator.ledger.stored.Keys, allocator.ledger.blocks.Keys
      ensures Valid() && other.Valid() && other.Content() == old(other.Content()) && lent[..] == old(lent[..])
      ensures written <= len && written <= |old(Content())| && Content() == old(buf[..written]) + old(Content())[written..]
    {
      written := OverwriteData(buf, len);
      Untouched(other);
    }

    // ---- operations that undo one another

    method ExtendAndTrim(len: nat) returns (extended: nat, trimmed: nat)
      requires Valid() && !strategy.rejectsTrim
      modifies this, allocator, pageEnd, pageEnd.prev, allocator.ledger.spots.Keys, allocator.ledger.stored.Keys
      ensures Valid() && trimmed == extended && Content() == old(Content())
    {
      extended := Extend(len);
      allocator.GrownShows();
      trimmed := Trim(extended);
    }

    method RewindAndSeek(len: nat) returns (rewound: nat, seeked: nat)
      requires Valid() && !strategy.rejectsSeek
      modifies this, allocator, pageEnd, pageEnd.next, if pageEnd.next == null then {} else {pageEnd.next.data}
      modifies allocator.ledger.spots.Keys, allocator.ledger.stored.Keys
      ensures Valid() && seeked == rewound && Content() == old(Content())
    {
      rewound := Rewind(len);
      allocator.GrownShows();
      seeked := Seek(rewound);
    }
  }

  // a buffer around a new end page
  method FormBuffer(allocator: Allocator, strategy: Strategy) returns (buffer: Buffer)
    requires allocator.Valid() && allocator.ledger.held == multiset{}
    modifies allocator`ledger
    ensures allocator.Valid() && allocator.ledger.held == multiset{} && allocator.Grown()
    ensures fresh(buffer) && buffer.allocator == allocator && buffer.strategy == strategy && fresh(buffer.pageEnd)
    ensures buffer.Valid() && buffer.Content() == [] && buffer.dataRevision == 0
    ensures allocator.ledger.rings == old(allocator.ledger.rings)[buffer.pageEnd := buffer.Cells()]
  {
    var end := allocator.OpenRing();
    buffer := new Buffer(allocator, strategy, end);
    RunStarts(buffer.Now());
    FlatSingle(buffer.Cells());
  }

  // pb_trivial_buffer_create_with_strategy_with_alloc
  method CreateBuffer(allocator: Allocator, strategy: Strategy) returns (buffer: Buffer?)
    requires allocator.Valid() && allocator.ledger.held == multiset{}
    modifies allocator
    ensures allocator.Valid() && allocator.ledger.held == multiset{} && allocator.Grown()
    ensures buffer == null ==> allocator.ledger == old(allocator.ledger) && allocator.refusals > old(allocator.refusals)
    ensures buffer != null ==> fresh(buffer) && buffer.allocator == allocator && buffer.strategy == strategy && allocator.refusals == old(allocator.refusals)
    ensures buffer != null ==> buffer.Valid() && buffer.Content() == [] && buffer.dataRevision == 0
    ensures buffer != null ==> fresh(buffer.pageEnd)
    ensures buffer != null ==> allocator.ledger.rings == old(allocator.ledger.rings)[buffer.pageEnd := buffer.Cells()]
  {
    buffer := null;
    var ok := allocator.Grant();
    if ok { ok := allocator.Grant(); }
    if ok {
      buffer := FormBuffer(allocator, strategy);
    } else {
      allocator.GrownNot();
    }
  }
}
