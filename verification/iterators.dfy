// The byte iterator: a cursor on the pages of a buffer, one byte at a time.
module ByteIterators {
  import opened Memory
  import opened Sequences
  import opened Ledgers
  import opened Allocation
  import opened Fragments
  import opened Positions
  import opened TrivialBuffer

  // A page, an offset in it, and a pointer to the byte there; at the end
  // the pointer goes to a static null character, which is `mem == null` here.
  class ByteIterator {
    var page: Page
    var pageOffset: nat
    var mem: array?<byte>
    var index: nat

    ghost predicate Points(cs: seq<Cell>, end: Page, p: Place)
      reads this
    {
      && On(cs, p) && pageOffset == p.offset && ReadsAt(cs, end, page, p.cell)
      && (if p.cell < |cs| then Aims(cs[p.cell]) else mem == null)
    }

    ghost predicate Aims(c: Cell)
      reads this
    {
      page == c.page && c.data != null && mem == c.data.mem && index == c.data.base + c.off + pageOffset
    }

    constructor (b: Buffer)
      requires b.Valid()
      ensures Points(b.Cells(), b.pageEnd, Positions.Begin())
    {
      page, pageOffset, mem, index := b.pageEnd, 0, null, 0;
      new;
      GetBegin(b);
    }

    lemma Rings(b: Buffer)
      requires b.Valid()
      ensures Ring(b.Cells())
    {
      b.allocator.ledger.Here(b.pageEnd, 0);
    }

    // the pointer set to the byte at the page offset
    method Point(b: Buffer, ghost p: Place)
      requires b.Valid() && On(b.Cells(), p) && ReadsAt(b.Cells(), b.pageEnd, page, p.cell) && pageOffset == p.offset && page != b.pageEnd
      modifies this`mem, this`index
      ensures b.Valid() && Points(b.Cells(), b.pageEnd, p)
    {
      b.IteratorAt(page, p.cell);
      assert PageMirrors(b.allocator.ledger, page);
      mem, index := page.data.mem, page.data.base + page.off + pageOffset;
    }

    // the iterator put on an offset of a page, or on the end
    method Set(b: Buffer, at: Page, offset: nat, ghost p: Place)
      requires b.Valid() && On(b.Cells(), p) && ReadsAt(b.Cells(), b.pageEnd, at, p.cell) && offset == p.offset
      requires at == b.pageEnd <==> p.cell == |b.Cells()|
      modifies this
      ensures b.Valid() && Points(b.Cells(), b.pageEnd, p)
    {
      page, pageOffset := at, offset;
      if page == b.pageEnd {
        mem := null;
      } else {
        Point(b, p);
      }
    }

    method GetBegin(b: Buffer)
      requires b.Valid()
      modifies this
      ensures b.Valid() && Points(b.Cells(), b.pageEnd, Positions.Begin())
    {
      var first := b.GetIterator();
      if first != b.pageEnd { b.IteratorAt(first, 1); }
      Set(b, first, 0, Positions.Begin());
    }

    method GetEnd(b: Buffer)
      requires b.Valid()
      modifies this
      ensures Points(b.Cells(), b.pageEnd, Place(|b.Cells()|, 0))
    {
      Rings(b);
      page, pageOffset, mem := b.pageEnd, 0, null;
    }

    method IsEnd(b: Buffer, ghost p: Place) returns (end: bool)
      requires b.Valid() && Points(b.Cells(), b.pageEnd, p)
      ensures end <==> p.cell == |b.Cells()|
      ensures end <==> Pos(b.Cells(), p) == |b.Content()|
    {
      Rings(b);
      PosInside(b.Cells(), p);
      end := page == b.pageEnd;
      if p.cell < |b.Cells()| { b.IteratorAt(page, p.cell); }
    }

    method Next(b: Buffer, ghost p: Place)
      requires b.Valid() && Points(b.Cells(), b.pageEnd, p)
      modifies this
      ensures b.Valid() && Ring(b.Cells()) && Points(b.Cells(), b.pageEnd, Positions.Next(b.Cells(), p))
    {
      Rings(b);
      NextPos(b.Cells(), p);
      if page == b.pageEnd { b.BackAt(page, p.cell); } else { b.IteratorAt(page, p.cell); }
      b.FirstFound();
      var at, offset := page, pageOffset + 1;
      if offset >= page.len {
        at, offset := page.next, 0;
      }
      Set(b, at, offset, Positions.Next(b.Cells(), p));
    }

    method Prev(b: Buffer, ghost p: Place)
      requires b.Valid() && Points(b.Cells(), b.pageEnd, p)
      modifies this
      ensures b.Valid() && Ring(b.Cells()) && Points(b.Cells(), b.pageEnd, Positions.Prev(b.Cells(), p))
    {
      Rings(b);
      PrevPos(b.Cells(), p);
      var at: Page, offset := page, pageOffset;
      if offset == 0 {
        b.BackAt(page, p.cell);
        at := page.prev;
        if at == b.pageEnd { b.BackAt(at, |b.Cells()|); } else { b.IteratorAt(at, p.cell - 1); }
        offset := at.len;
      }
      if at != b.pageEnd {
        offset := offset - 1;
      }
      Set(b, at, offset, Positions.Prev(b.Cells(), p));
    }

    method Equals(b: Buffer, other: ByteIterator, ghost p: Place, ghost q: Place) returns (same: bool)
      requires b.Valid() && Points(b.Cells(), b.pageEnd, p) && other.Points(b.Cells(), b.pageEnd, q)
      ensures same <==> Pos(b.Cells(), p) == Pos(b.Cells(), q)
    {
      Rings(b);
      if page != b.pageEnd { b.IteratorAt(page, p.cell); }
      if other.page != b.pageEnd { b.IteratorAt(other.page, q.cell); }
      if Pos(b.Cells(), p) == Pos(b.Cells(), q) { PosUnique(b.Cells(), p, q); }
      same := page == other.page && pageOffset == other.pageOffset;
    }

    // the byte pointed to
    method Current(b: Buffer, ghost p: Place) returns (c: byte)
      requires b.Valid() && Points(b.Cells(), b.pageEnd, p)
      ensures Pos(b.Cells(), p) <= |b.Content()|
      ensures c == if Pos(b.Cells(), p) < |b.Content()| then b.Content()[Pos(b.Cells(), p)] else 0
    {
      Rings(b);
      PosInside(b.Cells(), p);
      if mem == null { return 0; }
      ghost var bytes := b.Cells()[p.cell].bytes;
      b.IteratorAt(page, p.cell);
      b.SourceBytes(page, p.offset, bytes[p.offset..p.offset + 1]);
      assert PageMirrors(b.allocator.ledger, page);
      assert mem[index..index + 1] == bytes[p.offset..p.offset + 1];
      assert mem[index] == mem[index..index + 1][0] == bytes[p.offset];
      c := mem[index];
    }
  }
}
