// Runs in which the library does not do what its documentation says, each from nothing.
module Witnesses {
  import opened Memory
  import opened Sequences
  import opened Ledgers
  import opened Allocation
  import opened Fragments
  import opened Portions
  import opened TrivialBuffer
  import opened DataReaders

  // sharing pages, not cutting them, rejecting nothing
  function Plain(pageSize: nat): Strategy {
    Strategy(pageSize, false, false, false, false, false, false, false, false, false)
  }

  // data that goes on one page behind the others
  lemma OnePage(b: Buffer, was: Ledger, bytes: seq<byte>)
    requires b.pageEnd in was.rings && bytes != [] && b.Appended(was, Copy, Lump(b.pageEnd, bytes), |bytes|, 0, true)
    ensures |b.Cells()| == |was.rings[b.pageEnd]| + 1 && b.Cells()[|was.rings[b.pageEnd]|].bytes == bytes
  {
    var cs := Lump(b.pageEnd, bytes);
    var added := b.Cells()[|was.rings[b.pageEnd]|..];
    OnePortion(b.pageEnd, bytes, 0);
    DeliveryShows(was, Copy, cs, |bytes|, 0, added, true);
    assert Made(was, Copy, cs, Portion(0, 0, |bytes|), added[0]);
    assert added[0] == b.Cells()[|was.rings[b.pageEnd]|];
  }

  // a new buffer with so many bytes on one page
  method OnePageBuffer(a: Allocator, data: array<byte>) returns (b: Buffer?)
    requires a.Valid() && a.ledger.held == multiset{} && data.Length > 0
    modifies a
    ensures a.Valid() && a.ledger.held == multiset{} && a.Grown()
    ensures a.refusals == old(a.refusals) ==> b != null
    ensures b != null ==> fresh(b) && fresh(b.pageEnd) && b.allocator == a && b.strategy == Plain(0) && b.Valid()
    ensures b != null && a.refusals == old(a.refusals) ==> |b.Cells()| == 2 && b.Cells()[1].bytes == data[..] && b.Content() == data[..]
  {
    b := CreateBuffer(a, Plain(0));
    if b != null {
      ghost var was := a.ledger;
      b.LastKnown();
      b.Alone();
      a.GrownShows();
      var n := b.WriteData(data, data.Length);
      assert a.Grown() by { assert Aged(0); }
      if n == data.Length {
        assert data[..data.Length] == data[..n] == data[..];
        OnePage(b, was, data[..]);
      }
    }
  }

  // a page of another buffer taken over as it is
  lemma TakenWhole(b: Buffer, was: Ledger, cs: seq<Cell>, len: nat)
    requires b.pageEnd in was.rings && |cs| == 2 && cs[0].bytes == [] && 0 < |cs[1].bytes| == len
    requires b.Appended(was, Share, cs, len, 0, true)
    ensures |b.Cells()| == |was.rings[b.pageEnd]| + 1 && b.Cells()[|was.rings[b.pageEnd]|].bytes == cs[1].bytes
  {
    var added := b.Cells()[|was.rings[b.pageEnd]|..];
    UncutPages(was, Share, cs, len, added, true);
    ReadFirst(cs);
    FlatNext(cs, 1);
    assert Contribution(cs, 1, len) == len;
    assert added[0] == b.Cells()[|was.rings[b.pageEnd]|];
  }

  // A page longer than the page size of the buffer it is written to, which is said to be split and is not.
  method UncutTooLong(data: array<byte>, size: nat) returns (a: Allocator, target: Buffer?)
    requires 0 < size < data.Length
    ensures a.refusals == 0 ==>
      && target != null && target.allocator == a && target.Valid() && target.strategy.pageSize == size
      && |target.Cells()| == 2 && |target.Cells()[1].bytes| > size
  {
    a := new Allocator();
    target := null;
    label Before:
    var src := OnePageBuffer(a, data);
    a.GrownShows@Before();
    if src != null {
      target := WrittenOn(a, src, size, data[..]);
    }
  }

  method WrittenOn(a: Allocator, src: Buffer, size: nat, ghost bytes: seq<byte>) returns (target: Buffer?)
    requires src.allocator == a && src.Valid() && 0 < size < |bytes|
    modifies a, a.ledger.stored.Keys
    ensures old(a.refusals) <= a.refusals
    ensures |old(src.Cells())| == 2 && old(src.Cells())[1].bytes == bytes && a.refusals == old(a.refusals) ==>
      && target != null && target.allocator == a && target.Valid() && target.strategy.pageSize == size
      && |target.Cells()| == 2 && target.Cells()[1].bytes == bytes
  {
    target := CreateBuffer(a, Plain(size));
    a.GrownShows();
    if target != null {
      Written(a, src, target, bytes);
    }
  }

  // the one page of a source written to an empty buffer
  method Written(a: Allocator, src: Buffer, target: Buffer, ghost bytes: seq<byte>)
    requires src.allocator == target.allocator == a && src.Valid() && target.Valid() && src.pageEnd != target.pageEnd
    requires target.Content() == [] && target.strategy.pageSize < |bytes| && target.strategy == Plain(target.strategy.pageSize)
    modifies target, a, target.pageEnd, a.ledger.stored.Keys
    ensures target.Valid() && old(a.refusals) <= a.refusals
    ensures |old(src.Cells())| == 2 && old(src.Cells())[1].bytes == bytes && a.refusals == old(a.refusals) ==>
      |target.Cells()| == 2 && target.Cells()[1].bytes == bytes
  {
    target.Alone();
    a.ledger.Here(src.pageEnd, 0);
    ghost var was, cs := a.ledger, src.Cells();
    var n := target.WriteBuffer(src, src.dataSize);
    assert old(a.refusals) <= a.refusals by { assert Aged(0); }
    if |cs| == 2 && cs[1].bytes == bytes && a.refusals == old(a.refusals) {
      assert src.dataSize == |bytes| by { FlatNext(cs, 1); ReadAll(cs); FlatOne(cs[0]); assert cs[..1] == [cs[0]]; }
      TakenWhole(target, was, cs, |bytes|);
    }
  }

  // A reader that has read all of the only page, and then a second page written behind it.
  lemma ParkedBehind(r: DataReader, n: nat, k: nat)
    requires r.Valid() && r.buffer.Valid() && !r.Stale() && r.cell == 1 && r.pageOffset == n
    requires var cs := r.buffer.Cells(); |cs| == 3 && |cs[1].bytes| == n && |cs[2].bytes| == k
    ensures r.Placed(r.buffer.Cells()) && r.Overtaken() && r.At() == n && r.Start() == n + n && (r.Fits() <==> n <= k)
  {
    r.Caught();
    r.buffer.allocator.ledger.Here(r.buffer.pageEnd, 0);
    ReadFirst(r.buffer.Cells());
    FlatNext(r.buffer.Cells(), 1);
  }

  lemma ReadToEnd(r: DataReader)
    requires r.buffer.Valid() && r.Placed(r.buffer.Cells()) && |r.buffer.Cells()| == 2 && r.At() == |r.buffer.Content()|
    ensures r.cell == 1 && r.pageOffset == |r.buffer.Cells()[1].bytes|
  {
    var cs := r.buffer.Cells();
    r.buffer.allocator.ledger.Here(r.buffer.pageEnd, 0);
    ReadFirst(cs);
    FlatNext(cs, 1);
    ReadAll(cs);
  }

  // data read to its end by a reader, and `more` written then
  method Park(b: Buffer, more: array<byte>) returns (r: DataReader)
    requires b.Valid() && b.strategy == Plain(0) && more.Length > 0
    modifies b, b.allocator, b.pageEnd, b.pageEnd.prev
    ensures fresh(r) && r.buffer == b && b.Valid() && r.Valid() && (r.Stale() || r.Placed(b.Cells()))
    ensures old(b.allocator.refusals) <= b.allocator.refusals
    ensures |old(b.Cells())| == 2 && b.allocator.refusals == old(b.allocator.refusals) ==>
      var n := |old(b.Cells())[1].bytes|;
      && !r.Stale() && r.Overtaken() && r.At() == n && r.Start() == n + n && (r.Fits() <==> n <= more.Length)
  {
    r := ReadAllOf(b);
    ghost var was, cs := b.allocator.ledger, b.Cells();
    label Parked:
    var n := b.WriteData(more, more.Length);
    assert old(b.allocator.refusals) <= b.allocator.refusals by { assert Aged(0); }
    r.Kept@Parked();
    if !r.Stale() { r.Caught(); }
    if |cs| == 2 && b.allocator.refusals == old(b.allocator.refusals) {
      assert more[..more.Length] == more[..n] == more[..];
      OnePage(b, was, more[..]);
      FlatAt(cs, 1);
      ParkedBehind(r, |cs[1].bytes|, more.Length);
    }
  }

  // a new reader that has read all there is
  method ReadAllOf(b: Buffer) returns (r: DataReader)
    requires b.Valid()
    ensures fresh(r) && r.buffer == b && r.Valid() && !r.Stale()
    ensures |b.Cells()| == 2 ==> r.cell == 1 && r.pageOffset == |b.Cells()[1].bytes|
  {
    r := new DataReader(b);
    r.AtZero();
    r.HeadStarts();
    var out := new byte[b.dataSize];
    var n, overrun := r.Read(out, b.dataSize);
    if |b.Cells()| == 2 { ReadToEnd(r); }
  }

  // Written, read to the end, written to again, and read on by one byte: behind the page
  // exactly when the second page is the shorter one.
  method ReadOnBehind(data: array<byte>, more: array<byte>) returns (a: Allocator, overrun: bool)
    requires data.Length > 0 && more.Length > 0
    ensures a.refusals == 0 ==> (overrun <==> more.Length < data.Length)
  {
    a := new Allocator();
    overrun := false;
    label Before:
    var b := OnePageBuffer(a, data);
    a.GrownShows@Before();
    if b != null {
      overrun := ReadOn(a, b, more);
    }
  }

  method ReadOn(a: Allocator, b: Buffer, more: array<byte>) returns (overrun: bool)
    requires b.allocator == a && b.Valid() && b.strategy == Plain(0) && more.Length > 0
    modifies b, a, b.pageEnd, a.ledger.spots.Keys
    ensures old(a.refusals) <= a.refusals
    ensures |old(b.Cells())| == 2 && a.refusals == old(a.refusals) ==> (overrun <==> more.Length < |old(b.Cells())[1].bytes|)
  {
    b.LastKnown();
    var r := Park(b, more);
    var out := new byte[1];
    var n;
    n, overrun := r.Read(out, 1);
  }
}
