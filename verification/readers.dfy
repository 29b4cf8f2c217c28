// The data reader: a cursor that reads on from where it stopped, and starts
// again whenever the revision of its buffer has changed.
module DataReaders {
  import opened Memory
  import opened Sequences
  import opened Ledgers
  import opened Fragments
  import opened Positions
  import opened TrivialBuffer

  // the last byte of the last page has nothing behind it
  lemma AtLast(cs: seq<Cell>, k: nat, o: nat)
    requires 0 < k < |cs| && o <= |cs[k].bytes| && Packed(cs)
    ensures Position(cs, k, o) == |Flat(cs)| <==> k + 1 == |cs| && o == |cs[k].bytes|
  {
    FlatAt(cs, k);
    var rest := cs[k + 1..];
    if rest != [] { FlatAt(rest, 0); }
  }

  // `page` and `pageOffset` mean something only as long as the buffer's revision is
  // the one they were taken at. They are described by the state the buffer had then.
  class DataReader {
    const buffer: Buffer
    var dataRevision: nat
    var page: Page
    var pageOffset: nat
    ghost var mark: nat
    ghost var cell: nat

    ghost predicate Valid()
      reads this, buffer
    {
      mark < |buffer.history| && buffer.history[mark].revision == dataRevision && Placed(buffer.history[mark].cells)
    }

    ghost predicate Placed(cs: seq<Cell>)
      reads this
    {
      && ReadsAt(cs, buffer.pageEnd, page, cell)
      && (if cell < |cs| then pageOffset <= |cs[cell].bytes| else |cs| == 1 && pageOffset == 0)
    }

    ghost predicate Stale()
      reads this, buffer
    {
      dataRevision != buffer.dataRevision
    }

    // A reader that is not stale stands on a page its buffer still has.
    lemma Caught()
      requires Valid() && buffer.Valid() && !Stale()
      ensures Placed(buffer.Cells())
    {
      buffer.RevisionMeansPrefix(mark, |buffer.history| - 1);
    }

    // Whatever happens to the buffer, a reader keeps a position of a state the buffer has been in.
    twostate lemma Kept()
      requires old(Valid()) && unchanged(this) && old(buffer.history) <= buffer.history
      ensures Valid()
    {}

    // A reader that goes on where it stopped still does so whatever its buffer goes through, as long as it is not
    // stale, unless it stood at the end of the content and a page was put behind that.
    twostate lemma OvertakenIff()
      requires old(Valid()) && old(buffer.Valid()) && old(!Stale()) && old(!Overtaken()) && unchanged(this)
      requires buffer.Valid() && old(buffer.history) <= buffer.history && !Stale()
      ensures Placed(buffer.Cells()) && old(Placed(buffer.Cells())) && old(buffer.Cells()) <= buffer.Cells() && At() == old(At())
      ensures Overtaken() <==> old(At()) == |old(buffer.Content())| && |buffer.Cells()| > |old(buffer.Cells())|
    {
      var n, m := |old(buffer.history)| - 1, |buffer.history| - 1;
      var cs, cs' := old(buffer.Cells()), buffer.Cells();
      buffer.RevisionMeansPrefix(mark, n);
      buffer.RevisionMeansPrefix(n, m);
      assert cs'[..cell] == cs[..cell];
      buffer.allocator.ledger.Here(buffer.pageEnd, 0);
      ReadFirst(cs');
      if cell < |cs| { AtLast(cs, cell, pageOffset); } else { ReadAll(cs); }
    }

    constructor (buffer: Buffer)
      requires buffer.Valid()
      ensures this.buffer == buffer && Valid() && !Stale() && Placed(buffer.Cells()) && At() == 0
    {
      this.buffer, page, dataRevision := buffer, buffer.pageEnd, 0;
      new;
      Reset();
    }

    method Reset()
      requires buffer.Valid()
      modifies this
      ensures Valid() && !Stale() && Placed(buffer.Cells()) && At() == 0 && cell == 1 && pageOffset == 0
    {
      page := buffer.GetIterator();
      dataRevision := buffer.dataRevision;
      pageOffset := 0;
      mark, cell := |buffer.history| - 1, 1;
      ReadFirst(buffer.Cells());
    }

    // how far into the content the reader is
    ghost function At(): nat
      requires buffer.pageEnd in buffer.allocator.ledger.rings && cell <= |buffer.Cells()|
      reads this, buffer, buffer.allocator
    {
      Position(buffer.Cells(), cell, pageOffset)
    }

    // parked behind the last byte of a page that is not the last any more
    ghost predicate Overtaken()
      requires buffer.pageEnd in buffer.allocator.ledger.rings
      reads this, buffer, buffer.allocator
    {
      cell + 1 < |buffer.Cells()| && pageOffset == |buffer.Cells()[cell].bytes|
    }

    // where the next read starts: an overtaken reader goes to the next page but keeps its offset
    ghost function Start(): nat
      requires buffer.pageEnd in buffer.allocator.ledger.rings && (Stale() || Placed(buffer.Cells()))
      reads this, buffer, buffer.allocator
    {
      if Stale() then 0
      else if Overtaken() then Position(buffer.Cells(), cell + 1, pageOffset)
      else At()
    }

    // Overtaken by two pages, the first of which is as long as its own: a read of no bytes takes it behind
    // that one, where it is overtaken still.
    ghost predicate Lags()
      requires buffer.pageEnd in buffer.allocator.ledger.rings
      reads this, buffer, buffer.allocator
    {
      !Stale() && Overtaken() && cell + 2 < |buffer.Cells()| && pageOffset == |buffer.Cells()[cell + 1].bytes|
    }

    // The kept offset lies within the next page. If it does not, the unsigned difference of the page's length
    // and the offset wraps round, and a read goes on behind the page.
    ghost predicate Fits()
      requires buffer.pageEnd in buffer.allocator.ledger.rings && (Stale() || Placed(buffer.Cells()))
      reads this, buffer, buffer.allocator
    {
      !Stale() && Overtaken() ==> pageOffset <= |buffer.Cells()[cell + 1].bytes|
    }

    // Reading goes on where it stopped exactly unless the reader was overtaken.
    lemma ContinuesIff()
      requires Valid() && buffer.Valid() && !Stale()
      ensures Placed(buffer.Cells()) && (Start() == At() <==> !Overtaken())
      ensures Start() == At() + if Overtaken() then pageOffset else 0
    {
      Caught();
      if Overtaken() {
        FlatAt(buffer.Cells(), cell);
      }
    }

    // what lies behind the reader's page
    lemma NextOf()
      requires buffer.Valid() && Placed(buffer.Cells())
      ensures var cs := buffer.Cells();
        && page.next != null && (if cell < |cs| then page != buffer.pageEnd && page.len == |cs[cell].bytes| > 0 else page.len == 0)
        && ReadsAt(cs, buffer.pageEnd, page.next, if cell < |cs| then cell + 1 else cell)
        && Position(cs, |cs|, 0) == |Flat(cs)|
        && (if cell == |cs| then buffer.Content() == [] else cell + 1 == |cs| ==> Position(cs, cell, page.len) == |Flat(cs)|)
    {
      var cs := buffer.Cells();
      ReadAll(cs);
      buffer.BackAt(page, cell);
      buffer.FirstFound();
      if cell < |cs| {
        buffer.IteratorAt(page, cell);
        FlatAt(cs, cell);
        assert cell + 1 == |cs| ==> cs[cell + 1..] == [];
      } else {
        buffer.allocator.ledger.Here(buffer.pageEnd, 0);
        FlatSingle(cs);
      }
    }

    lemma AtZero()
      requires buffer.Valid() && Placed(buffer.Cells()) && At() == 0
      ensures cell == 1 && pageOffset == 0
    {
      if cell > 1 { Before(buffer.Cells(), 1, cell); }
    }

    // a reader in front of the first byte is not behind any
    lemma HeadOf()
      requires buffer.Valid() && Placed(buffer.Cells()) && cell == 1 && pageOffset == 0 && !Stale()
      ensures Start() == 0 && Fits()
    {
      buffer.allocator.ledger.Here(buffer.pageEnd, 0);
      ReadFirst(buffer.Cells());
    }

    // the reader brought up to date
    method Refresh()
      requires Valid() && buffer.Valid() && (Stale() || Placed(buffer.Cells()))
      modifies this
      ensures buffer.Valid() && !Stale() && Placed(buffer.Cells()) && Start() == old(Start()) && (Fits() <==> old(Fits()))
      ensures Lags() <==> old(Lags())
    {
      if buffer.dataRevision != dataRevision {
        Reset();
        AtZero();
        HeadOf();
      }
    }

    // on to the next page if the reader's own is read; its offset stays
    method StepOver()
      requires buffer.Valid() && !Stale() && Placed(buffer.Cells())
      modifies this`page, this`cell
      ensures buffer.Valid() && !Stale() && ReadsAt(buffer.Cells(), buffer.pageEnd, page, cell)
      ensures (if page == buffer.pageEnd then |buffer.Content()| else At()) == old(Start())
      ensures page == buffer.pageEnd || pageOffset <= page.len <==> old(Fits())
      ensures Settled() <==> old(Fits())
      ensures Overtaken() <==> old(Lags())
    {
      NextOf();
      if pageOffset == page.len {
        page, cell := page.next, if cell < |buffer.Cells()| then cell + 1 else cell;
      }
      if page != buffer.pageEnd { buffer.IteratorAt(page, cell); }
    }

    // The reader brought up to date, and moved on to the next page if its own is read. Its offset is then
    // within its page exactly if it fitted.
    method Settle()
      requires Valid() && buffer.Valid() && (Stale() || Placed(buffer.Cells()))
      modifies this
      ensures buffer.Valid() && !Stale() && ReadsAt(buffer.Cells(), buffer.pageEnd, page, cell)
      ensures (if page == buffer.pageEnd then |buffer.Content()| else At()) == old(Start())
      ensures page == buffer.pageEnd || pageOffset <= page.len <==> old(Fits())
      ensures Settled() <==> old(Fits())
      ensures Overtaken() <==> old(Lags())
    {
      Refresh();
      StepOver();
    }

    // on a page, or on the end with an offset that means nothing
    ghost predicate Settled()
      reads this, buffer, buffer.allocator
    {
      && buffer.pageEnd in buffer.allocator.ledger.rings && ReadsAt(buffer.Cells(), buffer.pageEnd, page, cell)
      && (cell < |buffer.Cells()| ==> pageOffset <= |buffer.Cells()[cell].bytes|)
    }

    // a reader at the end goes back behind the last byte
    method Park()
      requires buffer.Valid() && !Stale() && Settled()
      modifies this
      ensures Valid() && buffer.Valid() && !Stale() && Placed(buffer.Cells())
      ensures At() == if old(page) == buffer.pageEnd then |buffer.Content()| else old(At())
      ensures Overtaken() <==> old(Overtaken())
    {
      mark := |buffer.history| - 1;
      if page == buffer.pageEnd {
        StepBack();
      }
    }

    method StepBack()
      requires buffer.Valid() && ReadsAt(buffer.Cells(), buffer.pageEnd, page, cell) && page == buffer.pageEnd
      modifies this`page, this`pageOffset, this`cell
      ensures buffer.Valid() && Placed(buffer.Cells()) && At() == |buffer.Content()| && !Overtaken()
    {
      ghost var cs := buffer.Cells();
      buffer.BackAt(page, cell);
      ReadAll(cs);
      page := page.prev;
      pageOffset := page.len;
      buffer.allocator.ledger.Here(buffer.pageEnd, 0);
      if |cs| > 1 {
        cell := cell - 1;
        buffer.IteratorAt(page, cell);
        FlatAt(cs, cell);
        assert cs[cell + 1..] == [];
      } else {
        buffer.BackAt(page, cell);
      }
    }

    // the state of a read: `got` is copied, starting at s
    ghost predicate Reads(s: nat, got: seq<byte>, len: nat)
      reads this, buffer, buffer.allocator
    {
      && Settled() && s <= |buffer.Content()|
      && Reading(buffer.Cells(), cell, if page == buffer.pageEnd then 0 else pageOffset, buffer.Content()[..s] + got, s + len + 1)
    }

    lemma ReadsDone(s: nat, got: seq<byte>, len: nat)
      requires buffer.Valid() && Reads(s, got, len) && |got| <= len
      ensures s + |got| <= |buffer.Content()| && got == buffer.Content()[s..s + |got|]
      ensures s + |got| == if page == buffer.pageEnd then |buffer.Content()| else At()
    {
      var cs, all := buffer.Cells(), buffer.Content();
      assert Shown(0);
      ReadAll(cs);
      assert all[..s + |got|] == all[..s] + got;
      assert got == all[..s + |got|][s..];
    }

    lemma ReadsOn(s: nat, got: seq<byte>, len: nat, n: nat)
      requires buffer.Valid() && Reads(s, got, len) && cell < |buffer.Cells()|
      requires |got| + n <= len && pageOffset + n <= |buffer.Cells()[cell].bytes|
      ensures var cs, piece := buffer.Cells(), buffer.Cells()[cell].bytes[pageOffset..pageOffset + n];
        && Reading(cs, cell, pageOffset + n, buffer.Content()[..s] + (got + piece), s + len + 1)
        && (pageOffset + n == |cs[cell].bytes| ==> Reading(cs, cell + 1, 0, buffer.Content()[..s] + (got + piece), s + len + 1))
    {
      var piece := buffer.Cells()[cell].bytes[pageOffset..pageOffset + n];
      ReadingOn(buffer.Cells(), cell, pageOffset, buffer.Content()[..s] + got, s + len + 1, n);
      assert buffer.Content()[..s] + got + piece == buffer.Content()[..s] + (got + piece);
    }

    // on by m bytes, and to the next page if this one is read
    method Forward(m: nat, ghost s: nat, ghost got: seq<byte>, ghost len: nat)
      requires buffer.Valid() && ReadsAt(buffer.Cells(), buffer.pageEnd, page, cell) && page != buffer.pageEnd
      requires cell < |buffer.Cells()| && pageOffset + m <= |buffer.Cells()[cell].bytes| && s <= |buffer.Content()|
      requires Reading(buffer.Cells(), cell, pageOffset + m, buffer.Content()[..s] + got, s + len + 1)
      requires pageOffset + m == |buffer.Cells()[cell].bytes| ==> Reading(buffer.Cells(), cell + 1, 0, buffer.Content()[..s] + got, s + len + 1)
      modifies this`page, this`pageOffset, this`cell
      ensures buffer.Valid() && Reads(s, got, len)
      ensures !Overtaken()
      ensures if old(pageOffset) + m == |buffer.Cells()[old(cell)].bytes| then old(cell) < cell <= |buffer.Cells()| else cell == old(cell)
    {
      buffer.IteratorAt(page, cell);
      if pageOffset + m == page.len {
        page, pageOffset, cell := page.next, 0, cell + 1;
      } else {
        pageOffset := pageOffset + m;
      }
    }

    // up to `rest` bytes from the page
    method ReadPage(buf: array<byte>, n: nat, rest: nat, ghost len: nat, ghost s: nat, ghost got: seq<byte>,
                    ghost was: seq<byte>)
      returns (done: nat, left: nat, ghost got': seq<byte>)
      requires buffer.Valid() && buffer.Foreign(buf) && n + rest == len <= buf.Length && rest > 0 && |got| == n
      requires Reads(s, got, len) && page != buffer.pageEnd && Filled(buf[..], was, got)
      modifies this`page, this`pageOffset, this`cell, buf
      ensures buffer.Valid() && left <= rest && done + left == len && |got'| == done
      ensures Reads(s, got', len) && Filled(buf[..], was, got') && !Overtaken()
      ensures left == 0 || old(cell) < cell <= |buffer.Cells()|
    {
      buffer.IteratorAt(page, cell);
      var m := Min(page.len - pageOffset, rest);
      done, left := n + m, rest - m;
      ReadsOn(s, got, len, m);
      ghost var now, piece := buf[..], buffer.Cells()[cell].bytes[pageOffset..pageOffset + m];
      got' := got + piece;
      buffer.CopyOut(page, cell, pageOffset, m, buf, n);
      FilledOn(now, buf[..], was, got, piece);
      Forward(m, s, got', len);
    }

    method Read1(buf: array<byte>, len: nat, ghost s: nat) returns (n: nat)
      requires buffer.Valid() && buffer.Foreign(buf) && len <= buf.Length && !Stale()
      requires Reads(s, [], len)
      modifies this`page, this`pageOffset, this`cell, buf
      ensures buffer.Valid() && !Stale() && Settled()
      ensures n == Min(len, |buffer.Content()| - s) && (page == buffer.pageEnd || At() == s + n)
      ensures page == buffer.pageEnd ==> s + n == |buffer.Content()|
      ensures Overtaken() <==> len == 0 && old(Overtaken())
      ensures buf[..] == buffer.Content()[s..s + n] + old(buf[n..])
    {
      ghost var got: seq<byte>, was := [], buf[..];
      FilledStarts(was);
      n := 0;
      var rest: nat := len;
      while rest > 0 && page != buffer.pageEnd
        invariant buffer.Valid() && n + rest == len && |got| == n && Reads(s, got, len)
        invariant Filled(buf[..], was, got) && (Overtaken() ==> rest == len) && (len == 0 ==> Overtaken() == old(Overtaken()))
        decreases rest, |buffer.Cells()| - cell
      {
        n, rest, got := ReadPage(buf, n, rest, len, s, got, was);
      }
      ReadsDone(s, got, len);
      FilledShows(buf[..], was, got);
    }

    // Where the code would read behind its page the model stops: an overrun.
    method Read(buf: array<byte>, len: nat) returns (n: nat, overrun: bool)
      requires Valid() && buffer.Valid() && (Stale() || Placed(buffer.Cells()))
      requires buffer.Foreign(buf) && len <= buf.Length
      modifies this, buf
      ensures buffer.Valid() && !Stale() && ReadsAt(buffer.Cells(), buffer.pageEnd, page, cell)
      ensures overrun <==> len > 0 && !old(Fits())
      ensures Placed(buffer.Cells()) <==> old(Fits())
      ensures if old(Fits()) then
        var s := old(Start());
        && Valid() && s <= |buffer.Content()| && n == Min(len, |buffer.Content()| - s) && At() == s + n
        && buf[..] == buffer.Content()[s..s + n] + old(buf[n..])
      else n == 0 && At() == old(Start()) && buf[..] == old(buf[..])
      ensures old(Fits()) ==> (Overtaken() <==> len == 0 && old(Lags()))
      ensures old(Fits()) ==> Start() == At() + if len == 0 && old(Lags()) then pageOffset else 0
    {
      Settle();
      if page != buffer.pageEnd && page.len < pageOffset {
        buffer.IteratorAt(page, cell);
        n, overrun := 0, len > 0;
      } else {
        n := ReadSettled(buf, len);
        overrun := false;
        ContinuesIff();
      }
    }

    method ReadSettled(buf: array<byte>, len: nat) returns (n: nat)
      requires buffer.Valid() && !Stale() && Settled() && buffer.Foreign(buf) && len <= buf.Length
      modifies this, buf
      ensures buffer.Valid() && Valid() && !Stale() && Placed(buffer.Cells())
      ensures var s := if old(page) == buffer.pageEnd then |buffer.Content()| else old(At());
        && s <= |buffer.Content()| && n == Min(len, |buffer.Content()| - s) && At() == s + n
        && buf[..] == buffer.Content()[s..s + n] + old(buf[n..])
      ensures Overtaken() <==> len == 0 && old(Overtaken())
    {
      ghost var s := if page == buffer.pageEnd then |buffer.Content()| else At();
      ReadStarts(s, len);
      n := Read1(buf, len, s);
      Park();
    }

    lemma ReadStarts(s: nat, len: nat)
      requires buffer.Valid() && Settled() && s == if page == buffer.pageEnd then |buffer.Content()| else At()
      ensures Reads(s, [], len)
    {
      var cs := buffer.Cells();
      ReadAll(cs);
      if cell < |cs| { FlatAt(cs, cell); }
      ReadingStartsAt(cs, cell, if page == buffer.pageEnd then 0 else pageOffset, len + 1);
      assert buffer.Content()[..s] + [] == buffer.Content()[..s];
    }

    // the bytes in front of the reader, counted page by page
    method Passed() returns (n: nat)
      requires buffer.Valid() && ReadsAt(buffer.Cells(), buffer.pageEnd, page, cell)
      ensures n == At()
    {
      ghost var cs, i := buffer.Cells(), 1;
      n := 0;
      var it: Page := buffer.GetIterator();
      ReadFirst(cs);
      if page != buffer.pageEnd { buffer.IteratorAt(page, cell); }
      while it != buffer.pageEnd && it != page
        invariant ReadsAt(cs, buffer.pageEnd, it, i) && i <= cell && n == Position(cs, i, 0)
        decreases cell - i
      {
        buffer.IteratorAt(it, i);
        FlatAt(cs, i);
        n := n + it.len;
        it := it.next;
        i := i + 1;
      }
      if it != buffer.pageEnd { buffer.IteratorAt(it, i); }
      if it == page && pageOffset > 0 {
        n := n + pageOffset;
      }
    }

    // The next read starts with the first byte of the content, and so will every later
    // one that no other read comes before.
    ghost predicate AtHead()
      requires Valid()
      reads this, buffer
    {
      dataRevision < buffer.dataRevision || (dataRevision == buffer.dataRevision && cell == 1 && pageOffset == 0)
    }

    lemma HeadStarts()
      requires Valid() && buffer.Valid() && AtHead()
      ensures (Stale() || Placed(buffer.Cells())) && Fits() && Start() == 0
    {
      if !Stale() {
        Caught();
        buffer.allocator.ledger.Here(buffer.pageEnd, 0);
        ReadFirst(buffer.Cells());
      }
    }

    // a read, and how far into the content it got
    method ReadAndCount(buf: array<byte>, len: nat, ghost s: nat, ghost fits: bool)
      returns (n: nat, k: nat, overrun: bool)
      requires Valid() && buffer.Valid() && (Stale() || Placed(buffer.Cells()))
      requires buffer.Foreign(buf) && len <= buf.Length && s == Start() && fits == Fits()
      modifies this, buf
      ensures buffer.Valid() && dataRevision == buffer.dataRevision && (overrun <==> len > 0 && !fits)
      ensures if fits then
        var all := buffer.Content();
        && Valid() && s <= |all| && n == Min(len, |all| - s) && k == s + n && buf[..] == all[s..s + n] + old(buf[n..])
        && (k == 0 ==> cell == 1 && pageOffset == 0) && Placed(buffer.Cells()) && At() == k
      else k == s && buf[..] == old(buf[..])
    {
      n, overrun := Read(buf, len);
      k := Passed();
      if k == 0 && Placed(buffer.Cells()) { AtZero(); }
    }

    // The bytes read are taken off together with all that is in front of them.
    method Consume(buf: array<byte>, len: nat) returns (seeked: nat, overrun: bool)
      requires Valid() && buffer.Valid() && (Stale() || Placed(buffer.Cells()))
      requires buffer.Foreign(buf) && len <= buf.Length
      modifies this, buf, buffer, buffer.allocator`ledger, buffer.allocator.ledger.spots.Keys, buffer.allocator.ledger.stored.Keys
      ensures buffer.Valid() && old(buffer.history) <= buffer.history && (overrun <==> len > 0 && !old(Fits()))
      ensures if overrun then buffer.allocator.ledger == old(buffer.allocator.ledger) && unchanged(buffer)
        else old(buffer.allocator.ledger).Sheds(buffer.allocator.ledger, buffer.pageEnd)
      ensures var s, all := old(Start()), old(buffer.Content());
        if old(Fits()) then
          s <= |all| && var n := Min(len, |all| - s);
          && seeked == (if buffer.strategy.rejectsSeek then 0 else s + n)
          && buf[..] == all[s..s + n] + old(buf[n..]) && buffer.Content() == all[seeked..]
          && Valid() && (if buffer.strategy.rejectsSeek then !Stale() && Placed(buffer.Cells()) && At() == s + n else AtHead())
        else
          && buf[..] == old(buf[..])
          && seeked == (if overrun || buffer.strategy.rejectsSeek then 0 else Min(s, |all|)) && buffer.Content() == all[seeked..]
    {
      ghost var n;
      seeked, overrun, n := ConsumeFrom(buf, len, Start(), Fits(), buffer.Content());
    }

    method ConsumeFrom(buf: array<byte>, len: nat, ghost s: nat, ghost fits: bool, ghost all: seq<byte>)
      returns (seeked: nat, overrun: bool, ghost n: nat)
      requires Valid() && buffer.Valid() && (Stale() || Placed(buffer.Cells()))
      requires buffer.Foreign(buf) && len <= buf.Length && s == Start() && fits == Fits() && all == buffer.Content()
      modifies this, buf, buffer, buffer.allocator`ledger, buffer.allocator.ledger.spots.Keys, buffer.allocator.ledger.stored.Keys
      ensures buffer.Valid() && old(buffer.history) <= buffer.history && (overrun <==> len > 0 && !fits)
      ensures if overrun then buffer.allocator.ledger == old(buffer.allocator.ledger) && unchanged(buffer)
        else old(buffer.allocator.ledger).Sheds(buffer.allocator.ledger, buffer.pageEnd)
      ensures buffer.Content() == all[Min(seeked, |all|)..]
      ensures if fits then
        && s <= |all| && n == Min(len, |all| - s) && seeked == (if buffer.strategy.rejectsSeek then 0 else s + n)
        && Valid() && (if buffer.strategy.rejectsSeek then !Stale() && Placed(buffer.Cells()) && At() == s + n else AtHead())
        && buf[..] == all[s..s + n] + old(buf[n..])
      else buf[..] == old(buf[..]) && seeked == if overrun || buffer.strategy.rejectsSeek then 0 else Min(s, |all|)
    {
      var k;
      n, k, overrun := ReadAndCount(buf, len, s, fits);
      seeked := 0;
      if !overrun {
        seeked := TakeOff(k);
      }
    }

    // the first k bytes taken off by a reader that has just read on from there
    method TakeOff(k: nat) returns (seeked: nat)
      requires buffer.Valid() && dataRevision == buffer.dataRevision
      modifies buffer, buffer.allocator`ledger, buffer.allocator.ledger.spots.Keys, buffer.allocator.ledger.stored.Keys
      ensures buffer.Valid() && old(buffer.history) <= buffer.history
      ensures old(buffer.allocator.ledger).Sheds(buffer.allocator.ledger, buffer.pageEnd)
      ensures seeked == (if buffer.strategy.rejectsSeek then 0 else Min(k, |old(buffer.Content())|))
      ensures buffer.Content() == old(buffer.Content())[seeked..]
      ensures buffer.strategy.rejectsSeek ==> unchanged(buffer) && buffer.allocator.ledger == old(buffer.allocator.ledger)
      ensures old(Valid()) ==> Valid()
      ensures old(Valid()) && !buffer.strategy.rejectsSeek && k <= |old(buffer.Content())| && (k == 0 ==> cell == 1 && pageOffset == 0) ==> AtHead()
    {
      seeked := buffer.Seek(k);
    }
  }

  // A reader that has read the three bytes of the first page when a page of four bytes was appended
  // starts at position 6 and not at 3.
  lemma ParkedReaderSkips(r: DataReader)
    requires r.Valid() && r.buffer.Valid() && !r.Stale() && r.cell == 1 && r.pageOffset == 3
    requires var cs := r.buffer.Cells(); |cs| == 3 && |cs[1].bytes| == 3 && |cs[2].bytes| == 4
    ensures r.Placed(r.buffer.Cells()) && r.Overtaken() && r.Fits() && r.At() == 3 && r.Start() == 6
  {
    r.Caught();
    r.buffer.allocator.ledger.Here(r.buffer.pageEnd, 0);
    ReadFirst(r.buffer.Cells());
    FlatNext(r.buffer.Cells(), 1);
  }

  // With two pages appended, the first of three bytes, a read of nothing leaves it overtaken.
  lemma ParkedReaderLags(r: DataReader)
    requires r.Valid() && r.buffer.Valid() && !r.Stale() && r.cell == 1 && r.pageOffset == 3
    requires var cs := r.buffer.Cells(); |cs| == 4 && |cs[1].bytes| == 3 && |cs[2].bytes| == 3
    ensures r.Placed(r.buffer.Cells()) && r.Fits() && r.Lags() && r.At() == 3 && r.Start() == 6
  {
    r.Caught();
    r.buffer.allocator.ledger.Here(r.buffer.pageEnd, 0);
    ReadFirst(r.buffer.Cells());
    FlatNext(r.buffer.Cells(), 1);
  }

  // With a page of two bytes appended, its offset is behind the page it goes to.
  lemma ParkedReaderOverruns(r: DataReader)
    requires r.Valid() && r.buffer.Valid() && !r.Stale() && r.cell == 1 && r.pageOffset == 3
    requires var cs := r.buffer.Cells(); |cs| == 3 && |cs[1].bytes| == 3 && |cs[2].bytes| == 2
    ensures r.Placed(r.buffer.Cells()) && r.Overtaken() && !r.Fits() && r.At() == 3 && r.Start() == 6 > |r.buffer.Content()|
  {
    r.Caught();
    r.buffer.allocator.ledger.Here(r.buffer.pageEnd, 0);
    var cs := r.buffer.Cells();
    ReadFirst(cs);
    FlatNext(cs, 1);
    FlatNext(cs, 2);
    ReadAll(cs);
  }
}
