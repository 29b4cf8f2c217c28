// The line reader: a search for the end of the first line of a buffer that can be taken
// up again when more was written.
module LineReaders {
  import opened Memory
  import opened Sequences
  import opened Ledgers
  import opened Fragments
  import opened Positions
  import opened TrivialBuffer
  import opened ByteIterators
  import opened Lines

  // What a line reader remembers of a content: how far it got, and what it found there.
  datatype Search = Search(offset: nat, hasCr: bool, hasLine: bool)
  {
    // A search that found nothing stands on the last byte it has seen, or has not begun.
    ghost predicate Knows(c: seq<byte>, max: nat) {
      if hasLine then Scan(c, max) == Line(offset, hasCr)
      else if offset < |c| && c[offset] != LF then offset <= max && Lines.Clear(c, 0, offset)
      else offset == 0 && !hasCr
    }

    // between two steps of a search that started from `from`
    ghost predicate Walks(c: seq<byte>, max: nat, from: Search) {
      && !hasLine && from.offset <= offset <= max && offset <= |c| && Lines.Clear(c, 0, offset)
      && (if offset == from.offset then hasCr == from.hasCr else hasCr == (c[offset - 1] == CR))
    }

    // one byte looked at and passed
    function Pass(b: byte): Search {
      Search(offset + 1, b == CR, hasLine)
    }

    // the byte at which the search ends
    function Stop(b: byte): Search {
      Search(offset, if b == LF then hasCr else false, true)
    }

    // Nothing put behind the content makes what is known of it wrong.
    lemma KnowsMore(c: seq<byte>, more: seq<byte>, max: nat)
      requires Knows(c, max) && c <= more
      ensures Knows(more, max)
    {
      if hasLine { ScanKeeps(c, more, max); }
    }

    lemma WalkStarts(c: seq<byte>, max: nat)
      requires Knows(c, max) && !hasLine && c != []
      ensures Walks(c, max, this)
    {}

    lemma WalkPasses(c: seq<byte>, max: nat, from: Search)
      requires from.Knows(c, max) && Walks(c, max, from) && offset < |c| && c[offset] != LF && offset != max
      ensures Pass(c[offset]).Walks(c, max, from)
    {}

    // Wherever the search started again, it ends as one search over the whole content would.
    lemma WalkStops(c: seq<byte>, max: nat, from: Search)
      requires from.Knows(c, max) && Walks(c, max, from) && offset < |c| && (c[offset] == LF || offset == max)
      ensures Stop(c[offset]).Knows(c, max)
    {
      ScanStops(c, max, offset);
    }

    // at the end of the content the search steps back onto the last byte
    lemma WalkEnds(c: seq<byte>, max: nat, from: Search)
      requires from.Knows(c, max) && Walks(c, max, from) && offset == |c| > 0
      ensures Scan(c, max) == NoLine && Search(offset - 1, hasCr, false).Knows(c, max)
    {
      ScanStops(c, max, offset);
    }
  }

  class LineReader {
    const buffer: Buffer
    const max: nat
    const it: ByteIterator
    var dataRevision: nat
    var offset: nat
    var hasCr: bool
    var hasLine: bool
    ghost var mark: nat
    ghost var place: Place

    ghost function Now(): Search
      reads this
    {
      Search(offset, hasCr, hasLine)
    }

    // All of it is about the state the buffer had when the revision was taken.
    ghost predicate Valid()
      reads this, it, buffer
    {
      mark < |buffer.history| && buffer.history[mark].revision == dataRevision && Placed(buffer.history[mark].cells)
    }

    ghost predicate Placed(cs: seq<Cell>)
      reads this, it
    {
      && Ring(cs) && it.Points(cs, buffer.pageEnd, place) && Pos(cs, place) == offset
      && Now().Knows(Flat(cs), max) && (place.cell == |cs| ==> |cs| == 1)
    }

    ghost predicate Stale()
      reads this, buffer
    {
      dataRevision != buffer.dataRevision
    }

    lemma Caught()
      requires Valid() && buffer.Valid() && !Stale()
      ensures Placed(buffer.Cells())
    {
      var cs, more := buffer.history[mark].cells, buffer.Cells();
      buffer.RevisionMeansPrefix(mark, |buffer.history| - 1);
      it.Rings(buffer);
      assert more == cs + more[|cs|..];
      FlatConcat(cs, more[|cs|..]);
      Now().KnowsMore(Flat(cs), Flat(more), max);
      assert place.cell < |cs| ==> more[..place.cell] == cs[..place.cell];
    }

    // Whatever happens to the buffer, the reader's memory of it stays good: it is either
    // recognised as stale by its revision, or still about the front of the content.
    twostate lemma Kept()
      requires old(Valid()) && unchanged(this) && unchanged(it) && old(buffer.history) <= buffer.history
      ensures Valid()
    {}

    // nothing known
    method Clear()
      requires buffer.Valid() && Ring(buffer.Cells()) && it.Points(buffer.Cells(), buffer.pageEnd, Begin())
      modifies this
      ensures Valid() && buffer.Valid() && !Stale() && Placed(buffer.Cells()) && !hasLine && offset == 0
      ensures unchanged(buffer) && buffer.allocator.ledger == old(buffer.allocator.ledger)
    {
      ReadFirst(buffer.Cells());
      dataRevision, offset, hasCr, hasLine := buffer.dataRevision, 0, false, false;
      mark, place := |buffer.history| - 1, Begin();
    }

    // a search begun anew
    method Reset()
      requires buffer.Valid()
      modifies this, it
      ensures Valid() && buffer.Valid() && !Stale() && Placed(buffer.Cells()) && !hasLine && offset == 0
      ensures unchanged(buffer) && buffer.allocator.ledger == old(buffer.allocator.ledger)
    {
      it.Rings(buffer);
      it.GetBegin(buffer);
      Clear();
    }

    constructor (buffer: Buffer, max: nat)
      requires buffer.Valid()
      ensures this.buffer == buffer && this.max == max && fresh(it)
      ensures Valid() && !Stale() && Placed(buffer.Cells()) && !hasLine
    {
      this.buffer, this.max := buffer, max;
      it := new ByteIterator(buffer);
      dataRevision, offset, hasCr, hasLine := 0, 0, false, false;
      new;
      Reset();
    }

    // the state of a search through the current content
    ghost predicate Scanning(from: Search)
      reads this, it, buffer, buffer.allocator
    {
      && buffer.pageEnd in buffer.allocator.ledger.rings
      && var cs := buffer.Cells();
      && Ring(cs) && it.Points(cs, buffer.pageEnd, place) && Pos(cs, place) == offset
      && from.Knows(Flat(cs), max) && Now().Walks(Flat(cs), max, from)
    }

    // one byte looked at
    method Judge(b: byte, ghost c: seq<byte>, ghost from: Search) returns (stop: bool)
      requires from.Knows(c, max) && Now().Walks(c, max, from) && offset < |c| && b == c[offset]
      modifies this`hasCr, this`hasLine
      ensures stop ==> hasLine && Now().Knows(c, max)
      ensures !stop ==> Search(offset + 1, hasCr, hasLine).Walks(c, max, from)
    {
      ghost var was := Now();
      if b == LF {
        was.WalkStops(c, max, from);
        hasLine := true;
        return true;
      } else if b == CR {
        hasCr := true;
      } else {
        hasCr := false;
      }
      if offset == max {
        was.WalkStops(c, max, from);
        hasCr, hasLine := false, true;
        return true;
      }
      was.WalkPasses(c, max, from);
      stop := false;
    }

    // and on to the next
    method Look(ghost from: Search) returns (stop: bool)
      requires buffer.Valid() && Scanning(from) && offset < |buffer.Content()|
      modifies this`offset, this`hasCr, this`hasLine, this`place, it
      ensures buffer.Valid()
      ensures stop ==> hasLine && Placed(buffer.Cells())
      ensures !stop ==> Scanning(from) && offset == old(offset) + 1
    {
      PosInside(buffer.Cells(), place);
      var b := it.Current(buffer, place);
      stop := Judge(b, buffer.Content(), from);
      if !stop {
        MoveOn(from);
      }
    }

    method MoveOn(ghost from: Search)
      requires buffer.Valid() && Ring(buffer.Cells()) && it.Points(buffer.Cells(), buffer.pageEnd, place)
      requires Pos(buffer.Cells(), place) == offset < |buffer.Content()| && from.Knows(buffer.Content(), max)
      requires Search(offset + 1, hasCr, hasLine).Walks(buffer.Content(), max, from)
      modifies this`offset, this`place, it
      ensures buffer.Valid() && Scanning(from) && offset == old(offset) + 1
    {
      ghost var p := place;
      NextPos(buffer.Cells(), p);
      place, offset := Positions.Next(buffer.Cells(), p), offset + 1;
      it.Next(buffer, p);
    }

    // the search steps back onto the last byte
    method Park(ghost from: Search)
      requires buffer.Valid() && Scanning(from) && offset == |buffer.Content()| > 0
      modifies this`offset, this`place, it
      ensures buffer.Valid() && Placed(buffer.Cells()) && !hasLine && Scan(buffer.Content(), max) == NoLine
    {
      PosInside(buffer.Cells(), place);
      PrevPos(buffer.Cells(), place);
      Now().WalkEnds(buffer.Content(), max, from);
      it.Prev(buffer, place);
      place := Positions.Prev(buffer.Cells(), place);
      offset := offset - 1;
      PosInside(buffer.Cells(), place);
    }

    method Refresh()
      requires Valid() && buffer.Valid()
      modifies this, it
      ensures Valid() && buffer.Valid() && !Stale() && Placed(buffer.Cells()) && mark == |buffer.history| - 1
      ensures !old(Stale()) ==> Now() == old(Now())
      ensures old(Stale()) ==> !hasLine
    {
      if dataRevision != buffer.dataRevision {
        Reset();
      } else {
        Caught();
      }
      MarkHere();
    }

    // what the reader knows is about the present state
    ghost method MarkHere()
      requires buffer.Valid() && !Stale() && Placed(buffer.Cells())
      modifies this`mark
      ensures Valid() && buffer.Valid() && !Stale() && Placed(buffer.Cells()) && mark == |buffer.history| - 1
    {
      mark := |buffer.history| - 1;
    }

    method Search1() returns (found: bool)
      requires buffer.Valid() && !Stale() && Placed(buffer.Cells()) && !hasLine && buffer.Content() != []
      modifies this`offset, this`hasCr, this`hasLine, this`place, it
      ensures buffer.Valid() && Placed(buffer.Cells()) && found == hasLine
      ensures !found ==> Scan(buffer.Content(), max) == NoLine
    {
      ghost var from, c := Now(), buffer.Content();
      from.WalkStarts(c, max);
      found := false;
      var end := AtEnd(from);
      while !end && !found
        invariant buffer.Valid() && Looks(from, found, end)
        invariant found || offset <= |c|
        decreases !found, |c| - offset
      {
        found, end := LookOn(from);
      }
      assert if found then hasLine && Placed(buffer.Cells()) else Scanning(from) && (end <==> offset == |c|) by { assert Shown(0); }
      if !found { Park(from); }
    }

    // a search on its way or at its goal
    ghost predicate Looks(from: Search, found: bool, end: bool)
      reads this, it, buffer, buffer.allocator
    {
      forall u {:trigger Shown(u)} :: Shown(u) ==>
        && buffer.pageEnd in buffer.allocator.ledger.rings
        && if found then hasLine && Placed(buffer.Cells()) else Scanning(from) && (end <==> offset == |buffer.Content()|)
    }

    // has the search come to the end?
    method AtEnd(ghost from: Search) returns (end: bool)
      requires buffer.Valid() && Scanning(from)
      ensures end <==> offset == |buffer.Content()|
    {
      end := it.IsEnd(buffer, place);
    }

    method LookOn(ghost from: Search) returns (found: bool, end: bool)
      requires buffer.Valid() && Looks(from, false, false) && offset <= |buffer.Content()|
      modifies this`offset, this`hasCr, this`hasLine, this`place, it
      ensures buffer.Valid() && Looks(from, found, end)
      ensures !found ==> old(offset) < offset <= |buffer.Content()|
    {
      assert Scanning(from) && offset != |buffer.Content()| by { assert Shown(0); }
      found := Look(from);
      end := false;
      if !found { end := AtEnd(from); }
    }

    // Whatever was searched before, however the content was written since: the answer
    // is that of one search over the whole of the content there is now.
    method HasLine() returns (found: bool)
      requires Valid() && buffer.Valid()
      modifies this, it
      ensures Valid() && buffer.Valid() && !Stale() && Placed(buffer.Cells())
      ensures found == hasLine == Scan(buffer.Content(), max).Line?
      ensures found ==> Scan(buffer.Content(), max) == Line(offset, hasCr)
    {
      Refresh();
      found := hasLine;
      if !hasLine && buffer.dataSize > 0 {
        found := Search1();
      }
    }

    // 0 if no line is known; otherwise the line without its terminator
    method GetLineLen() returns (n: nat)
      requires Valid() && buffer.Valid()
      modifies this, it
      ensures Valid() && buffer.Valid() && !Stale() && Placed(buffer.Cells())
      ensures hasLine == old(!Stale() && hasLine) && (hasLine ==> Now() == old(Now()))
      ensures n == if hasLine then LineLen(Scan(buffer.Content(), max)) else 0
    {
      Refresh();
      n := if !hasLine then 0 else if hasCr then offset - 1 else offset;
    }

    method CopyLine(buf: array<byte>, len: nat, lineLen: nat) returns (n: nat)
      requires buffer.Valid() && buffer.Foreign(buf) && len <= buf.Length && lineLen <= |buffer.Content()|
      modifies buf
      ensures buffer.Valid() && n == Min(len, lineLen) && buf[..] == buffer.Content()[..n] + old(buf[n..])
    {
      ghost var cs, i, done: seq<byte>, was := buffer.Cells(), 1, [], buf[..];
      n := 0;
      var rest: nat, left: nat := len, lineLen;
      var it: Page := buffer.GetIterator();
      ReadingStarts(cs, Min(len, lineLen));
      FilledStarts(was);
      while rest > 0 && left > 0 && it != buffer.pageEnd
        invariant buffer.Valid() && ReadsAt(cs, buffer.pageEnd, it, i) && Reading(cs, i, 0, done, Min(len, lineLen))
        invariant n + rest == len && n + left == lineLen && |done| == n && Filled(buf[..], was, done)
      {
        var m;
        m, done := buffer.ReadNext(it, i, buf, n, Min(rest, left), was, done);
        rest, left, n := rest - m, left - m, n + m;
        it := it.next;
        i := i + 1;
      }
      ReadingShows(cs, i, 0, done, Min(len, lineLen));
      FilledShows(buf[..], was, done);
    }

    method GetLineData(buf: array<byte>, len: nat) returns (n: nat)
      requires Valid() && buffer.Valid() && buffer.Foreign(buf) && len <= buf.Length
      modifies this, it, buf
      ensures Valid() && buffer.Valid() && !Stale() && Placed(buffer.Cells())
      ensures hasLine == old(!Stale() && hasLine) && (hasLine ==> Now() == old(Now()))
      ensures n == if hasLine then Min(len, LineLen(Scan(buffer.Content(), max))) else 0
      ensures n <= |buffer.Content()| && buf[..] == buffer.Content()[..n] + old(buf[n..])
    {
      Refresh();
      n := 0;
      if hasLine {
        n := CopyFound(buf, len);
      }
    }

    method CopyFound(buf: array<byte>, len: nat) returns (n: nat)
      requires Valid() && buffer.Valid() && !Stale() && hasLine && buffer.Foreign(buf) && len <= buf.Length
      modifies this, it, buf
      ensures Valid() && buffer.Valid() && !Stale() && Placed(buffer.Cells()) && hasLine && Now() == old(Now())
      ensures n == Min(len, LineLen(Scan(buffer.Content(), max)))
      ensures n <= |buffer.Content()| && buf[..] == buffer.Content()[..n] + old(buf[n..])
    {
      var lineLen := GetLineLen();
      n := CopyKept(buf, len, lineLen);
    }

    // copying changes nothing but the destination
    method CopyKept(buf: array<byte>, len: nat, lineLen: nat) returns (n: nat)
      requires Valid() && buffer.Valid() && !Stale() && Placed(buffer.Cells())
      requires buffer.Foreign(buf) && len <= buf.Length && lineLen <= |buffer.Content()|
      modifies buf
      ensures Valid() && buffer.Valid() && !Stale() && Placed(buffer.Cells())
      ensures n == Min(len, lineLen) && buf[..] == buffer.Content()[..n] + old(buf[n..])
    {
      n := CopyLine(buf, len, lineLen);
    }

    method SeekFound() returns (n: nat)
      requires buffer.Valid() && Placed(buffer.Cells()) && hasLine
      modifies this, it, buffer, buffer.allocator`ledger, buffer.allocator.ledger.spots.Keys, buffer.allocator.ledger.stored.Keys
      ensures Valid() && buffer.Valid() && !Stale() && !hasLine && old(buffer.history) <= buffer.history
      ensures old(buffer.allocator.ledger).Sheds(buffer.allocator.ledger, buffer.pageEnd)
      ensures n == (if buffer.strategy.rejectsSeek then 0 else old(offset) + 1) <= |old(buffer.Content())|
      ensures buffer.Content() == old(buffer.Content())[n..]
    {
      n := buffer.Seek(offset + 1);
      Reset();
    }

    // the line and its terminator taken off the buffer
    method SeekLine() returns (n: nat)
      requires Valid() && buffer.Valid()
      modifies this, it, buffer, buffer.allocator`ledger, buffer.allocator.ledger.spots.Keys, buffer.allocator.ledger.stored.Keys
      ensures Valid() && buffer.Valid() && !Stale() && !hasLine && old(buffer.history) <= buffer.history
      ensures old(buffer.allocator.ledger).Sheds(buffer.allocator.ledger, buffer.pageEnd)
      ensures var known, f := old(!Stale() && hasLine), Scan(old(buffer.Content()), max);
        && (known ==> f.Line? && f.at < |old(buffer.Content())|)
        && n == if known && !buffer.strategy.rejectsSeek then f.at + 1 else 0
      ensures buffer.Content() == old(buffer.Content())[n..]
    {
      Refresh();
      if !hasLine { return 0; }
      n := SeekFound();
    }

    method IsCrlf() returns (cr: bool)
      ensures cr == hasCr
    {
      cr := hasCr;
    }
  }

  ghost predicate AtLine(reader: LineReader)
    reads reader, reader.it, reader.buffer, reader.buffer.allocator, reader.buffer.allocator.ledger.spots.Keys,
      reader.buffer.allocator.ledger.stored.Keys, set d | d in reader.buffer.allocator.ledger.stored :: d.mem
  {
    && reader.buffer.pageEnd in reader.buffer.allocator.ledger.rings
    && forall u {:trigger Shown(u)} :: Shown(u) ==>
      && reader.Valid() && reader.buffer.Valid() && !reader.Stale() && reader.hasLine
      && Scan(reader.buffer.Content(), reader.max) == Line(reader.offset, reader.hasCr)
  }

  lemma AtLineShows(reader: LineReader)
    requires AtLine(reader)
    ensures reader.Valid() && reader.buffer.Valid() && !reader.Stale() && reader.hasLine
    ensures Scan(reader.buffer.Content(), reader.max) == Line(reader.offset, reader.hasCr)
  {
    assert Shown(0);
  }

  // the piece is the first line of c
  predicate Shows(c: seq<byte>, max: nat, piece: Piece) {
    var f := Scan(c, max);
    f.Line? && LineLen(f) <= |c| && piece == Piece(c[..LineLen(f)], f.cr)
  }

  // what is left of c when its first line is taken off
  predicate Leaves(c: seq<byte>, max: nat, c': seq<byte>) {
    var f := Scan(c, max);
    f.Line? && f.at < |c| && c' == c[f.at + 1..]
  }

  predicate Took(c: seq<byte>, max: nat, piece: Piece, c': seq<byte>) {
    Shows(c, max, piece) && Leaves(c, max, c')
  }

  method LineLength(reader: LineReader) returns (n: nat)
    requires AtLine(reader)
    modifies reader, reader.it
    ensures AtLine(reader)
    ensures var f := Scan(reader.buffer.Content(), reader.max); f.Line? && n == LineLen(f)
  {
    AtLineShows(reader);
    n := reader.GetLineLen();
  }

  method LineText(reader: LineReader, n: nat) returns (text: seq<byte>)
    requires AtLine(reader)
    requires var f := Scan(reader.buffer.Content(), reader.max); f.Line? && n == LineLen(f)
    modifies reader, reader.it
    ensures AtLine(reader) && n <= |reader.buffer.Content()| && text == reader.buffer.Content()[..n]
  {
    AtLineShows(reader);
    var buf := new byte[n];
    var got := reader.GetLineData(buf, n);
    text := buf[..];
  }

  // the line copied out
  method CopyOut(reader: LineReader) returns (piece: Piece)
    requires AtLine(reader)
    modifies reader, reader.it
    ensures AtLine(reader)
    ensures Shows(reader.buffer.Content(), reader.max, piece)
  {
    var n := LineLength(reader);
    var text := LineText(reader, n);
    AtLineShows(reader);
    var cr := reader.IsCrlf();
    piece := Piece(text, cr);
  }

  method TakeOff(reader: LineReader)
    requires AtLine(reader) && !reader.buffer.strategy.rejectsSeek
    modifies reader, reader.it, reader.buffer, reader.buffer.allocator`ledger
    modifies reader.buffer.allocator.ledger.spots.Keys, reader.buffer.allocator.ledger.stored.Keys
    ensures reader.Valid() && reader.buffer.Valid()
    ensures old(reader.buffer.allocator.ledger).Sheds(reader.buffer.allocator.ledger, reader.buffer.pageEnd)
    ensures Leaves(old(reader.buffer.Content()), reader.max, reader.buffer.Content())
  {
    AtLineShows(reader);
    var n := reader.SeekLine();
  }

  // a line copied out and taken off
  method ReadLine(reader: LineReader) returns (piece: Piece)
    requires AtLine(reader) && !reader.buffer.strategy.rejectsSeek
    modifies reader, reader.it, reader.buffer, reader.buffer.allocator`ledger
    modifies reader.buffer.allocator.ledger.spots.Keys, reader.buffer.allocator.ledger.stored.Keys
    ensures reader.Valid() && reader.buffer.Valid()
    ensures old(reader.buffer.allocator.ledger).Sheds(reader.buffer.allocator.ledger, reader.buffer.pageEnd)
    ensures Took(old(reader.buffer.Content()), reader.max, piece, reader.buffer.Content())
  {
    piece := CopyOut(reader);
    TakeOff(reader);
  }

  // a search: a line, or the certainty that there is none
  method Find(reader: LineReader) returns (has: bool)
    requires reader.Valid() && reader.buffer.Valid()
    modifies reader, reader.it
    ensures reader.Valid() && reader.buffer.Valid()
    ensures reader.buffer.allocator.ledger == old(reader.buffer.allocator.ledger) && unchanged(reader.buffer)
    ensures if has then AtLine(reader) else Scan(reader.buffer.Content(), reader.max).NoLine?
  {
    has := reader.HasLine();
  }

  method ReadNext(reader: LineReader) returns (piece: Piece, has: bool)
    requires AtLine(reader) && !reader.buffer.strategy.rejectsSeek
    modifies reader, reader.it, reader.buffer, reader.buffer.allocator`ledger
    modifies reader.buffer.allocator.ledger.spots.Keys, reader.buffer.allocator.ledger.stored.Keys
    ensures reader.Valid() && reader.buffer.Valid()
    ensures old(reader.buffer.allocator.ledger).Sheds(reader.buffer.allocator.ledger, reader.buffer.pageEnd)
    ensures if has then AtLine(reader) else Scan(reader.buffer.Content(), reader.max).NoLine?
    ensures Took(old(reader.buffer.Content()), reader.max, piece, reader.buffer.Content())
  {
    piece := ReadLine(reader);
    has := Find(reader);
  }

  // The lines read so far off a content that was c, and whether another one is found.
  ghost predicate Reads(reader: LineReader, c: seq<byte>, pieces: seq<Piece>, has: bool)
    reads reader, reader.it, reader.buffer, reader.buffer.allocator, reader.buffer.allocator.ledger.spots.Keys,
      reader.buffer.allocator.ledger.stored.Keys, set d | d in reader.buffer.allocator.ledger.stored :: d.mem
  {
    forall u {:trigger Shown(u)} :: Shown(u) ==>
      && reader.Valid() && reader.buffer.Valid() && Split(c, reader.max, pieces, reader.buffer.Content())
      && if has then AtLine(reader) else Scan(reader.buffer.Content(), reader.max).NoLine?
  }

  method ReadStep(reader: LineReader, ghost c: seq<byte>, ghost pieces: seq<Piece>) returns (piece: Piece, has: bool)
    requires Reads(reader, c, pieces, true) && !reader.buffer.strategy.rejectsSeek && reader.buffer.pageEnd in reader.buffer.allocator.ledger.rings
    modifies reader, reader.it, reader.buffer, reader.buffer.allocator`ledger
    modifies reader.buffer.allocator.ledger.spots.Keys, reader.buffer.allocator.ledger.stored.Keys
    ensures Reads(reader, c, pieces + [piece], has)
    ensures old(reader.buffer.allocator.ledger).Sheds(reader.buffer.allocator.ledger, reader.buffer.pageEnd)
    ensures |reader.buffer.Content()| < |old(reader.buffer.Content())|
  {
    ReadsShows(reader, c, pieces);
    ghost var was := reader.buffer.Content();
    piece, has := ReadNext(reader);
    SplitTook(c, reader.max, pieces, was, piece, reader.buffer.Content());
    ReadsIs(reader, c, pieces + [piece], has);
  }

  lemma ReadsShows(reader: LineReader, c: seq<byte>, pieces: seq<Piece>)
    requires Reads(reader, c, pieces, true)
    ensures AtLine(reader) && Split(c, reader.max, pieces, reader.buffer.Content())
  {
    assert Shown(0);
  }

  lemma SplitTook(c0: seq<byte>, max: nat, pieces: seq<Piece>, c: seq<byte>, piece: Piece, c': seq<byte>)
    requires Split(c0, max, pieces, c) && Took(c, max, piece, c')
    ensures Split(c0, max, pieces + [piece], c') && |c'| < |c|
  {
    SplitOn(c0, max, pieces, c);
  }

  lemma ReadsIs(reader: LineReader, c: seq<byte>, pieces: seq<Piece>, has: bool)
    requires reader.Valid() && reader.buffer.Valid() && Split(c, reader.max, pieces, reader.buffer.Content())
    requires if has then AtLine(reader) else Scan(reader.buffer.Content(), reader.max).NoLine?
    ensures Reads(reader, c, pieces, has)
  {}

  // Reading lines as long as there are any takes a buffer's content apart into the lines one
  // search of the whole would find, and leaves what has no line in it.
  method ReadLines(reader: LineReader) returns (pieces: seq<Piece>)
    requires reader.Valid() && reader.buffer.Valid() && !reader.buffer.strategy.rejectsSeek
    modifies reader, reader.it, reader.buffer, reader.buffer.allocator`ledger
    modifies reader.buffer.allocator.ledger.spots.Keys, reader.buffer.allocator.ledger.stored.Keys
    ensures reader.Valid() && reader.buffer.Valid()
    ensures pieces == Pieces(old(reader.buffer.Content()), reader.max)
    ensures reader.buffer.Content() == Rest(old(reader.buffer.Content()), reader.max)
  {
    ghost var was, c := reader.buffer.allocator.ledger, reader.buffer.Content();
    pieces := [];
    SplitStarts(c, reader.max);
    var has := Find(reader);
    while has
      invariant was.Sheds(reader.buffer.allocator.ledger, reader.buffer.pageEnd) && Reads(reader, c, pieces, has)
      decreases |reader.buffer.Content()|
    {
      ghost var mid := reader.buffer.allocator.ledger;
      var piece;
      piece, has := ReadStep(reader, c, pieces);
      was.ShedsOn(mid, reader.buffer.allocator.ledger, reader.buffer.pageEnd);
      pieces := pieces + [piece];
    }
    ReadsDone(reader, c, pieces);
  }

  lemma ReadsDone(reader: LineReader, c: seq<byte>, pieces: seq<Piece>)
    requires Reads(reader, c, pieces, false)
    ensures reader.Valid() && reader.buffer.Valid()
    ensures pieces == Pieces(c, reader.max) && reader.buffer.Content() == Rest(c, reader.max)
  {
    assert Shown(0);
    SplitDone(c, reader.max, pieces, reader.buffer.Content());
  }
}
