// All operations of a buffer as edits of one flat sequence of bytes, and what they
// leave alone: every other buffer, whatever pages and regions they share.
module Operations {
  import opened Memory
  import opened Sequences
  import opened Ledgers
  import opened Allocation
  import opened Fragments
  import opened Insertions
  import opened TrivialBuffer

  // `put` in place of the `cut` bytes at `at`
  datatype Edit = Edit(at: nat, cut: nat, put: seq<byte>)
  {
    function Apply(c: seq<byte>): seq<byte>
      requires at + cut <= |c|
    {
      c[..at] + put + c[at + cut..]
    }
  }

  // what is put into a buffer: memory of the caller, copied or lent, or data of another buffer
  datatype Feed = Bytes(data: array<byte>, len: nat, lent: bool) | Pages(src: Buffer, len: nat)
  {
    ghost predicate Ready(b: Buffer)
      reads if Bytes? then {} else {src}, b.allocator, b.allocator.ledger.spots.Keys, b.allocator.ledger.stored.Keys,
        set d | d in b.allocator.ledger.stored :: d.mem
    {
      match this
      case Bytes(data, len, _) => len <= data.Length && data !in b.allocator.ledger.blocks
      case Pages(src, _) => src.allocator == b.allocator && src.pageEnd != b.pageEnd && src.Valid()
    }

    // all there is to put in
    ghost function Whole(): seq<byte>
      requires if Bytes? then len <= data.Length else src.pageEnd in src.allocator.ledger.rings
      reads if Bytes? then {data} else {}, if Bytes? then {} else {src, src.allocator}
    {
      match this
      case Bytes(data, len, _) => data[..len]
      case Pages(src, len) => src.Content()[..Min(len, |src.Content()|)]
    }
  }

  // A place to insert at is given by its position in the content.
  datatype Operation =
    | Insert(p: nat, feed: Feed)
    | Write(feed: Feed)
    | Overwrite(data: array<byte>, len: nat)
    | Extend(len: nat)
    | Reserve(size: nat)
    | Rewind(len: nat)
    | Seek(len: nat)
    | Trim(len: nat)
    | Clear
  {
    // what an operation asks of its caller
    ghost predicate Ready(b: Buffer)
      reads if (Insert? || Write?) && feed.Pages? then {feed.src} else {}
      reads b.allocator, b.allocator.ledger.spots.Keys, b.allocator.ledger.stored.Keys, set d | d in b.allocator.ledger.stored :: d.mem
    {
      && (Insert? || Write? ==> feed.Ready(b))
      && (Overwrite? ==> len <= data.Length && data !in b.allocator.ledger.blocks)
    }

    // What the operation makes of the content c: all that was asked for if it is not rejected and
    // nothing is refused, and otherwise the first part of it.
    ghost predicate Does(strategy: Strategy, c: seq<byte>, whole: seq<byte>, e: Edit, full: bool) {
      match this
      case Insert(p, _) =>
        e.at == Min(p, |c|) && e.cut == 0 && Put(e.put, whole, strategy.rejectsInsert && p < |c|, full)
      case Write(_) => e.at == |c| && e.cut == 0 && Put(e.put, whole, strategy.rejectsWrite, full)
      case Overwrite(_, len) =>
        e.at == 0 && e.cut == |e.put| && Put(e.put, whole[..Min(|whole|, |c|)], strategy.rejectsOverwrite, full)
      case Extend(len) => e.at == |c| && e.cut == 0 && Amount(|e.put|, len, strategy.rejectsExtend, full)
      case Reserve(size) =>
        e.at == |c| && e.cut == 0 && Amount(|e.put|, if size < |c| then 0 else size - |c|, strategy.rejectsExtend, full)
      case Rewind(len) => e.at == 0 && e.cut == 0 && Amount(|e.put|, len, strategy.rejectsRewind, full)
      case Seek(len) => e == Edit(0, if strategy.rejectsSeek then 0 else Min(len, |c|), [])
      case Trim(len) => var k := if strategy.rejectsTrim then 0 else Min(len, |c|); e == Edit(|c| - k, k, [])
      case Clear => e == Edit(0, |c|, [])
    }

    // the caller's bytes, or those of another buffer, that go in
    ghost function Whole(): seq<byte>
      requires Insert? || Write? ==> if feed.Bytes? then feed.len <= feed.data.Length else feed.src.pageEnd in feed.src.allocator.ledger.rings
      requires Overwrite? ==> len <= data.Length
      reads if Overwrite? then {data} else {}, if (Insert? || Write?) && feed.Bytes? then {feed.data} else {}
      reads if (Insert? || Write?) && feed.Pages? then {feed.src, feed.src.allocator} else {}
    {
      if Insert? || Write? then feed.Whole() else if Overwrite? then data[..len] else []
    }

    // data only ever comes behind the last byte
    predicate Appends() {
      Write? || Extend? || Reserve?
    }
  }

  predicate Put(put: seq<byte>, whole: seq<byte>, rejected: bool, full: bool) {
    put <= whole && (rejected ==> put == []) && (full && !rejected ==> put == whole)
  }

  predicate Amount(n: nat, whole: nat, rejected: bool, full: bool) {
    n <= whole && (rejected ==> n == 0) && (full && !rejected ==> n == whole)
  }

  // the page and offset of byte p, or the end, as iterators find it
  method Locate(b: Buffer, p: nat) returns (page: Page, offset: nat)
    requires b.Valid()
    ensures b.Inside(page) && (if page == b.pageEnd then p >= |b.Content()| && offset == 0 else p < |b.Content()| && offset < page.len)
    ensures b.Before(page, offset) == Min(p, |b.Content()|)
    ensures page.prev != null && page.prev in b.allocator.ledger.spots
    ensures page.data != null ==> page.data in b.allocator.ledger.stored
  {
    ghost var cs, i := b.Cells(), 1;
    offset := p;
    page := b.GetIterator();
    ReadFirst(cs);
    while page != b.pageEnd && page.len <= offset
      invariant ReadsAt(cs, b.pageEnd, page, i) && Position(cs, i, 0) + offset == p
      decreases |cs| - i
    {
      b.IteratorAt(page, i);
      FlatAt(cs, i);
      offset := offset - page.len;
      page := page.next;
      i := i + 1;
    }
    if page == b.pageEnd {
      ReadAll(cs);
      b.EndInside();
      b.LastKnown();
      offset := 0;
    } else {
      b.IteratorAt(page, i);
      b.Neighbours(page);
      ReadOn(cs, i, offset, 1);
    }
  }

  // An operation on b done: the edit e of its content, and no change of any other ring.
  twostate predicate Done(b: Buffer, op: Operation, e: Edit)
    requires old(b.Valid()) && old(op.Ready(b))
    reads b, b.allocator, b.allocator.ledger.spots.Keys, b.allocator.ledger.stored.Keys, set d | d in b.allocator.ledger.stored :: d.mem
  {
    var a, c := b.allocator, old(b.Content());
    && b.Valid() && old(b.history) <= b.history && a.Grown() && a.ledger.rings == old(a.ledger.rings)[b.pageEnd := b.Cells()]
    && e.at + e.cut <= |c| && b.Content() == e.Apply(c)
    && op.Does(b.strategy, c, old(op.Whole()), e, a.refusals == old(a.refusals))
  }

  // n bytes of `whole` put in at position p of c
  predicate PutAt(strategy: Strategy, c: seq<byte>, whole: seq<byte>, p: nat, n: nat, c': seq<byte>, full: bool) {
    var at, rejected := Min(p, |c|), strategy.rejectsInsert && p < |c|;
    n <= |whole| && c' == c[..at] + whole[..n] + c[at..] && (rejected ==> n == 0) && (full && !rejected ==> n == |whole|)
  }

  method PutBytes(b: Buffer, p: nat, data: array<byte>, len: nat) returns (n: nat)
    requires b.Valid() && len <= data.Length
    modifies b, b.allocator, b.allocator.ledger.spots.Keys, b.allocator.ledger.stored.Keys
    ensures b.Valid() && old(b.history) <= b.history && b.allocator.Grown()
    ensures b.allocator.ledger.rings == old(b.allocator.ledger.rings)[b.pageEnd := b.Cells()]
    ensures PutAt(b.strategy, old(b.Content()), old(data[..len]), p, n, b.Content(), b.allocator.refusals == old(b.allocator.refusals))
  {
    var page, offset := Locate(b, p);
    ghost var j;
    ghost var was := data[..len];
    n, j := b.InsertData(page, offset, data, len);
    assert data[..n] == was[..n];
  }

  method PutLent(b: Buffer, p: nat, data: array<byte>, len: nat) returns (n: nat)
    requires b.Valid() && len <= data.Length && data !in b.allocator.ledger.blocks
    modifies b, b.allocator, b.allocator.ledger.spots.Keys, b.allocator.ledger.stored.Keys
    ensures b.Valid() && old(b.history) <= b.history && b.allocator.Grown()
    ensures b.allocator.ledger.rings == old(b.allocator.ledger.rings)[b.pageEnd := b.Cells()]
    ensures PutAt(b.strategy, old(b.Content()), old(data[..len]), p, n, b.Content(), b.allocator.refusals == old(b.allocator.refusals))
  {
    var page, offset := Locate(b, p);
    ghost var j;
    ghost var was := data[..len];
    n, j := b.InsertDataRef(page, offset, data, len);
    assert data[..n] == was[..n];
  }

  method PutPages(b: Buffer, p: nat, src: Buffer, len: nat) returns (n: nat)
    requires b.Valid() && src.allocator == b.allocator && src.pageEnd != b.pageEnd && src.Valid()
    modifies b, b.allocator, b.allocator.ledger.spots.Keys, b.allocator.ledger.stored.Keys
    ensures b.Valid() && old(b.history) <= b.history && b.allocator.Grown()
    ensures b.allocator.ledger.rings == old(b.allocator.ledger.rings)[b.pageEnd := b.Cells()]
    ensures PutAt(b.strategy, old(b.Content()), old(src.Content())[..Min(len, |old(src.Content())|)], p, n, b.Content(), b.allocator.refusals == old(b.allocator.refusals))
  {
    var page, offset := Locate(b, p);
    ghost var j;
    ghost var was := src.Content();
    n, j := b.InsertBuffer(page, offset, src, len);
    assert was[..Min(len, |was|)][..n] == was[..n];
  }

  // n bytes of `whole` put behind c
  predicate WroteOut(strategy: Strategy, c: seq<byte>, whole: seq<byte>, n: nat, c': seq<byte>, full: bool) {
    n <= |whole| && c' == c + whole[..n] && (strategy.rejectsWrite ==> n == 0) && (full && !strategy.rejectsWrite ==> n == |whole|)
  }

  method WriteOut(b: Buffer, feed: Feed) returns (n: nat)
    requires b.Valid() && feed.Ready(b)
    modifies b, b.allocator, b.allocator.ledger.spots.Keys, b.allocator.ledger.stored.Keys
    ensures b.Valid() && old(b.history) <= b.history && b.allocator.Grown()
    ensures b.allocator.ledger.rings == old(b.allocator.ledger.rings)[b.pageEnd := b.Cells()]
    ensures WroteOut(b.strategy, old(b.Content()), old(feed.Whole()), n, b.Content(), b.allocator.refusals == old(b.allocator.refusals))
  {
    b.LastKnown();
    match feed {
      case Bytes(data, len, lent) =>
        if lent {
          n := b.WriteDataRef(data, len);
        } else {
          n := b.WriteData(data, len);
        }
      case Pages(src, len) =>
        n := b.WriteBuffer(src, len);
    }
  }

  method Inserting(b: Buffer, op: Operation) returns (ghost e: Edit)
    requires b.Valid() && op.Ready(b) && op.Insert?
    modifies b, b.allocator, b.allocator.ledger.spots.Keys, b.allocator.ledger.stored.Keys
    ensures Done(b, op, e)
  {
    ghost var c, whole := b.Content(), op.Whole();
    var n;
    match op.feed {
      case Bytes(data, len, lent) =>
        if lent {
          n := PutLent(b, op.p, data, len);
        } else {
          n := PutBytes(b, op.p, data, len);
        }
      case Pages(src, len) =>
        n := PutPages(b, op.p, src, len);
    }
    e := Edit(Min(op.p, |c|), 0, whole[..n]);
  }

  method Writing(b: Buffer, op: Operation) returns (ghost e: Edit)
    requires b.Valid() && op.Ready(b) && op.Write?
    modifies b, b.allocator, b.allocator.ledger.spots.Keys, b.allocator.ledger.stored.Keys
    ensures Done(b, op, e)
  {
    ghost var c, whole := b.Content(), op.Whole();
    var n := WriteOut(b, op.feed);
    e := Edit(|c|, 0, whole[..n]);
  }

  // n bytes of `whole` written over the front of c
  predicate WroteOver(strategy: Strategy, c: seq<byte>, whole: seq<byte>, n: nat, c': seq<byte>, full: bool) {
    && n <= |whole| && n <= |c| && c' == whole[..n] + c[n..] && (strategy.rejectsOverwrite ==> n == 0)
    && (full && !strategy.rejectsOverwrite ==> n == Min(|whole|, |c|))
  }

  method WriteOver(b: Buffer, data: array<byte>, len: nat) returns (n: nat)
    requires b.Valid() && len <= data.Length && data !in b.allocator.ledger.blocks
    modifies b, b.allocator, b.allocator.ledger.spots.Keys, b.allocator.ledger.stored.Keys, b.allocator.ledger.blocks.Keys
    ensures b.Valid() && old(b.history) <= b.history && b.allocator.Grown()
    ensures b.allocator.ledger.rings == old(b.allocator.ledger.rings)[b.pageEnd := b.Cells()]
    ensures WroteOver(b.strategy, old(b.Content()), old(data[..len]), n, b.Content(), b.allocator.refusals == old(b.allocator.refusals))
  {
    ghost var was := data[..len];
    n := b.OverwriteData(data, len);
    assert data[..n] == was[..n];
  }

  method Overwriting(b: Buffer, op: Operation) returns (ghost e: Edit)
    requires b.Valid() && op.Ready(b) && op.Overwrite?
    modifies b, b.allocator, b.allocator.ledger.spots.Keys, b.allocator.ledger.stored.Keys, b.allocator.ledger.blocks.Keys
    ensures Done(b, op, e)
  {
    ghost var whole := op.Whole();
    var n := WriteOver(b, op.data, op.len);
    e := Edit(0, n, whole[..n]);
  }

  // n bytes put behind c are an edit at its end
  lemma Behind(c: seq<byte>, c': seq<byte>, n: nat)
    requires |c'| == |c| + n && c <= c'
    ensures |c'[|c|..]| == n && Edit(|c|, 0, c'[|c|..]).Apply(c) == c'
  {}

  method Extending(b: Buffer, op: Operation) returns (ghost e: Edit)
    requires b.Valid() && op.Ready(b) && op.Extend?
    modifies b, b.allocator, b.allocator.ledger.spots.Keys, b.allocator.ledger.stored.Keys
    ensures Done(b, op, e)
  {
    ghost var c := b.Content();
    b.LastKnown();
    var n := b.Extend(op.len);
    Behind(c, b.Content(), n);
    e := Edit(|c|, 0, b.Content()[|c|..]);
  }

  method Reserving(b: Buffer, op: Operation) returns (ghost e: Edit)
    requires b.Valid() && op.Ready(b) && op.Reserve?
    modifies b, b.allocator, b.allocator.ledger.spots.Keys, b.allocator.ledger.stored.Keys
    ensures Done(b, op, e)
  {
    ghost var c := b.Content();
    b.LastKnown();
    var n := b.Reserve(op.size);
    Behind(c, b.Content(), n);
    e := Edit(|c|, 0, b.Content()[|c|..]);
  }

  method Rewinding(b: Buffer, op: Operation) returns (ghost e: Edit)
    requires b.Valid() && op.Ready(b) && op.Rewind?
    modifies b, b.allocator, b.allocator.ledger.spots.Keys, b.allocator.ledger.stored.Keys
    ensures Done(b, op, e)
  {
    ghost var c := b.Content();
    b.FirstKnown();
    var n := b.Rewind(op.len);
    e := Edit(0, 0, b.Content()[..n]);
  }

  method Seeking(b: Buffer, op: Operation) returns (ghost e: Edit)
    requires b.Valid() && op.Ready(b) && op.Seek?
    modifies b, b.allocator, b.allocator.ledger.spots.Keys, b.allocator.ledger.stored.Keys
    ensures Done(b, op, e)
  {
    var n := b.Seek(op.len);
    e := Edit(0, n, []);
  }

  method Trimming(b: Buffer, op: Operation) returns (ghost e: Edit)
    requires b.Valid() && op.Ready(b) && op.Trim?
    modifies b, b.allocator, b.allocator.ledger.spots.Keys, b.allocator.ledger.stored.Keys
    ensures Done(b, op, e)
  {
    ghost var c := b.Content();
    var n := b.Trim(op.len);
    e := Edit(|c| - n, n, []);
  }

  method Clearing(b: Buffer, op: Operation) returns (ghost e: Edit)
    requires b.Valid() && op.Ready(b) && op.Clear?
    modifies b, b.allocator, b.allocator.ledger.spots.Keys, b.allocator.ledger.stored.Keys
    ensures Done(b, op, e)
  {
    ghost var c := b.Content();
    b.Clear();
    e := Edit(0, |c|, []);
  }

  // any operation
  method Perform(b: Buffer, op: Operation) returns (ghost e: Edit)
    requires b.Valid() && op.Ready(b)
    modifies b, b.allocator, b.allocator.ledger.spots.Keys, b.allocator.ledger.stored.Keys, b.allocator.ledger.blocks.Keys
    ensures Done(b, op, e)
  {
    match op {
      case Insert(_, _) => e := Inserting(b, op);
      case Write(_) => e := Writing(b, op);
      case Overwrite(_, _) => e := Overwriting(b, op);
      case Extend(_) => e := Extending(b, op);
      case Reserve(_) => e := Reserving(b, op);
      case Rewind(_) => e := Rewinding(b, op);
      case Seek(_) => e := Seeking(b, op);
      case Trim(_) => e := Trimming(b, op);
      case Clear => e := Clearing(b, op);
    }
  }

  // ---- all buffers of an allocator

  // The buffers live side by side on one heap.
  ghost predicate World(bufs: seq<Buffer>, a: Allocator)
    reads bufs, a, a.ledger.spots.Keys, a.ledger.stored.Keys, set d | d in a.ledger.stored :: d.mem
  {
    forall u {:trigger Shown(u)} :: Shown(u) ==>
      && a.Valid() && a.ledger.held == multiset{}
      && (forall k | 0 <= k < |bufs| :: bufs[k].allocator == a && bufs[k].Valid())
      && (forall i, k | 0 <= i < k < |bufs| :: bufs[i].pageEnd != bufs[k].pageEnd)
  }

  // what the buffers hold
  ghost predicate Holds(bufs: seq<Buffer>, cs: seq<seq<byte>>)
    reads bufs, set b | b in bufs :: b.allocator
  {
    |cs| == |bufs| && forall u {:trigger Shown(u)} :: Shown(u) ==>
      forall k | 0 <= k < |bufs| :: bufs[k].pageEnd in bufs[k].allocator.ledger.rings && bufs[k].Content() == cs[k]
  }

  lemma WorldShows(bufs: seq<Buffer>, a: Allocator, k: nat)
    requires World(bufs, a) && k < |bufs|
    ensures bufs[k].allocator == a && bufs[k].Valid()
    ensures forall i | 0 <= i < |bufs| && i != k :: bufs[i].pageEnd != bufs[k].pageEnd
  {
    assert Shown(0);
  }

  lemma HoldsShows(bufs: seq<Buffer>, cs: seq<seq<byte>>, k: nat)
    requires Holds(bufs, cs) && k < |bufs|
    ensures bufs[k].pageEnd in bufs[k].allocator.ledger.rings && bufs[k].Content() == cs[k]
  {
    assert Shown(0);
  }

  // The histories only grow: whatever stands on a state some buffer has been in still does.
  twostate predicate Onwards(bufs: seq<Buffer>)
    reads bufs
  {
    forall u {:trigger Aged(u)} :: Aged(u) ==> forall k | 0 <= k < |bufs| :: old(bufs[k].history) <= bufs[k].history
  }

  // an operation on one of several buffers
  datatype Turn = Turn(who: nat, op: Operation)

  // The operation works on buffers of this world and on memory of the caller's that holds `mem`.
  ghost predicate Proper(bufs: seq<Buffer>, mem: map<array<byte>, seq<byte>>, t: Turn) {
    && t.who < |bufs|
    && match t.op
       case Insert(_, feed) => Provided(bufs, mem, t.who, feed)
       case Write(feed) => Provided(bufs, mem, t.who, feed)
       case Overwrite(data, len) => data in mem && len <= |mem[data]|
       case _ => true
  }

  ghost predicate Provided(bufs: seq<Buffer>, mem: map<array<byte>, seq<byte>>, who: nat, feed: Feed) {
    match feed
    case Bytes(data, len, _) => data in mem && len <= |mem[data]|
    case Pages(src, _) => exists k :: 0 <= k < |bufs| && k != who && bufs[k] == src
  }

  // the caller's arrays hold what they are said to, and no buffer owns them
  ghost predicate Lends(mem: map<array<byte>, seq<byte>>, a: Allocator)
    reads a, mem.Keys
  {
    forall u {:trigger Shown(u)} :: Shown(u) ==> forall m | m in mem :: m[..] == mem[m] && m !in a.ledger.blocks
  }

  lemma LendsShows(mem: map<array<byte>, seq<byte>>, a: Allocator, m: array<byte>)
    requires Lends(mem, a) && m in mem
    ensures m[..] == mem[m] && m !in a.ledger.blocks
  {
    assert Shown(0);
  }

  // what there is to put in, when the buffers hold cs
  ghost predicate Fed(bufs: seq<Buffer>, mem: map<array<byte>, seq<byte>>, op: Operation, cs: seq<seq<byte>>,
                      whole: seq<byte>) {
    match op
    case Insert(_, feed) => FedBy(bufs, mem, feed, cs, whole)
    case Write(feed) => FedBy(bufs, mem, feed, cs, whole)
    case Overwrite(data, len) => data in mem && len <= |mem[data]| && whole == mem[data][..len]
    case _ => true
  }

  ghost predicate FedBy(bufs: seq<Buffer>, mem: map<array<byte>, seq<byte>>, feed: Feed, cs: seq<seq<byte>>,
                        whole: seq<byte>) {
    match feed
    case Bytes(data, len, _) => data in mem && len <= |mem[data]| && whole == mem[data][..len]
    case Pages(src, len) => exists k :: 0 <= k < |bufs| == |cs| && bufs[k] == src && whole == cs[k][..Min(len, |cs[k]|)]
  }

  // The turn takes buffers that hold cs to buffers that hold cs', by the edit e of one of them.
  ghost predicate Edits(bufs: seq<Buffer>, mem: map<array<byte>, seq<byte>>, t: Turn, cs: seq<seq<byte>>,
                        cs': seq<seq<byte>>,
                        full: bool, e: Edit, whole: seq<byte>)
  {
    && t.who < |bufs| == |cs| && Fed(bufs, mem, t.op, cs, whole) && t.op.Does(bufs[t.who].strategy, cs[t.who], whole, e, full)
    && e.at + e.cut <= |cs[t.who]| && cs' == cs[t.who := e.Apply(cs[t.who])]
  }

  ghost predicate Goes(bufs: seq<Buffer>, mem: map<array<byte>, seq<byte>>, t: Turn, cs: seq<seq<byte>>,
                       cs': seq<seq<byte>>, full: bool) {
    exists e, whole :: Edits(bufs, mem, t, cs, cs', full, e, whole)
  }

  // what was done in full was done
  lemma GoesAnyhow(bufs: seq<Buffer>, mem: map<array<byte>, seq<byte>>, t: Turn, cs: seq<seq<byte>>, cs': seq<seq<byte>>)
    requires Goes(bufs, mem, t, cs, cs', true)
    ensures Goes(bufs, mem, t, cs, cs', false)
  {
    var e, whole :| Edits(bufs, mem, t, cs, cs', true, e, whole);
    assert Edits(bufs, mem, t, cs, cs', false, e, whole);
  }

  lemma ProperReady(bufs: seq<Buffer>, a: Allocator, mem: map<array<byte>, seq<byte>>, t: Turn, cs: seq<seq<byte>>)
    requires World(bufs, a) && Holds(bufs, cs) && Lends(mem, a) && Proper(bufs, mem, t)
    ensures bufs[t.who].allocator == a && t.op.Ready(bufs[t.who]) && Fed(bufs, mem, t.op, cs, t.op.Whole())
  {
    WorldShows(bufs, a, t.who);
    match t.op {
      case Insert(_, feed) => FeedReady(bufs, a, mem, t.who, feed, cs);
      case Write(feed) => FeedReady(bufs, a, mem, t.who, feed, cs);
      case Overwrite(data, len) => LendsShows(mem, a, data);
      case _ =>
    }
  }

  lemma FeedReady(bufs: seq<Buffer>, a: Allocator, mem: map<array<byte>, seq<byte>>, who: nat, feed: Feed,
                  cs: seq<seq<byte>>)
    requires World(bufs, a) && Holds(bufs, cs) && Lends(mem, a) && who < |bufs| && bufs[who].allocator == a && Provided(bufs, mem, who, feed)
    ensures feed.Ready(bufs[who]) && FedBy(bufs, mem, feed, cs, feed.Whole())
  {
    match feed {
      case Bytes(data, len, _) => LendsShows(mem, a, data);
      case Pages(src, len) =>
        var k :| 0 <= k < |bufs| && k != who && bufs[k] == src;
        WorldShows(bufs, a, who);
        WorldShows(bufs, a, k);
        HoldsShows(bufs, cs, k);
    }
  }

  // one operation on the buffer number `who`, and no other buffer touched
  method Work(bufs: seq<Buffer>, a: Allocator, who: nat, op: Operation, ghost cs: seq<seq<byte>>) returns (ghost e: Edit)
    requires World(bufs, a) && Holds(bufs, cs) && who < |bufs| && bufs[who].allocator == a && op.Ready(bufs[who])
    modifies bufs[who], a, a.ledger.spots.Keys, a.ledger.stored.Keys, a.ledger.blocks.Keys
    ensures World(bufs, a) && Onwards(bufs) && a.Grown()
    ensures e.at + e.cut <= |cs[who]| && Holds(bufs, cs[who := e.Apply(cs[who])])
    ensures op.Does(bufs[who].strategy, cs[who], old(op.Whole()), e, a.refusals == old(a.refusals))
  {
    var b := bufs[who];
    WorldShows(bufs, a, who);
    HoldsShows(bufs, cs, who);
    e := Perform(b, op);
    forall k | 0 <= k < |bufs| && k != who
      ensures bufs[k].allocator == a && bufs[k].Valid() && bufs[k].Content() == old(bufs[k].Content())
    {
      assert old(World(bufs, a)) && Shown(0);
      b.Untouched(bufs[k]);
    }
  }

  // one operation on one buffer, as the world of all buffers sees it
  method Step(bufs: seq<Buffer>, a: Allocator, t: Turn, ghost mem: map<array<byte>, seq<byte>>, ghost cs: seq<seq<byte>>)
    returns (ghost cs': seq<seq<byte>>)
    requires World(bufs, a) && Holds(bufs, cs) && Lends(mem, a) && Proper(bufs, mem, t)
    modifies bufs[t.who], a, a.ledger.spots.Keys, a.ledger.stored.Keys, a.ledger.blocks.Keys
    ensures World(bufs, a) && Onwards(bufs) && a.Grown() && Lends(mem, a)
    ensures Holds(bufs, cs') && Goes(bufs, mem, t, cs, cs', a.refusals == old(a.refusals))
  {
    ProperReady(bufs, a, mem, t, cs);
    ghost var whole := t.op.Whole();
    ghost var e := Work(bufs, a, t.who, t.op, cs);
    assert Lends(mem, a) by { assert Shown(0) && Aged(0); }
    cs' := cs[t.who := e.Apply(cs[t.who])];
    assert Edits(bufs, mem, t, cs, cs', a.refusals == old(a.refusals), e, whole);
  }
}
