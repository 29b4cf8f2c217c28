// Reads one after the other of a buffer that does not change: together they are one read.
module Readings {
  import opened Memory
  import opened Sequences
  import opened Ledgers
  import opened Fragments
  import opened TrivialBuffer
  import opened DataReaders

  function Sum(lens: seq<nat>): nat {
    if lens == [] then 0 else Sum(lens[..|lens| - 1]) + lens[|lens| - 1]
  }

  lemma SumOn(lens: seq<nat>, i: nat)
    requires i < |lens|
    ensures Sum(lens[..i + 1]) == Sum(lens[..i]) + lens[i]
  {
    assert lens[..i + 1][..i] == lens[..i];
  }

  // the next read starts where the last one stopped
  ghost predicate Ready(r: DataReader)
    reads r, r.buffer, r.buffer.allocator, r.buffer.allocator.ledger.spots.Keys, r.buffer.allocator.ledger.stored.Keys
    reads set d | d in r.buffer.allocator.ledger.stored :: d.mem
  {
    r.Valid() && r.buffer.Valid() && (r.Stale() || r.Placed(r.buffer.Cells())) && r.Fits()
  }

  lemma StartIn(r: DataReader)
    requires Ready(r)
    ensures r.Start() <= |r.buffer.Content()|
  {
    var cs := r.buffer.Cells();
    if !r.Stale() && r.cell < |cs| {
      FlatAt(cs, if r.Overtaken() then r.cell + 1 else r.cell);
    } else {
      ReadAll(cs);
    }
  }

  lemma Pieces(all: seq<byte>, s: nat, n: nat, m: nat)
    requires s + n + m <= |all|
    ensures all[s..s + n] + all[s + n..s + n + m] == all[s..s + n + m]
  {}

  // one read, from position s of the content on
  method ReadFrom(r: DataReader, buf: array<byte>, len: nat, ghost s: nat, ghost all: seq<byte>) returns (n: nat)
    requires Ready(r) && !(len == 0 && r.Lags()) && r.buffer.Foreign(buf) && len <= buf.Length
    requires s == r.Start() && all == r.buffer.Content()
    modifies r, buf
    ensures Ready(r) && !r.Stale() && !r.Overtaken() && r.buffer.Content() == all
    ensures s <= |all| && n == Min(len, |all| - s) && r.At() == r.Start() == s + n && n <= buf.Length && buf[..n] == all[s..s + n]
  {
    var over;
    n, over := r.Read(buf, len);
  }

  // A read of a bytes and then one of b bytes are a read of a + b bytes. The one exception is a read of
  // nothing by a reader that it leaves overtaken: the next one then starts further on.
  method ReadTwice(r: DataReader, buf: array<byte>, a: nat, more: array<byte>, b: nat) returns (n: nat, m: nat)
    requires Ready(r) && !(a == 0 && r.Lags()) && buf != more
    requires r.buffer.Foreign(buf) && a <= buf.Length && r.buffer.Foreign(more) && b <= more.Length
    modifies r, buf, more
    ensures Ready(r) && !r.Stale() && !r.Overtaken() && r.buffer.Content() == old(r.buffer.Content())
    ensures var s, all := old(r.Start()), r.buffer.Content();
      && s <= |all| && n == Min(a, |all| - s) && n + m == Min(a + b, |all| - s) && r.At() == s + n + m
      && buf[..n] + more[..m] == all[s..s + n + m]
  {
    ghost var s, all := r.Start(), r.buffer.Content();
    n := ReadFrom(r, buf, a, s, all);
    m := ReadFrom(r, more, b, s + n, all);
    Pieces(all, s, n, m);
  }

  // one read more, of what is at `at`, into memory of its own
  method ReadPiece(r: DataReader, len: nat, got: seq<byte>, ghost s: nat, ghost at: nat, ghost all: seq<byte>)
    returns (got': seq<byte>, ghost end: nat)
    requires Ready(r) && !(len == 0 && r.Lags()) && at == r.Start() && s <= at <= |all| && all == r.buffer.Content()
    requires got == all[s..at]
    modifies r
    ensures Ready(r) && !r.Stale() && !r.Overtaken() && r.buffer.Content() == all && r.At() == r.Start() == end
    ensures end == at + Min(len, |all| - at) && got' == all[s..end]
  {
    var buf := new byte[len];
    var n := ReadFrom(r, buf, len, at, all);
    Pieces(all, s, at - s, n);
    got', end := got + buf[..n], at + n;
  }

  // Reads of any lengths deliver the bytes of one read of them all.
  method ReadInPieces(r: DataReader, lens: seq<nat>) returns (got: seq<byte>)
    requires Ready(r) && !r.Lags()
    modifies r
    ensures Ready(r) && !r.Lags() && r.buffer.Content() == old(r.buffer.Content())
    ensures var s, all := old(r.Start()), r.buffer.Content();
      && s <= |all| && got == all[s..s + Min(Sum(lens), |all| - s)]
      && (lens != [] ==> !r.Stale() && !r.Overtaken() && r.At() == s + |got|)
  {
    ghost var s, all, at := r.Start(), r.buffer.Content(), r.Start();
    StartIn(r);
    got := [];
    var i := 0;
    while i < |lens|
      invariant 0 <= i <= |lens| && Ready(r) && !r.Lags() && r.buffer.Content() == all
      invariant s <= at <= |all| && r.Start() == at && at == s + Min(Sum(lens[..i]), |all| - s) && got == all[s..at]
      invariant i > 0 ==> !r.Stale() && !r.Overtaken() && r.At() == at
    {
      got, at := ReadPiece(r, lens[i], got, s, at, all);
      SumOn(lens, i);
      i := i + 1;
    }
    assert lens[..|lens|] == lens;
  }
}
