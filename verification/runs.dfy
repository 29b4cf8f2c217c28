// Whole runs: any operations on any buffers that share pages, with readers looking on.
module Runs {
  import opened Memory
  import opened Sequences
  import opened Ledgers
  import opened Allocation
  import opened Fragments
  import opened TrivialBuffer
  import opened Operations
  import opened DataReaders
  import opened LineReaders

  // the contents of all buffers after each turn so far
  ghost predicate Traced(bufs: seq<Buffer>, mem: map<array<byte>, seq<byte>>, script: seq<Turn>,
                         trace: seq<seq<seq<byte>>>, full: bool) {
    0 < |trace| <= |script| + 1 && forall u {:trigger Shown(u)} :: Shown(u) ==>
      forall i | 0 <= i < |trace| - 1 :: Goes(bufs, mem, script[i], trace[i], trace[i + 1], full)
  }

  lemma TracedOn(bufs: seq<Buffer>, mem: map<array<byte>, seq<byte>>, script: seq<Turn>, trace: seq<seq<seq<byte>>>,
                 full: bool,
                 cs: seq<seq<byte>>, now: bool, full': bool)
    requires Traced(bufs, mem, script, trace, full) && |trace| <= |script| && (full' ==> full && now)
    requires Goes(bufs, mem, script[|trace| - 1], trace[|trace| - 1], cs, now)
    ensures Traced(bufs, mem, script, trace + [cs], full')
  {
    assert Shown(0);
    var all := trace + [cs];
    forall i | 0 <= i < |all| - 1 ensures Goes(bufs, mem, script[i], all[i], all[i + 1], full') {
      assert Goes(bufs, mem, script[i], all[i], all[i + 1], if i < |trace| - 1 then full else now);
      if !full' && (if i < |trace| - 1 then full else now) { GoesAnyhow(bufs, mem, script[i], all[i], all[i + 1]); }
    }
  }

  // every reader is about a state its buffer has been in
  ghost predicate Attentive(bufs: seq<Buffer>, readers: set<DataReader>, lines: set<LineReader>)
    reads bufs, readers, lines, set l | l in lines :: l.it
  {
    forall u {:trigger Shown(u)} :: Shown(u) ==>
      && (forall r | r in readers :: r.buffer in bufs && r.Valid())
      && (forall l | l in lines :: l.buffer in bufs && l.Valid())
  }

  lemma AttentiveShows(bufs: seq<Buffer>, readers: set<DataReader>, lines: set<LineReader>)
    requires Attentive(bufs, readers, lines)
    ensures forall r | r in readers :: r.buffer in bufs && r.Valid()
    ensures forall l | l in lines :: l.buffer in bufs && l.Valid()
  {
    assert Shown(0);
  }

  lemma AttentiveIs(bufs: seq<Buffer>, readers: set<DataReader>, lines: set<LineReader>)
    requires forall r | r in readers :: r.buffer in bufs && r.Valid()
    requires forall l | l in lines :: l.buffer in bufs && l.Valid()
    ensures Attentive(bufs, readers, lines)
  {}

  // the pages, of whichever buffers, that name d
  ghost function Naming(a: Allocator, d: Data): set<Page>
    reads a, a.ledger.spots.Keys
  {
    set p | p in a.ledger.spots && p.data == d
  }

  // Every use count is the number of pages that name the region, and there are such pages.
  lemma CountsExact(bufs: seq<Buffer>, a: Allocator)
    requires World(bufs, a)
    ensures forall d | d in a.ledger.stored :: d.useCount == |Naming(a, d)| > 0
  {
    assert Shown(0);
    forall d | d in a.ledger.stored ensures d.useCount == |Naming(a, d)| > 0 {
      UseCountExact(a.ledger, d);
      assert forall p | p in a.ledger.spots :: PageMirrors(a.ledger, p);
      assert Naming(a, d) == set p | p in a.ledger.spots && a.ledger.At(p).data == d;
    }
  }

  method Turned(bufs: seq<Buffer>, a: Allocator, readers: set<DataReader>, lines: set<LineReader>, t: Turn,
                ghost mem: map<array<byte>, seq<byte>>, ghost cs: seq<seq<byte>>)
    returns (ghost cs': seq<seq<byte>>)
    requires World(bufs, a) && Holds(bufs, cs) && Lends(mem, a) && Attentive(bufs, readers, lines) && Proper(bufs, mem, t)
    modifies bufs, a, a.ledger.spots.Keys, a.ledger.stored.Keys, a.ledger.blocks.Keys
    ensures World(bufs, a) && Holds(bufs, cs') && Lends(mem, a) && Attentive(bufs, readers, lines) && a.Grown()
    ensures Goes(bufs, mem, t, cs, cs', a.refusals == old(a.refusals))
  {
    AttentiveShows(bufs, readers, lines);
    cs' := Step(bufs, a, t, mem, cs);
    assert forall b | b in bufs :: old(b.history) <= b.history by { assert Aged(0); }
    forall r | r in readers ensures r.buffer in bufs && r.Valid() { r.Kept(); }
    forall l | l in lines ensures l.buffer in bufs && l.Valid() { l.Kept(); }
    AttentiveIs(bufs, readers, lines);
  }

  // Any operations on any buffers, in any order, refused allocations included: every buffer behaves as a
  // sequence of bytes of its own, whatever pages they share; use counts are exact all along; no reader is lost.
  method Drive(bufs: seq<Buffer>, a: Allocator, readers: set<DataReader>, lines: set<LineReader>, script: seq<Turn>,
               ghost mem: map<array<byte>, seq<byte>>, ghost cs: seq<seq<byte>>)
    returns (ghost trace: seq<seq<seq<byte>>>)
    requires World(bufs, a) && Holds(bufs, cs) && Lends(mem, a) && Attentive(bufs, readers, lines)
    requires forall i | 0 <= i < |script| :: Proper(bufs, mem, script[i])
    modifies bufs, a, a.ledger.spots.Keys, a.ledger.stored.Keys, a.ledger.blocks.Keys
    ensures World(bufs, a) && Lends(mem, a) && Attentive(bufs, readers, lines)
    ensures forall d | d in a.ledger.stored :: d.useCount == |Naming(a, d)| > 0
    ensures |trace| == |script| + 1 && trace[0] == cs && Holds(bufs, trace[|script|])
    ensures forall i | 0 <= i < |script| :: Goes(bufs, mem, script[i], trace[i], trace[i + 1], a.refusals == old(a.refusals))
  {
    a.GrownNot();
    trace := [cs];
    var i := 0;
    while i < |script|
      invariant 0 <= i <= |script| && |trace| == i + 1 && trace[0] == cs
      invariant World(bufs, a) && Holds(bufs, trace[i]) && Lends(mem, a) && a.Grown()
      invariant Attentive(bufs, readers, lines)
      invariant Traced(bufs, mem, script, trace, a.refusals == old(a.refusals))
    {
      a.GrownShows();
      ghost var r := a.refusals;
      ghost var cs' := Turned(bufs, a, readers, lines, script[i], mem, trace[i]);
      assert a.Grown() by { assert Aged(0); }
      assert old(a.refusals) <= r <= a.refusals by { assert Aged(0); }
      TracedOn(bufs, mem, script, trace, r == old(a.refusals), cs', a.refusals == r, a.refusals == old(a.refusals));
      trace, i := trace + [cs'], i + 1;
    }
    CountsExact(bufs, a);
    assert Shown(0);
  }

  // From nothing: as many buffers as there are strategies, unless an allocation is refused.
  method Found(strategies: seq<Strategy>) returns (a: Allocator, bufs: seq<Buffer>)
    ensures fresh(a) && World(bufs, a) && Holds(bufs, seq(|bufs|, _ => []))
    ensures |bufs| <= |strategies| && forall k | 0 <= k < |bufs| :: bufs[k].strategy == strategies[k]
    ensures a.refusals == 0 ==> |bufs| == |strategies|
  {
    a := new Allocator();
    bufs := [];
    while |bufs| < |strategies|
      invariant fresh(a) && World(bufs, a) && Holds(bufs, seq(|bufs|, _ => [])) && a.Valid() && a.ledger.held == multiset{}
      invariant |bufs| <= |strategies| && (forall k | 0 <= k < |bufs| :: bufs[k].strategy == strategies[k]) && a.refusals == 0
    {
      var b := Joined(bufs, a, strategies[|bufs|]);
      if b == null { return; }
      bufs := bufs + [b];
    }
  }

  // one buffer more beside the others
  method Joined(bufs: seq<Buffer>, a: Allocator, strategy: Strategy) returns (b: Buffer?)
    requires World(bufs, a) && Holds(bufs, seq(|bufs|, _ => [])) && a.Valid() && a.ledger.held == multiset{}
    modifies a
    ensures a.Valid() && a.ledger.held == multiset{}
    ensures if b == null then World(bufs, a) && Holds(bufs, seq(|bufs|, _ => [])) && a.refusals > old(a.refusals)
      else World(bufs + [b], a) && Holds(bufs + [b], seq(|bufs| + 1, _ => [])) && b.strategy == strategy && a.refusals == old(a.refusals)
  {
    b := CreateBuffer(a, strategy);
  }

  // one buffer destroyed, and the others as they were
  method Closed(bufs: seq<Buffer>, a: Allocator, k: nat, ghost cs: seq<seq<byte>>) returns (left: seq<Buffer>)
    requires World(bufs, a) && Holds(bufs, cs) && k < |bufs| && bufs[k].allocator == a
    modifies bufs[k], a`ledger, a.ledger.spots.Keys, a.ledger.stored.Keys
    ensures left == RemoveAt(bufs, k) && World(left, a) && Holds(left, RemoveAt(cs, k)) && a.Grown()
  {
    WorldShows(bufs, a, k);
    left := RemoveAt(bufs, k);
    bufs[k].Destroy();
    forall i | 0 <= i < |bufs| && i != k
      ensures bufs[i].allocator == a && bufs[i].Valid() && bufs[i].Content() == cs[i]
    {
      assert old(World(bufs, a)) && old(Holds(bufs, cs)) && Shown(0);
    }
  }
}
