// A line reader listening while any operations go on, on its own buffer and on others.
module Listening {
  import opened Memory
  import opened Sequences
  import opened Ledgers
  import opened Allocation
  import opened Fragments
  import opened TrivialBuffer
  import opened Operations
  import opened Lines
  import opened LineReaders

  datatype Act = Do(turn: Turn) | Ask

  // what an act does to the contents, and the answer to a question: that of one search over the whole content
  ghost predicate Answers(bufs: seq<Buffer>, mem: map<array<byte>, seq<byte>>, me: nat, max: nat, act: Act,
                          cs: seq<seq<byte>>, cs': seq<seq<byte>>, told: Found)
  {
    && me < |bufs| == |cs|
    && match act
       case Do(t) => Goes(bufs, mem, t, cs, cs', false)
       case Ask => cs' == cs && told == Scan(cs[me], max)
  }

  // what was heard in the acts so far
  ghost predicate Heard(bufs: seq<Buffer>, mem: map<array<byte>, seq<byte>>, me: nat, max: nat, script: seq<Act>,
                        trace: seq<seq<seq<byte>>>, log: seq<Found>)
  {
    |trace| == |log| + 1 <= |script| + 1 && forall u {:trigger Shown(u)} :: Shown(u) ==>
      forall i | 0 <= i < |log| :: Answers(bufs, mem, me, max, script[i], trace[i], trace[i + 1], log[i])
  }

  lemma HeardOn(bufs: seq<Buffer>, mem: map<array<byte>, seq<byte>>, me: nat, max: nat, script: seq<Act>,
                trace: seq<seq<seq<byte>>>, log: seq<Found>, cs: seq<seq<byte>>, told: Found)
    requires Heard(bufs, mem, me, max, script, trace, log) && |log| < |script|
    requires Answers(bufs, mem, me, max, script[|log|], trace[|log|], cs, told)
    ensures Heard(bufs, mem, me, max, script, trace + [cs], log + [told])
  {
    assert Shown(0);
    var ts, ls := trace + [cs], log + [told];
    forall i | 0 <= i < |ls| ensures Answers(bufs, mem, me, max, script[i], ts[i], ts[i + 1], ls[i]) {
      if i < |log| { assert Answers(bufs, mem, me, max, script[i], trace[i], trace[i + 1], log[i]); }
    }
  }

  // the reader is one of buffer number `me`, and knows of a state that one has been in
  ghost predicate Listens(bufs: seq<Buffer>, me: nat, reader: LineReader)
    reads bufs, reader, reader.it
  {
    me < |bufs| && bufs[me] == reader.buffer && reader.Valid()
  }

  method Question(bufs: seq<Buffer>, a: Allocator, me: nat, reader: LineReader, ghost cs: seq<seq<byte>>)
    returns (ghost told: Found)
    requires World(bufs, a) && Holds(bufs, cs) && Listens(bufs, me, reader)
    modifies reader, reader.it
    ensures Listens(bufs, me, reader) && |cs| == |bufs| && told == Scan(cs[me], reader.max)
  {
    WorldShows(bufs, a, me);
    HoldsShows(bufs, cs, me);
    var has := reader.HasLine();
    told := if has then Line(reader.offset, reader.hasCr) else NoLine;
  }

  method TakeTurn(bufs: seq<Buffer>, a: Allocator, me: nat, reader: LineReader, act: Act,
                  ghost mem: map<array<byte>, seq<byte>>, ghost cs: seq<seq<byte>>)
    returns (ghost cs': seq<seq<byte>>, ghost told: Found)
    requires World(bufs, a) && Holds(bufs, cs) && Lends(mem, a) && Listens(bufs, me, reader)
    requires act.Do? ==> Proper(bufs, mem, act.turn)
    modifies reader, reader.it, bufs, a, a.ledger.spots.Keys, a.ledger.stored.Keys, a.ledger.blocks.Keys
    ensures World(bufs, a) && Holds(bufs, cs') && Lends(mem, a) && Listens(bufs, me, reader) && a.Grown()
    ensures Answers(bufs, mem, me, reader.max, act, cs, cs', told)
  {
    match act
    case Do(t) =>
      told := NoLine;
      cs' := Step(bufs, a, t, mem, cs);
      if a.refusals == old(a.refusals) { GoesAnyhow(bufs, mem, t, cs, cs'); }
      assert old(bufs[me].history) <= bufs[me].history by { assert Aged(0); }
      reader.Kept();
    case Ask =>
      cs' := cs;
      told := Question(bufs, a, me, reader, cs);
      a.GrownNot();
  }

  // In any run of operations on any buffers, every answer is that of one search of all the reader's
  // buffer holds by then.
  method Listen(bufs: seq<Buffer>, a: Allocator, me: nat, reader: LineReader, script: seq<Act>,
                ghost mem: map<array<byte>, seq<byte>>, ghost cs: seq<seq<byte>>)
    returns (ghost trace: seq<seq<seq<byte>>>, ghost log: seq<Found>)
    requires World(bufs, a) && Holds(bufs, cs) && Lends(mem, a) && Listens(bufs, me, reader)
    requires forall i | 0 <= i < |script| :: script[i].Do? ==> Proper(bufs, mem, script[i].turn)
    modifies reader, reader.it, bufs, a, a.ledger.spots.Keys, a.ledger.stored.Keys, a.ledger.blocks.Keys
    ensures World(bufs, a) && Lends(mem, a) && Listens(bufs, me, reader)
    ensures |trace| == |script| + 1 && |log| == |script| && trace[0] == cs && Holds(bufs, trace[|script|])
    ensures forall i | 0 <= i < |script| :: Answers(bufs, mem, me, reader.max, script[i], trace[i], trace[i + 1], log[i])
  {
    a.GrownNot();
    trace, log := [cs], [];
    var i := 0;
    while i < |script|
      invariant 0 <= i == |log| <= |script| && |trace| == i + 1 && trace[0] == cs
      invariant World(bufs, a) && Holds(bufs, trace[i]) && Lends(mem, a) && Listens(bufs, me, reader) && a.Grown()
      invariant Heard(bufs, mem, me, reader.max, script, trace, log)
    {
      a.GrownShows();
      ghost var cs', told := TakeTurn(bufs, a, me, reader, script[i], mem, trace[i]);
      assert a.Grown() by { assert Aged(0); }
      HeardOn(bufs, mem, me, reader.max, script, trace, log, cs', told);
      trace, log, i := trace + [cs'], log + [told], i + 1;
    }
    assert Shown(0);
  }
}
