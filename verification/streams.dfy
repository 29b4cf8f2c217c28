// A buffer as a queue: written at the end and consumed by one reader.
module Streams {
  import opened Memory
  import opened Sequences
  import opened Ledgers
  import opened Allocation
  import opened Fragments
  import opened TrivialBuffer
  import opened DataReaders
  import opened Operations

  // What happens to a buffer that is written at its end and consumed by one reader.
  datatype Event = Wrote(bytes: seq<byte>) | Took(bytes: seq<byte>, asked: nat)

  // the content after the events, from c on
  function After(c: seq<byte>, log: seq<Event>): seq<byte> {
    if log == [] then c
    else
      var m := After(c, log[..|log| - 1]);
      match log[|log| - 1]
      case Wrote(bytes) => m + bytes
      case Took(bytes, _) => if |bytes| <= |m| then m[|bytes|..] else []
  }

  // Whoever took bytes got the first ones there were, as many as asked for or all of them.
  predicate Ordered(c: seq<byte>, log: seq<Event>) {
    log == [] ||
    var m := After(c, log[..|log| - 1]);
    && Ordered(c, log[..|log| - 1])
    && match log[|log| - 1]
       case Wrote(_) => true
       case Took(bytes, asked) => bytes == m[..Min(asked, |m|)]
  }

  function Written(log: seq<Event>): seq<byte> {
    if log == [] then []
    else Written(log[..|log| - 1]) + if log[|log| - 1].Wrote? then log[|log| - 1].bytes else []
  }

  function Taken(log: seq<Event>): seq<byte> {
    if log == [] then []
    else Taken(log[..|log| - 1]) + if log[|log| - 1].Took? then log[|log| - 1].bytes else []
  }

  lemma MoreBehind(t: seq<byte>, m: seq<byte>, c: seq<byte>, w: seq<byte>, b: seq<byte>)
    requires t + m == c + w
    ensures t + (m + b) == c + (w + b)
  {
    assert t + (m + b) == (t + m) + b && c + (w + b) == (c + w) + b;
  }

  lemma MoreTaken(t: seq<byte>, m: seq<byte>, n: nat)
    requires n <= |m|
    ensures (t + m[..n]) + m[n..] == t + m
  {}

  // First in, first out: what was taken and what is left is what there was and what was written.
  lemma {:induction false} FirstInFirstOut(c: seq<byte>, log: seq<Event>)
    requires Ordered(c, log)
    ensures Taken(log) + After(c, log) == c + Written(log)
  {
    if log == [] {
    } else {
      var init, last := log[..|log| - 1], log[|log| - 1];
      var m := After(c, init);
      FirstInFirstOut(c, init);
      match last {
        case Wrote(bytes) =>
          MoreBehind(Taken(init), m, c, Written(init), bytes);
          assert Taken(init) + [] == Taken(init);
        case Took(bytes, asked) =>
          MoreTaken(Taken(init), m, |bytes|);
          assert Written(init) + [] == Written(init);
      }
    }
  }

  // an operation on some buffer, or bytes consumed by the reader of buffer number `me`
  datatype Action = Do(turn: Turn) | Consume(len: nat)

  // Nothing but consuming takes bytes out of the stream or puts them in front.
  predicate Streaming(action: Action, me: nat) {
    action.Do? && action.turn.who == me ==> action.turn.op.Appends()
  }

  // The reader is none the worse for what its buffer went through.
  twostate lemma HeadKept(reader: DataReader)
    requires old(reader.Valid()) && old(reader.buffer.Valid()) && old(reader.AtHead())
    requires unchanged(reader) && reader.buffer.Valid() && old(reader.buffer.history) <= reader.buffer.history
    ensures reader.Valid() && reader.AtHead()
  {
    assert Shown(0);
    var h := reader.buffer.history;
    assert Evolves(h[|old(reader.buffer.history)| - 1], h[|h| - 1]);
  }

  // the reader of buffer number `me`, about to take its first byte
  ghost predicate Heads(bufs: seq<Buffer>, me: nat, reader: DataReader)
    reads bufs, reader
  {
    me < |bufs| && bufs[me] == reader.buffer && reader.Valid() && reader.AtHead()
  }

  // What an action does to the contents, and the event it is for buffer number `me`.
  ghost predicate Happens(bufs: seq<Buffer>, mem: map<array<byte>, seq<byte>>, me: nat, action: Action,
                          cs: seq<seq<byte>>, cs': seq<seq<byte>>, e: Event)
  {
    && me < |bufs| == |cs|
    && match action
       case Do(t) => Goes(bufs, mem, t, cs, cs', false) && |cs'| == |cs| && e.Wrote? && cs'[me] == cs[me] + e.bytes
       case Consume(len) => e == Took(cs[me][..Min(len, |cs[me]|)], len) && cs' == cs[me := cs[me][|e.bytes|..]]
  }

  // an operation that only adds bytes behind the last, or works on another buffer
  lemma GoesBehind(bufs: seq<Buffer>, mem: map<array<byte>, seq<byte>>, me: nat, t: Turn, cs: seq<seq<byte>>,
                   cs': seq<seq<byte>>)
    requires Goes(bufs, mem, t, cs, cs', false) && me < |cs| && (t.who == me ==> t.op.Appends())
    ensures |cs'| == |cs| == |bufs| && cs[me] <= cs'[me] && cs'[me] == cs[me] + cs'[me][|cs[me]|..]
  {
    var e, whole :| Edits(bufs, mem, t, cs, cs', false, e, whole);
    assert cs[t.who][..|cs[t.who]|] == cs[t.who];
  }

  method WriteStep(bufs: seq<Buffer>, a: Allocator, me: nat, reader: DataReader, t: Turn,
                   ghost mem: map<array<byte>, seq<byte>>, ghost cs: seq<seq<byte>>)
    returns (ghost cs': seq<seq<byte>>, ghost e: Event)
    requires World(bufs, a) && Holds(bufs, cs) && Lends(mem, a) && Heads(bufs, me, reader) && Proper(bufs, mem, t) && Streaming(Do(t), me)
    modifies bufs, a, a.ledger.spots.Keys, a.ledger.stored.Keys, a.ledger.blocks.Keys
    ensures World(bufs, a) && Holds(bufs, cs') && Lends(mem, a) && Heads(bufs, me, reader) && a.Grown()
    ensures Happens(bufs, mem, me, Do(t), cs, cs', e)
  {
    WorldShows(bufs, a, me);
    cs' := Step(bufs, a, t, mem, cs);
    if a.refusals == old(a.refusals) { GoesAnyhow(bufs, mem, t, cs, cs'); }
    GoesBehind(bufs, mem, me, t, cs, cs');
    e := Wrote(cs'[me][|cs[me]|..]);
    WorldShows(bufs, a, me);
    assert old(bufs[me].history) <= bufs[me].history by { assert Aged(0); }
    HeadKept(reader);
  }

  // the first bytes of the buffer taken
  method TakeFirst(reader: DataReader, len: nat) returns (ghost e: Event)
    requires reader.Valid() && reader.buffer.Valid() && reader.AtHead() && !reader.buffer.strategy.rejectsSeek
    modifies reader, reader.buffer, reader.buffer.allocator`ledger
    modifies reader.buffer.allocator.ledger.spots.Keys, reader.buffer.allocator.ledger.stored.Keys
    ensures reader.Valid() && reader.buffer.Valid() && reader.AtHead()
    ensures old(reader.buffer.allocator.ledger).Sheds(reader.buffer.allocator.ledger, reader.buffer.pageEnd)
    ensures e == Took(old(reader.buffer.Content())[..Min(len, |old(reader.buffer.Content())|)], len)
    ensures reader.buffer.Content() == old(reader.buffer.Content())[|e.bytes|..]
  {
    reader.HeadStarts();
    var out := new byte[len];
    var n, overrun := reader.Consume(out, len);
    e := Took(out[..n], len);
  }

  method ConsumeStep(bufs: seq<Buffer>, a: Allocator, me: nat, reader: DataReader, len: nat, ghost mem: map<array<byte>,
                     seq<byte>>,
                     ghost cs: seq<seq<byte>>)
    returns (ghost cs': seq<seq<byte>>, ghost e: Event)
    requires World(bufs, a) && Holds(bufs, cs) && Lends(mem, a) && Heads(bufs, me, reader) && !reader.buffer.strategy.rejectsSeek
    modifies reader, bufs[me], a`ledger, a.ledger.spots.Keys, a.ledger.stored.Keys
    ensures World(bufs, a) && Holds(bufs, cs') && Lends(mem, a) && Heads(bufs, me, reader) && a.Grown()
    ensures Happens(bufs, mem, me, Consume(len), cs, cs', e)
  {
    WorldShows(bufs, a, me);
    HoldsShows(bufs, cs, me);
    e := TakeFirst(reader, len);
    cs' := cs[me := cs[me][|e.bytes|..]];
    a.GrownNot();
    assert Lends(mem, a) by { assert Shown(0); }
    forall k | 0 <= k < |bufs| && k != me
      ensures bufs[k].allocator == a && bufs[k].Valid() && bufs[k].Content() == old(bufs[k].Content())
    {
      assert old(World(bufs, a)) && Shown(0);
      bufs[me].Untouched(bufs[k]);
    }
  }

  // the log has one event for each action done, and it is of the kind asked for
  ghost predicate Follows(script: seq<Action>, log: seq<Event>) {
    |log| <= |script| && forall i | 0 <= i < |log| :: if script[i].Do? then log[i].Wrote? else log[i].Took? && log[i].asked == script[i].len
  }

  lemma OnceMore(c: seq<byte>, log: seq<Event>, e: Event)
    requires Ordered(c, log) && (e.Took? ==> e.bytes == After(c, log)[..Min(e.asked, |After(c, log)|)])
    ensures Ordered(c, log + [e])
    ensures After(c, log + [e]) == if e.Wrote? then After(c, log) + e.bytes else After(c, log)[|e.bytes|..]
  {
    assert (log + [e])[..|log|] == log;
  }

  // what became of the contents in the actions so far
  ghost predicate Logged(bufs: seq<Buffer>, mem: map<array<byte>, seq<byte>>, me: nat, script: seq<Action>,
                         trace: seq<seq<seq<byte>>>, log: seq<Event>)
  {
    |trace| == |log| + 1 <= |script| + 1 && forall u {:trigger Shown(u)} :: Shown(u) ==>
      && (forall i | 0 <= i < |log| :: Happens(bufs, mem, me, script[i], trace[i], trace[i + 1], log[i]))
      && me < |trace[0]| && me < |trace[|log|]|
      && Ordered(trace[0][me], log) && trace[|log|][me] == After(trace[0][me], log)
  }

  lemma LoggedOn(bufs: seq<Buffer>, mem: map<array<byte>, seq<byte>>, me: nat, script: seq<Action>,
                 trace: seq<seq<seq<byte>>>, log: seq<Event>, cs: seq<seq<byte>>, e: Event)
    requires Logged(bufs, mem, me, script, trace, log) && |log| < |script|
    requires Happens(bufs, mem, me, script[|log|], trace[|log|], cs, e)
    ensures Logged(bufs, mem, me, script, trace + [cs], log + [e])
  {
    assert Shown(0);
    var ts, es := trace + [cs], log + [e];
    OnceMore(trace[0][me], log, e);
    forall i | 0 <= i < |es| ensures Happens(bufs, mem, me, script[i], ts[i], ts[i + 1], es[i]) {
      if i < |log| { assert Happens(bufs, mem, me, script[i], trace[i], trace[i + 1], log[i]); }
    }
  }

  lemma LoggedShows(bufs: seq<Buffer>, mem: map<array<byte>, seq<byte>>, me: nat, script: seq<Action>,
                    trace: seq<seq<seq<byte>>>, log: seq<Event>)
    requires Logged(bufs, mem, me, script, trace, log)
    ensures me < |trace[0]| && me < |trace[|log|]|
    ensures forall i | 0 <= i < |log| :: Happens(bufs, mem, me, script[i], trace[i], trace[i + 1], log[i])
    ensures Follows(script, log) && Ordered(trace[0][me], log) && trace[|log|][me] == After(trace[0][me], log)
    ensures Taken(log) + trace[|log|][me] == trace[0][me] + Written(log)
  {
    assert Shown(0);
    forall i | 0 <= i < |log| ensures if script[i].Do? then log[i].Wrote? else log[i].Took? && log[i].asked == script[i].len {
      assert Happens(bufs, mem, me, script[i], trace[i], trace[i + 1], log[i]);
    }
    FirstInFirstOut(trace[0][me], log);
  }

  method Act(bufs: seq<Buffer>, a: Allocator, me: nat, reader: DataReader, action: Action,
             ghost mem: map<array<byte>, seq<byte>>, ghost cs: seq<seq<byte>>)
    returns (ghost cs': seq<seq<byte>>, ghost e: Event)
    requires World(bufs, a) && Holds(bufs, cs) && Lends(mem, a) && Heads(bufs, me, reader) && !reader.buffer.strategy.rejectsSeek
    requires (action.Do? ==> Proper(bufs, mem, action.turn)) && Streaming(action, me)
    modifies reader, bufs, a, a.ledger.spots.Keys, a.ledger.stored.Keys, a.ledger.blocks.Keys
    ensures World(bufs, a) && Holds(bufs, cs') && Lends(mem, a) && Heads(bufs, me, reader) && a.Grown()
    ensures Happens(bufs, mem, me, action, cs, cs', e)
  {
    match action {
      case Do(t) => cs', e := WriteStep(bufs, a, me, reader, t, mem, cs);
      case Consume(len) => cs', e := ConsumeStep(bufs, a, me, reader, len, mem, cs);
    }
  }

  // Any run of appends to one buffer, any operations on others, and consuming, refused allocations included:
  // a first-in-first-out queue.
  method Drive(bufs: seq<Buffer>, a: Allocator, me: nat, reader: DataReader, script: seq<Action>,
               ghost mem: map<array<byte>, seq<byte>>, ghost cs: seq<seq<byte>>)
    returns (ghost trace: seq<seq<seq<byte>>>, ghost log: seq<Event>)
    requires World(bufs, a) && Holds(bufs, cs) && Lends(mem, a) && Heads(bufs, me, reader) && !reader.buffer.strategy.rejectsSeek
    requires forall i | 0 <= i < |script| :: (script[i].Do? ==> Proper(bufs, mem, script[i].turn)) && Streaming(script[i], me)
    modifies reader, bufs, a, a.ledger.spots.Keys, a.ledger.stored.Keys, a.ledger.blocks.Keys
    ensures World(bufs, a) && Lends(mem, a) && Heads(bufs, me, reader)
    ensures |trace| == |script| + 1 && |log| == |script| && trace[0] == cs && Holds(bufs, trace[|script|])
    ensures forall i | 0 <= i < |script| :: Happens(bufs, mem, me, script[i], trace[i], trace[i + 1], log[i])
    ensures Follows(script, log) && |cs| == |bufs| == |trace[|script|]| && Ordered(cs[me], log)
    ensures Taken(log) + trace[|script|][me] == cs[me] + Written(log)
  {
    a.GrownNot();
    trace, log := [cs], [];
    var i := 0;
    while i < |script|
      invariant 0 <= i == |log| <= |script| && |trace| == i + 1 && trace[0] == cs
      invariant World(bufs, a) && Holds(bufs, trace[i]) && Lends(mem, a) && Heads(bufs, me, reader) && a.Grown()
      invariant Logged(bufs, mem, me, script, trace, log)
    {
      a.GrownShows();
      ghost var cs', e := Act(bufs, a, me, reader, script[i], mem, trace[i]);
      assert a.Grown() by { assert Aged(0); }
      LoggedOn(bufs, mem, me, script, trace, log, cs', e);
      trace, log, i := trace + [cs'], log + [e], i + 1;
    }
    LoggedShows(bufs, mem, me, script, trace, log);
  }
}
