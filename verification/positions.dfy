// The places a byte iterator steps through: the bytes of the pages, and the end.
module Positions {
  import opened Memory
  import opened Sequences
  import opened Ledgers
  import opened Fragments

  // Where a byte iterator can stand in the cells of a ring: on a byte of a page,
  // or on the end, which counts as one past the last cell.
  datatype Place = Place(cell: nat, offset: nat)

  ghost predicate On(cs: seq<Cell>, p: Place) {
    0 < p.cell <= |cs| && if p.cell < |cs| then p.offset < |cs[p.cell].bytes| else p.offset == 0
  }

  ghost predicate Ring(cs: seq<Cell>) {
    |cs| > 0 && cs[0].bytes == [] && Packed(cs)
  }

  function Begin(): Place { Place(1, 0) }

  ghost function Next(cs: seq<Cell>, p: Place): Place
    requires Ring(cs) && On(cs, p)
  {
    if p.cell == |cs| then Begin()
    else if p.offset + 1 < |cs[p.cell].bytes| then Place(p.cell, p.offset + 1)
    else Place(p.cell + 1, 0)
  }

  ghost function Prev(cs: seq<Cell>, p: Place): Place
    requires Ring(cs) && On(cs, p)
  {
    if p.offset > 0 then Place(p.cell, p.offset - 1)
    else if p.cell == 1 then Place(|cs|, 0)
    else Place(p.cell - 1, |cs[p.cell - 1].bytes| - 1)
  }

  ghost function Pos(cs: seq<Cell>, p: Place): nat
    requires On(cs, p)
  {
    Position(cs, p.cell, p.offset)
  }

  lemma PosInside(cs: seq<Cell>, p: Place)
    requires Ring(cs) && On(cs, p)
    ensures Pos(cs, p) <= |Flat(cs)|
    ensures p.cell < |cs| ==> Pos(cs, p) < |Flat(cs)| && Flat(cs)[Pos(cs, p)] == cs[p.cell].bytes[p.offset]
    ensures p.cell == |cs| ==> Pos(cs, p) == |Flat(cs)|
    ensures Pos(cs, p) == 0 <==> p == Begin()
  {
    ReadAll(cs);
    ReadFirst(cs);
    if p.cell < |cs| {
      FlatAt(cs, p.cell);
    }
    if p.cell > 1 {
      Before(cs, 1, p.cell);
    }
  }

  // the bytes in front of a later cell include all those of an earlier one
  lemma {:induction false} Before(cs: seq<Cell>, i: nat, j: nat)
    requires i < j <= |cs|
    ensures Position(cs, i, 0) + |cs[i].bytes| <= Position(cs, j, 0)
    decreases j
  {
    FlatAt(cs, j - 1);
    if i < j - 1 { Before(cs, i, j - 1); }
  }

  // No two places have the same position.
  lemma PosUnique(cs: seq<Cell>, p: Place, q: Place)
    requires Ring(cs) && On(cs, p) && On(cs, q) && Pos(cs, p) == Pos(cs, q)
    ensures p == q
  {
    if p.cell < q.cell {
      Before(cs, p.cell, q.cell);
    } else if q.cell < p.cell {
      Before(cs, q.cell, p.cell);
    }
  }

  // Stepping on goes round the bytes and the end, one position at a time.
  lemma NextPos(cs: seq<Cell>, p: Place)
    requires Ring(cs) && On(cs, p)
    ensures On(cs, Next(cs, p)) && Pos(cs, Next(cs, p)) == if Pos(cs, p) == |Flat(cs)| then 0 else Pos(cs, p) + 1
  {
    PosInside(cs, p);
    PosInside(cs, Next(cs, p));
    if p.cell < |cs| { FlatAt(cs, p.cell); }
  }

  lemma PrevPos(cs: seq<Cell>, p: Place)
    requires Ring(cs) && On(cs, p)
    ensures On(cs, Prev(cs, p)) && Pos(cs, Prev(cs, p)) == if Pos(cs, p) == 0 then |Flat(cs)| else Pos(cs, p) - 1
  {
    PosInside(cs, p);
    PosInside(cs, Prev(cs, p));
    if p.offset == 0 && p.cell > 1 { FlatAt(cs, p.cell - 1); }
  }

  // Stepping on and stepping back undo each other, also across the end.
  lemma StepsUndone(cs: seq<Cell>, p: Place)
    requires Ring(cs) && On(cs, p)
    ensures On(cs, Next(cs, p)) && Prev(cs, Next(cs, p)) == p
    ensures On(cs, Prev(cs, p)) && Next(cs, Prev(cs, p)) == p
  {
    NextPos(cs, p);
    PrevPos(cs, p);
  }

  ghost function Steps(cs: seq<Cell>, n: nat): (p: Place)
    requires Ring(cs)
    ensures On(cs, p)
  {
    if n == 0 then Begin() else var p := Steps(cs, n - 1); NextPos(cs, p); Next(cs, p)
  }

  // The n-th step from the beginning shows the n-th byte, however the bytes are spread over pages.
  lemma {:induction false} StepsShow(cs: seq<Cell>, n: nat)
    requires Ring(cs) && n <= |Flat(cs)|
    ensures Pos(cs, Steps(cs, n)) == n
    ensures n < |Flat(cs)| ==> var p := Steps(cs, n); p.cell < |cs| && cs[p.cell].bytes[p.offset] == Flat(cs)[n]
    ensures n == |Flat(cs)| ==> Steps(cs, n).cell == |cs|
  {
    if n == 0 {
      ReadFirst(cs);
    } else {
      StepsShow(cs, n - 1);
      NextPos(cs, Steps(cs, n - 1));
    }
    PosInside(cs, Steps(cs, n));
  }

  // One step more than there are bytes leads back to the beginning, and from there it all repeats.
  lemma {:induction false} StepsRepeat(cs: seq<Cell>, n: nat)
    requires Ring(cs)
    ensures Steps(cs, n + |Flat(cs)| + 1) == Steps(cs, n)
  {
    if n == 0 {
      StepsShow(cs, |Flat(cs)|);
    } else {
      StepsRepeat(cs, n - 1);
    }
  }
}
