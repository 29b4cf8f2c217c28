// An insertion page by page, as it stands after any number of pages, refused or not.
module Insertions {
  import opened Memory
  import opened Sequences
  import opened Ledgers
  import opened Fragments
  import opened Portions

  // An insertion under way in the ring around `end`: what it started from, where
  // it goes, and what it has brought in so far.
  datatype Insertion = Insertion(end: Page, was: Ledger, start: Snap, next: Page, o: nat, limit: nat,
                                 left: Page, added: seq<Cell>, done: seq<byte>)
  {
    ghost predicate Aims() {
      && was.Valid() && end in was.rings && start.cells == was.rings[end]
      && next in was.spots && was.SpotOK(next) && was.spots[next].ring == end
      && Gap(start.cells, was.Gap(next), o) && (next == end ==> o == 0)
    }

    // The revision afterwards. At the end only the first page of an empty buffer changes it; elsewhere every page does.
    ghost predicate Revises(revision: nat) {
      if next == end then revision == start.revision + if Flat(start.cells) == [] && added != [] then 1 else 0
      else added != [] ==> revision > start.revision
    }

    ghost predicate Stands(l: Ledger, revision: nat) {
      forall i {:trigger Shown(i)} :: Shown(i) ==> Facts(l, revision)
    }

    ghost predicate Facts(l: Ledger, revision: nat) {
      && Aims()
      && l.rings == was.rings[end := Spliced(start.cells, was.Gap(next), o, left, added)]
      && Flat(added) == done && Bounded(added, limit)
      && Evolves(start, Snap(revision, l.rings[end]))
      && Revises(revision)
    }

    // the offset within `next` that is still to be cut
    ghost function Offset(): nat {
      if added == [] then o else 0
    }

    ghost function Place(): nat
      requires next in was.spots && was.SpotOK(next)
    {
      After(was.Gap(next), o, added)
    }

    // all that is added are pages for the first portions of the source, of all portions if that is said
    ghost predicate Delivers(origin: Origin, cs: seq<Cell>, len: nat, all: bool) {
      Delivered(was, origin, cs, len, limit, added, all)
    }

    // the same, and the next page is for byte `from` of the i-th cell on
    ghost predicate Continues(origin: Origin, cs: seq<Cell>, len: nat, i: nat, from: nat, rest: nat) {
      Delivering(was, origin, cs, len, limit, added, i, from, rest)
    }

    // the same job at another point
    ghost predicate Goal(j: Insertion) {
      && j.end == end && j.was == was && j.start == start && j.next == next && j.o == o && j.limit == limit
    }

    ghost function More(first: Page, c: Cell): Insertion {
      this.(left := if added == [] then first else left, added := added + [c], done := done + c.bytes)
    }

    lemma Show(l: Ledger, revision: nat)
      requires Stands(l, revision)
      ensures Facts(l, revision)
    {
      assert Shown(0);
    }

    lemma Sights(l: Ledger, revision: nat)
      requires Stands(l, revision)
      ensures Aims()
    {
      assert Shown(0);
    }

    lemma PlaceFound(l: Ledger)
      requires Aims() && l.Valid()
      requires l.rings == was.rings[end := Spliced(start.cells, was.Gap(next), o, left, added)]
      ensures next in l.spots && l.SpotOK(next) && l.spots[next].ring == end && l.Gap(next) == Place()
    {
      GapAfter(was, l, next, o, left, added);
    }

    // ---- data of a caller going in

    // The first n bytes of src are in, as `origin` says; of blank pages only the lengths count.
    ghost predicate Poured(j0: Insertion, origin: Origin, src: seq<byte>, n: nat) {
      n <= |src| && forall u {:trigger Shown(u)} :: Shown(u) ==>
        && j0.Goal(this) && |done| == n && (origin != Any ==> done == src[..n])
        && Continues(origin, Lump(end, src), |src|, 0, n, |src| - n)
    }

    lemma PourStarts(origin: Origin, src: seq<byte>)
      requires added == [] && done == []
      ensures Poured(this, origin, src, 0)
    {
      DeliveryStarts(was, origin, Lump(end, src), |src|, limit);
    }

    lemma PourOn(j0: Insertion, j: Insertion, origin: Origin, src: seq<byte>, n: nat, n': nat, rest: nat, c: Cell)
      requires Poured(j0, origin, src, n) && n + rest == |src| && rest > 0 && n' == n + Fit(j0.limit, rest)
      requires |c.bytes| == n' - n && (origin != Any ==> c.bytes == src[n..n']) && Rooted(was, origin, n, c)
      requires Goal(j) && j.added == added + [c] && j.done == done + c.bytes
      ensures j.Poured(j0, origin, src, n')
    {
      assert Shown(0);
      TakeMore(src, n, n' - n);
      DeliveryOn(was, origin, Lump(end, src), |src|, limit, added, 0, n, rest, c);
    }

    lemma PourEnds(j0: Insertion, origin: Origin, src: seq<byte>, n: nat)
      requires Poured(j0, origin, src, n)
      ensures j0.Goal(this) && |done| == n && (origin != Any ==> done == src[..n])
      ensures Delivers(origin, Lump(end, src), |src|, n == |src|)
    {
      assert Shown(0);
      DeliveryEnds(was, origin, Lump(end, src), |src|, limit, added, 0, n, |src| - n);
    }

    // ---- data of another buffer going in

    // What is in is the first part of what the ring around e holds; the next byte is at `from` on the page `it`, the i-th.
    ghost predicate Copying(j0: Insertion, e: Page, origin: Origin, it: Page, i: nat, from: nat, len: nat) {
      forall u {:trigger Shown(u)} :: Shown(u) ==>
        && j0.Goal(this) && e != end && e in was.rings && var cs := was.rings[e];
        && Packed(cs) && ReadsAt(cs, e, it, i) && Reading(cs, i, from, done, len) && |done| <= len
        && (|done| < len ==>
          (if i < |cs| then from < |cs[i].bytes| else from == 0) && Continues(origin, cs, len, i, from, len - |done|))
        && Delivers(origin, cs, len, |done| == len)
    }

    lemma CopyStarts(e: Page, origin: Origin, it: Page, len: nat)
      requires added == [] && done == [] && e != end && e in was.rings && ReadsAt(was.rings[e], e, it, 1)
      requires was.rings[e][0].bytes == [] && Packed(was.rings[e])
      ensures Copying(this, e, origin, it, 1, 0, len)
    {
      DeliveryStarts(was, origin, was.rings[e], len, limit);
      DeliveryEnds(was, origin, was.rings[e], len, limit, [], 1, 0, len);
      ReadingStarts(was.rings[e], len);
    }

    lemma CopyAt(j0: Insertion, e: Page, origin: Origin, it: Page, i: nat, from: nat, len: nat)
      requires Copying(j0, e, origin, it, i, from, len)
      ensures j0.Goal(this) && e != end && e in was.rings && ReadsAt(was.rings[e], e, it, i)
      ensures it != e && |done| < len ==> from < |was.rings[e][i].bytes|
    {
      assert Shown(0);
    }

    // one page more: bytes from `from` up to `to` of the i-th; `next` is the page behind
    lemma CopyOn(j0: Insertion, j: Insertion, e: Page, origin: Origin, it: Page, next: Page, i: nat, from: nat, to: nat,
                 rest: nat, len: nat, c: Cell)
      requires Copying(j0, e, origin, it, i, from, len) && |done| + rest == len && rest > 0 && e in was.rings && i < |was.rings[e]|
      requires from < |was.rings[e][i].bytes| && ReadsAt(was.rings[e], e, next, i + 1)
      requires to == from + Fit(j0.limit, Min(|was.rings[e][i].bytes| - from, rest))
      requires |c.bytes| == to - from && Made(was, origin, was.rings[e], Portion(i, from, to - from), c) && origin != Any
      requires Goal(j) && j.added == added + [c] && j.done == done + c.bytes
      ensures to < |was.rings[e][i].bytes| ==> j.Copying(j0, e, origin, it, i, to, len)
      ensures to == |was.rings[e][i].bytes| || |j.done| == len ==> j.Copying(j0, e, origin, next, i + 1, 0, len)
    {
      assert Shown(0);
      var cs := was.rings[e];
      ReadingOn(cs, i, from, done, len, to - from);
      DeliveryOn(was, origin, cs, len, limit, added, i, from, len - |done|, c);
      DeliveryEnds(was, origin, cs, len, limit, j.added, i, to, len - |j.done|);
    }

    // what was copied; all there was to copy, if that is said
    ghost predicate Copied(j0: Insertion, e: Page, origin: Origin, len: nat, all: bool) {
      forall u {:trigger Shown(u)} :: Shown(u) ==>
        && j0.Goal(this) && e in was.rings && |done| <= len && done <= Flat(was.rings[e])
        && Delivers(origin, was.rings[e], len, all)
        && (all ==> |done| == len || done == Flat(was.rings[e]))
    }

    lemma CopyEnds(j0: Insertion, e: Page, origin: Origin, it: Page, i: nat, from: nat, len: nat, all: bool)
      requires Copying(j0, e, origin, it, i, from, len) && (all ==> |done| == len || it == e)
      ensures Copied(j0, e, origin, len, all)
    {
      assert Shown(0);
      var cs := was.rings[e];
      ReadingShows(cs, i, from, done, len);
      if |done| < len { DeliveryEnds(was, origin, cs, len, limit, added, i, from, len - |done|); }
    }

    lemma CopiedShows(j0: Insertion, e: Page, origin: Origin, len: nat, all: bool)
      requires Copied(j0, e, origin, len, all)
      ensures j0.Goal(this) && e in was.rings && Delivers(origin, was.rings[e], len, all)
      ensures var n, src := |done|, Flat(was.rings[e]); n <= len && n <= |src| && done == src[..n] && (all ==> n == Min(len, |src|))
    {
      assert Shown(0);
    }

    // one page refused
    lemma Refused(mid: Ledger, l: Ledger, r: nat, r': nat)
      requires Stands(mid, r) && l.rings == mid.rings && end in mid.rings && next != end && r' == r + 1
      ensures Stands(l, r')
    {
      Show(mid, r);
    }

    // one page more
    lemma Advance(mid: Ledger, l: Ledger, r: nat, r': nat, first: Page, c: Cell)
      requires Stands(mid, r) && Aims() && end in mid.rings && mid.Valid() && c.bytes != [] && (limit == 0 || |c.bytes| <= limit)
      requires r' == r + if next == end && |Flat(mid.rings[end])| > 0 then 0 else 1
      requires Gap(mid.rings[end], Place(), Offset())
      requires l.rings == mid.rings[end := Spliced(mid.rings[end], Place(), Offset(), first, [c])]
      ensures More(first, c).Stands(l, r')
    {
      Show(mid, r);
      SplicedFlat(start.cells, was.Gap(next), o, left, added);
      PlaceFound(mid);
      EvolvesInsert(mid, l, end, r, r', next, Offset(), first, [c]);
      EvolvesOn(start, Snap(r, mid.rings[end]), Snap(r', l.rings[end]));
      SplicedOn(was, mid, l, end, start.cells, was.Gap(next), o, left, added, first, c);
      FlatMore(added, c);
      BoundedMore(added, c, limit);
      BoundedFlat(added, limit);
    }

    // what an insertion comes to, wherever it stops
    lemma Outcome(l: Ledger, revision: nat)
      requires Stands(l, revision) && Packed(start.cells)
      ensures Aims() && end in l.rings && Evolves(start, Snap(revision, l.rings[end]))
      ensures var p := Position(start.cells, was.Gap(next), o);
        p <= |Flat(start.cells)| && Flat(l.rings[end]) == Flat(start.cells)[..p] + done + Flat(start.cells)[p..]
      ensures Packed(l.rings[end]) <==> done == [] || next == end || o < |was.At(next).bytes|
      ensures l.rings == was.rings[end := l.rings[end]] && Brings(l.rings[end]) && Revises(revision)
    {
      Show(l, revision);
      was.Here(end, 0);
      was.Here(end, was.spots[next].slot);
      SplicedFlat(start.cells, was.Gap(next), o, left, added);
      SplicedPacked(start.cells, was.Gap(next), o, left, added, limit);
      BoundedFlat(added, limit);
    }

    // the cells a ring comes to have: those brought in, none of them empty or beyond the limit, spliced into the old ones
    ghost predicate Brings(cs: seq<Cell>) {
      Aims() && cs == Spliced(start.cells, was.Gap(next), o, left, added) && Bounded(added, limit) && Flat(added) == done
    }

    // the other rings are not touched
    lemma Kept(l: Ledger, revision: nat, e: Page)
      requires Stands(l, revision) && e in was.rings && e != end
      ensures e in l.rings && l.rings[e] == was.rings[e] && was.Valid()
    {
      Show(l, revision);
    }
  }
}
