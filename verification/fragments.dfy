// Sequences of cells as one flat sequence of bytes: what splitting, splicing, narrowing
// and overwriting cells means for the bytes, and what a revision of a buffer promises.
module Fragments {
  import opened Memory
  import opened Sequences
  import opened Ledgers

  // the bytes of cells, one after the other
  ghost function Flat(cs: seq<Cell>): seq<byte> {
    if cs == [] then [] else cs[0].bytes + Flat(cs[1..])
  }

  // no empty page
  ghost predicate Packed(cs: seq<Cell>) {
    forall i | 0 < i < |cs| :: cs[i].bytes != []
  }

  lemma {:induction false} FlatConcat(a: seq<Cell>, b: seq<Cell>)
    ensures Flat(a + b) == Flat(a) + Flat(b)
  {
    if a == [] {
      assert a + b == b;
    } else {
      assert (a + b)[1..] == a[1..] + b;
      FlatConcat(a[1..], b);
    }
  }

  lemma FlatSplit(cs: seq<Cell>, i: nat)
    requires i <= |cs|
    ensures Flat(cs) == Flat(cs[..i]) + Flat(cs[i..])
  {
    assert cs == cs[..i] + cs[i..];
    FlatConcat(cs[..i], cs[i..]);
  }

  lemma FlatOne(c: Cell)
    ensures Flat([c]) == c.bytes
  {
    assert [c][1..] == [];
  }

  lemma FlatSingle(cs: seq<Cell>)
    ensures |cs| == 1 ==> Flat(cs) == cs[0].bytes
  {
    if |cs| == 1 {
      assert cs == [cs[0]];
    }
  }

  lemma FlatMore(cs: seq<Cell>, c: Cell)
    ensures Flat(cs + [c]) == Flat(cs) + c.bytes
  {
    FlatConcat(cs, [c]);
    FlatOne(c);
  }

  lemma FlatHead(cs: seq<Cell>, i: nat)
    requires i < |cs|
    ensures Flat(cs[i..]) == cs[i].bytes + Flat(cs[i + 1..])
  {
    assert cs[i..][1..] == cs[i + 1..];
  }

  lemma FlatAt(cs: seq<Cell>, i: nat)
    requires i < |cs|
    ensures Flat(cs) == Flat(cs[..i]) + (cs[i].bytes + Flat(cs[i + 1..]))
    ensures Flat(cs[..i + 1]) == Flat(cs[..i]) + cs[i].bytes
  {
    FlatSplit(cs, i);
    FlatHead(cs, i);
    FlatNext(cs, i);
  }

  lemma FlatNext(cs: seq<Cell>, i: nat)
    requires i < |cs|
    ensures Flat(cs[..i + 1]) == Flat(cs[..i]) + cs[i].bytes
  {
    assert cs[..i + 1] == cs[..i] + [cs[i]];
    FlatMore(cs[..i], cs[i]);
  }

  // ---- inserting cells at an offset within the k-th one

  // a place in front of the k-th cell or, for o > 0, within it or right behind it
  ghost predicate Gap(cs: seq<Cell>, k: nat, o: nat) {
    k <= |cs| && (o > 0 ==> k < |cs| && o <= |cs[k].bytes|)
  }

  // The halves of a split cell and what was put between them. `left` is the page made for the first half.
  ghost function Spliced(cs: seq<Cell>, k: nat, o: nat, left: Page, added: seq<Cell>): (r: seq<Cell>)
    requires Gap(cs, k, o)
  {
    if added == [] then cs
    else if o == 0 then cs[..k] + added + cs[k..]
    else cs[..k] + [cs[k].Left(left, o)] + added + [cs[k].Right(o)] + cs[k + 1..]
  }

  // the cells once the k-th is cut at o, with nothing put in between yet
  ghost function Gapped(cs: seq<Cell>, k: nat, o: nat, left: Page): seq<Cell>
    requires Gap(cs, k, o)
  {
    if o == 0 then cs else cs[..k] + [cs[k].Left(left, o), cs[k].Right(o)] + cs[k + 1..]
  }

  lemma SplicedFirst(cs: seq<Cell>, k: nat, o: nat, left: Page, c: Cell)
    requires Gap(cs, k, o)
    ensures var g, i := Gapped(cs, k, o, left), k + (if o > 0 then 1 else 0);
      i <= |g| && InsertAt(g, i, c) == Spliced(cs, k, o, left, [c])
  {
  }

  // how many bytes are in front of byte o of the k-th cell
  ghost function Position(cs: seq<Cell>, k: nat, o: nat): nat
    requires k <= |cs|
  {
    |Flat(cs[..k])| + o
  }

  lemma PositionInside(cs: seq<Cell>, k: nat, o: nat)
    requires Gap(cs, k, o)
    ensures Position(cs, k, o) <= |Flat(cs)|
  {
    if o > 0 { FlatAt(cs, k); } else { FlatSplit(cs, k); }
  }

  lemma Cut(a: seq<byte>, l: seq<byte>, r: seq<byte>, z: seq<byte>)
    ensures var s := a + ((l + r) + z); s[..|a| + |l|] == a + l && s[|a| + |l|..] == r + z
  {
  }

  // Whatever cells are cut, splicing inserts bytes at one position of the flat sequence.
  lemma SplicedFlat(cs: seq<Cell>, k: nat, o: nat, left: Page, added: seq<Cell>)
    requires Gap(cs, k, o)
    ensures var p := Position(cs, k, o);
      p <= |Flat(cs)| && Flat(Spliced(cs, k, o, left, added)) == Flat(cs)[..p] + Flat(added) + Flat(cs)[p..]
  {
    PositionInside(cs, k, o);
    var p := Position(cs, k, o);
    if added == [] {
      assert Flat(cs)[..p] + [] + Flat(cs)[p..] == Flat(cs);
    } else if o == 0 {
      FlatSplit(cs, k);
      FlatConcat(cs[..k] + added, cs[k..]);
      FlatConcat(cs[..k], added);
    } else {
      SplitFlat(cs, k, o, left, added);
    }
  }

  lemma FlatFive(a: seq<Cell>, l: Cell, added: seq<Cell>, r: Cell, z: seq<Cell>)
    ensures Flat(a + [l] + added + [r] + z) == Flat(a) + l.bytes + Flat(added) + r.bytes + Flat(z)
  {
    FlatConcat(a + [l] + added + [r], z);
    FlatMore(a + [l] + added, r);
    FlatConcat(a + [l], added);
    FlatMore(a, l);
  }

  lemma Joined(a: seq<byte>, d: seq<byte>, r: seq<byte>, z: seq<byte>)
    ensures a + d + r + z == a + d + (r + z)
  {}

  lemma SplitFlat(cs: seq<Cell>, k: nat, o: nat, left: Page, added: seq<Cell>)
    requires Gap(cs, k, o) && o > 0
    ensures var p := Position(cs, k, o);
      p <= |Flat(cs)| &&
      Flat(cs[..k] + [cs[k].Left(left, o)] + added + [cs[k].Right(o)] + cs[k + 1..]) == Flat(cs)[..p] + Flat(added) + Flat(cs)[p..]
  {
    var a, l, r, z := cs[..k], cs[k].Left(left, o), cs[k].Right(o), cs[k + 1..];
    FlatAt(cs, k);
    TakeDrop(cs[k].bytes, o);
    Cut(Flat(a), l.bytes, r.bytes, Flat(z));
    FlatFive(a, l, added, r, z);
    Joined(Flat(a) + l.bytes, Flat(added), r.bytes, Flat(z));
  }

  lemma TakeDrop(s: seq<byte>, o: nat)
    requires o <= |s|
    ensures s == s[..o] + s[o..]
  {}

  // where the cell after `added` stands
  ghost function After(k: nat, o: nat, added: seq<Cell>): nat {
    k + (if o > 0 && added != [] then 1 else 0) + |added|
  }

  lemma SplicedStep(cs: seq<Cell>, k: nat, o: nat, left: Page, added: seq<Cell>, c: Cell)
    requires Gap(cs, k, o) && added != []
    ensures var s := Spliced(cs, k, o, left, added);
      After(k, o, added) <= |s| && InsertAt(s, After(k, o, added), c) == Spliced(cs, k, o, left, added + [c])
  {
  }

  lemma SplicedAfter(cs: seq<Cell>, k: nat, o: nat, left: Page, added: seq<Cell>)
    requires Gap(cs, k, o)
    ensures var s := Spliced(cs, k, o, left, added);
      && |s| == |cs| + |added| + (if o > 0 && added != [] then 1 else 0)
      && (k < |cs| ==> s[After(k, o, added)].page == cs[k].page)
  {
  }

  // cutting the k-th cell and then linking c in the gap splices c in
  lemma Placed(was: Ledger, mid: Ledger, l: Ledger, e: Page, cs: seq<Cell>, k: nat, o: nat, g: nat, left: Page, c: Cell)
    requires e in was.rings && was.rings[e] == cs && Gap(cs, k, o)
    requires mid.rings == was.rings[e := Gapped(cs, k, o, left)] && was.SameStore(mid)
    requires g == k + (if o > 0 then 1 else 0) && g <= |mid.rings[e]| && mid.Became(l, e, InsertAt(mid.rings[e], g, c))
    ensures was.Became(l, e, Spliced(cs, k, o, left, [c]))
  {
    SplicedFirst(cs, k, o, left, c);
  }

  lemma PlacedSize(was: Ledger, l: Ledger, e: Page, k: nat, o: nat, left: Page, c: Cell)
    requires e in was.rings && Gap(was.rings[e], k, o)
    requires was.Became(l, e, Spliced(was.rings[e], k, o, left, [c]))
    ensures |Flat(l.rings[e])| == |Flat(was.rings[e])| + |c.bytes|
  {
    SplicedFlat(was.rings[e], k, o, left, [c]);
    FlatOne(c);
  }

  // one more cell linked behind those already spliced in
  lemma SplicedOn(was: Ledger, mid: Ledger, l: Ledger, e: Page, cs: seq<Cell>, k: nat, o: nat,
                  left: Page, added: seq<Cell>, left': Page, c: Cell)
    requires e in was.rings && was.rings[e] == cs && Gap(cs, k, o)
    requires mid.rings == was.rings[e := Spliced(cs, k, o, left, added)]
    requires var o' := if added == [] then o else 0;
      Gap(mid.rings[e], After(k, o, added), o') && l.rings == mid.rings[e := Spliced(mid.rings[e], After(k, o, added), o', left', [c])]
    ensures l.rings == was.rings[e := Spliced(cs, k, o, if added == [] then left' else left, added + [c])]
  {
    if added != [] {
      SplicedStep(cs, k, o, left, added, c);
      var s := Spliced(cs, k, o, left, added);
      assert Spliced(s, After(k, o, added), 0, left', [c]) == InsertAt(s, After(k, o, added), c);
    } else {
      assert added + [c] == [c];
    }
  }

  // the page an insertion goes in front of, found again behind what was spliced in
  lemma GapAfter(was: Ledger, l: Ledger, next: Page, o: nat, left: Page, added: seq<Cell>)
    requires was.Valid() && l.Valid() && next in was.spots && was.SpotOK(next)
    requires var e, k := was.spots[next].ring, was.Gap(next);
      Gap(was.rings[e], k, o) && l.rings == was.rings[e := Spliced(was.rings[e], k, o, left, added)]
    ensures next in l.spots && l.SpotOK(next) && l.spots[next].ring == was.spots[next].ring
    ensures l.Gap(next) == After(was.Gap(next), o, added)
  {
    var e, k := was.spots[next].ring, was.Gap(next);
    was.Here(e, was.spots[next].slot);
    SplicedAfter(was.rings[e], k, o, left, added);
    if was.spots[next].slot == 0 {
      was.Here(e, 0);
      l.Here(e, 0);
    } else {
      l.Here(e, After(k, o, added));
    }
  }

  // ---- what one revision of a buffer allows

  // a state of a buffer that can be told from others by its revision
  datatype Snap = Snap(revision: nat, cells: seq<Cell>)

  // From s to t in one buffer: the revision only grows, and as long as it stays,
  // pages are only added behind the last of at least one.
  ghost predicate Evolves(s: Snap, t: Snap) {
    && s.revision <= t.revision
    && (s.revision == t.revision ==> s.cells <= t.cells && (|s.cells| == 1 ==> |t.cells| == 1))
  }

  lemma EvolvesOn(s: Snap, t: Snap, u: Snap)
    requires Evolves(s, t) && Evolves(t, u)
    ensures Evolves(s, u)
  {}

  // one insertion: only at the end of a buffer with data in it may the revision stay
  lemma EvolvesInsert(was: Ledger, l: Ledger, e: Page, r: nat, r': nat, next: Page, o: nat, left: Page, added: seq<Cell>)
    requires was.Valid() && next in was.spots && was.SpotOK(next) && was.spots[next].ring == e && Gap(was.rings[e], was.Gap(next), o)
    requires next == e ==> o == 0
    requires r' == r + if next == e && |Flat(was.rings[e])| > 0 then 0 else 1
    requires l.rings == was.rings[e := Spliced(was.rings[e], was.Gap(next), o, left, added)]
    ensures Evolves(Snap(r, was.rings[e]), Snap(r', l.rings[e]))
  {
    was.Here(e, 0);
    var cs := was.rings[e];
    FlatSingle(cs);
    if next == e && |Flat(cs)| > 0 {
      assert Spliced(cs, |cs|, 0, left, added) == cs + added;
    }
  }

  // ---- the sizes of pages

  ghost predicate Bounded(cs: seq<Cell>, limit: nat) {
    forall i | 0 <= i < |cs| :: 0 < |cs[i].bytes| && (limit == 0 || |cs[i].bytes| <= limit)
  }

  lemma BoundedFlat(cs: seq<Cell>, limit: nat)
    requires Bounded(cs, limit)
    ensures Flat(cs) == [] <==> cs == []
  {}

  lemma BoundedMore(cs: seq<Cell>, c: Cell, limit: nat)
    requires Bounded(cs, limit) && 0 < |c.bytes| && (limit == 0 || |c.bytes| <= limit)
    ensures Bounded(cs + [c], limit)
  {}

  // reading on by n bytes within the i-th cell
  lemma ReadOn(cs: seq<Cell>, i: nat, from: nat, n: nat)
    requires i < |cs| && from + n <= |cs[i].bytes|
    ensures var p := Position(cs, i, from);
      p + n <= |Flat(cs)| && Flat(cs)[..p] + cs[i].bytes[from..from + n] == Flat(cs)[..p + n]
    ensures from + n == |cs[i].bytes| ==> Position(cs, i, from + n) == Position(cs, i + 1, 0)
  {
    FlatAt(cs, i);
    var a, b, z := Flat(cs[..i]), cs[i].bytes, Flat(cs[i + 1..]);
    var p := |a| + from;
    assert Flat(cs)[..p + n] == a + b[..from + n];
    assert Flat(cs)[..p] == a + b[..from];
    assert b[..from] + b[from..from + n] == b[..from + n];
  }

  // `it` is the page at the i-th place of the ring around `end`, or `end` behind the last
  ghost predicate ReadsAt(cs: seq<Cell>, end: Page, it: Page, i: nat) {
    0 < i <= |cs| && it == (if i < |cs| then cs[i].page else end) && (it == end ==> i == |cs|)
  }

  lemma ReadFirst(cs: seq<Cell>)
    requires |cs| > 0 && cs[0].bytes == []
    ensures Position(cs, 1, 0) == 0
  {
    FlatOne(cs[0]);
    assert cs[..1] == [cs[0]];
  }

  lemma ReadAll(cs: seq<Cell>)
    ensures Position(cs, |cs|, 0) == |Flat(cs)|
  {
    assert cs[..|cs|] == cs;
  }

  // ---- reading up to `len` bytes cell by cell: `done` is read, the next byte is at `from` in the i-th cell

  ghost predicate Reading(cs: seq<Cell>, i: nat, from: nat, done: seq<byte>, len: nat) {
    forall u {:trigger Shown(u)} :: Shown(u) ==>
      |done| <= len && done <= Flat(cs) && (|done| < len ==> i <= |cs| && |done| == Position(cs, i, from))
  }

  lemma ReadingStarts(cs: seq<Cell>, len: nat)
    requires |cs| > 0 && cs[0].bytes == []
    ensures Reading(cs, 1, 0, [], len)
  {
    ReadFirst(cs);
  }

  lemma ReadingStartsAt(cs: seq<Cell>, i: nat, from: nat, len: nat)
    requires i <= |cs| && Position(cs, i, from) <= |Flat(cs)|
    ensures Reading(cs, i, from, Flat(cs)[..Position(cs, i, from)], Position(cs, i, from) + len)
  {
  }

  lemma ReadingOn(cs: seq<Cell>, i: nat, from: nat, done: seq<byte>, len: nat, n: nat)
    requires Reading(cs, i, from, done, len)
    requires |done| + n <= len && i < |cs| && from + n <= |cs[i].bytes|
    ensures var done' := done + cs[i].bytes[from..from + n];
      && Reading(cs, i, from + n, done', len)
      && (from + n == |cs[i].bytes| || |done'| == len ==> Reading(cs, i + 1, 0, done', len))
  {
    assert Shown(0);
    ReadOn(cs, i, from, n);
  }

  lemma ReadingShows(cs: seq<Cell>, i: nat, from: nat, done: seq<byte>, len: nat)
    requires Reading(cs, i, from, done, len)
    ensures |done| <= len && done <= Flat(cs)
    ensures i == |cs| && from == 0 && |done| < len ==> done == Flat(cs)
  {
    assert Shown(0);
    ReadAll(cs);
  }

  // ---- a destination filled from the front

  ghost predicate Filled(now: seq<byte>, was: seq<byte>, got: seq<byte>) {
    forall u {:trigger Shown(u)} :: Shown(u) ==> |got| <= |was| && now == got + was[|got|..]
  }

  lemma FilledStarts(was: seq<byte>)
    ensures Filled(was, was, [])
  {}

  lemma FilledOn(now: seq<byte>, now': seq<byte>, was: seq<byte>, got: seq<byte>, piece: seq<byte>)
    requires Filled(now, was, got) && |got| + |piece| <= |now|
    requires now' == now[..|got|] + piece + now[|got| + |piece|..]
    ensures Filled(now', was, got + piece)
  {
    assert Shown(0);
  }

  lemma FilledShows(now: seq<byte>, was: seq<byte>, got: seq<byte>)
    requires Filled(now, was, got)
    ensures |got| <= |was| && now == got + was[|got|..]
  {
    assert Shown(0);
  }

  // Splicing leaves an empty page behind exactly when it cuts at the very end of one.
  lemma SplicedPacked(cs: seq<Cell>, k: nat, o: nat, left: Page, added: seq<Cell>, limit: nat)
    requires Gap(cs, k, o) && Packed(cs) && Bounded(added, limit) && 0 < k
    ensures Packed(Spliced(cs, k, o, left, added)) <==> added == [] || o == 0 || o < |cs[k].bytes|
  {
    var s := Spliced(cs, k, o, left, added);
    if added != [] {
      forall i | k < i < k + |added| ensures s[i].bytes != [] {
        if o == 0 { assert s[i] == added[i - k]; } else { assert s[i] == added[i - k - 1]; }
      }
      if o > 0 {
        assert s[k + |added| + 1] == cs[k].Right(o);
        assert s[k + |added|] == added[|added| - 1];
        forall i | k + |added| + 1 < i < |s| ensures s[i].bytes != [] { assert s[i] == cs[i - |added| - 1]; }
        assert s[k] == cs[k].Left(left, o);
      } else {
        forall i | k + |added| <= i < |s| ensures s[i].bytes != [] { assert s[i] == cs[i - |added|]; }
        assert s[k] == added[0];
      }
    }
  }

  // ---- adding in front

  // ds were put in front of the cells of cs, `added` bytes in all, none of them on a page beyond the limit
  ghost predicate Preceded(cs: seq<Cell>, l: seq<Cell>, limit: nat, added: nat) {
    && |cs| > 0 && |cs| <= |l| && l[0] == cs[0] && l[1 + |l| - |cs|..] == cs[1..]
    && Bounded(l[1..1 + |l| - |cs|], limit) && |Flat(l[1..1 + |l| - |cs|])| == added
  }

  lemma PrecededOn(cs: seq<Cell>, l: seq<Cell>, limit: nat, added: nat, c: Cell)
    requires Preceded(cs, l, limit, added) && 0 < |c.bytes| && (limit == 0 || |c.bytes| <= limit)
    ensures Preceded(cs, InsertAt(l, 1, c), limit, added + |c.bytes|)
  {
    var m := InsertAt(l, 1, c);
    var k := |l| - |cs|;
    assert m[1..2 + k] == [c] + l[1..1 + k];
    assert m[2 + k..] == l[1 + k..];
    FlatConcat([c], l[1..1 + k]);
    FlatOne(c);
  }

  lemma PrecededFlat(cs: seq<Cell>, l: seq<Cell>, limit: nat, added: nat)
    requires Preceded(cs, l, limit, added) && cs[0].bytes == []
    ensures |Flat(l)| == added + |Flat(cs)| && Flat(l)[added..] == Flat(cs)
    ensures Packed(cs) ==> Packed(l)
    ensures added == 0 ==> l == cs
  {
    var k := |l| - |cs|;
    assert l == [l[0]] + (l[1..1 + k] + l[1 + k..]) && cs == [cs[0]] + cs[1..];
    FlatConcat([l[0]], l[1..1 + k] + l[1 + k..]);
    FlatConcat(l[1..1 + k], l[1 + k..]);
    FlatConcat([cs[0]], cs[1..]);
    FlatOne(cs[0]);
    BoundedFlat(l[1..1 + k], limit);
    forall i | Packed(cs) && 0 < i < |l| ensures l[i].bytes != [] {
      if i < 1 + k { assert l[i] == l[1..1 + k][i - 1]; } else { assert l[i] == l[1 + k..][i - 1 - k] == cs[i - k]; }
    }
  }

  // ---- a page made smaller, and dropped once it is empty

  ghost function Shrunk(cs: seq<Cell>, i: nat, c: Cell): seq<Cell>
    requires i < |cs|
  {
    if c.bytes == [] then RemoveAt(cs, i) else cs[i := c]
  }

  lemma ShrunkFlat(cs: seq<Cell>, i: nat, c: Cell)
    requires i < |cs|
    ensures Flat(Shrunk(cs, i, c)) == Flat(cs[..i]) + c.bytes + Flat(cs[i + 1..])
    ensures Packed(cs) ==> Packed(Shrunk(cs, i, c))
  {
    var s := Shrunk(cs, i, c);
    if c.bytes == [] {
      FlatConcat(cs[..i], cs[i + 1..]);
    } else {
      FlatAt(s, i);
      assert s[..i] == cs[..i] && s[i + 1..] == cs[i + 1..];
    }
  }

  // c without its first n bytes, and without its last n
  function Behind(c: Cell, n: nat): Cell
    requires n <= |c.bytes|
  {
    Cell(c.page, c.data, c.off + n, c.bytes[n..])
  }

  function Ahead(c: Cell, n: nat): Cell
    requires n <= |c.bytes|
  {
    Cell(c.page, c.data, c.off, c.bytes[..|c.bytes| - n])
  }

  // cs are the last pages of cs0, the first of them without what is gone from its front.
  ghost predicate BackOf(cs0: seq<Cell>, cs: seq<Cell>) {
    forall u {:trigger Shown(u)} :: Shown(u) ==>
      && 0 < |cs| <= |cs0| && cs[0] == cs0[0] && var d := |cs0| - |cs|;
      && (|cs| > 1 ==> |cs[1].bytes| <= |cs0[1 + d].bytes| && cs[1] == Behind(cs0[1 + d], |cs0[1 + d].bytes| - |cs[1].bytes|))
      && forall i | 1 < i < |cs| :: cs[i] == cs0[i + d]
  }

  lemma BackStarts(cs: seq<Cell>)
    requires |cs| > 0
    ensures BackOf(cs, cs)
  {
    assert |cs| > 1 ==> Behind(cs[1], 0) == cs[1];
  }

  lemma BackOn(cs0: seq<Cell>, cs: seq<Cell>, n: nat)
    requires BackOf(cs0, cs) && |cs| > 1 && n <= |cs[1].bytes|
    ensures BackOf(cs0, Shrunk(cs, 1, Behind(cs[1], n)))
  {
    assert Shown(0);
    var d, s := |cs0| - |cs|, Shrunk(cs, 1, Behind(cs[1], n));
    if n == |cs[1].bytes| {
      assert forall i | 0 < i < |s| :: s[i] == cs[i + 1] == cs0[i + 1 + d];
      assert |s| > 1 ==> Behind(s[1], 0) == s[1];
    } else {
      var c0 := cs0[1 + d];
      var o := |c0.bytes| - |cs[1].bytes|;
      assert c0.bytes[o..][n..] == c0.bytes[o + n..];
    }
  }

  // cs are the first pages of cs0, the last of them without what is gone from its back.
  ghost predicate FrontOf(cs0: seq<Cell>, cs: seq<Cell>) {
    forall u {:trigger Shown(u)} :: Shown(u) ==>
      && 0 < |cs| <= |cs0| && var k := |cs| - 1;
      && |cs[k].bytes| <= |cs0[k].bytes| && cs[k] == Ahead(cs0[k], |cs0[k].bytes| - |cs[k].bytes|)
      && forall i | 0 <= i < k :: cs[i] == cs0[i]
  }

  lemma FrontStarts(cs: seq<Cell>)
    requires |cs| > 0
    ensures FrontOf(cs, cs)
  {
    assert Ahead(cs[|cs| - 1], 0) == cs[|cs| - 1];
  }

  lemma FrontOn(cs0: seq<Cell>, cs: seq<Cell>, n: nat)
    requires FrontOf(cs0, cs) && |cs| > 1 && n <= |cs[|cs| - 1].bytes|
    ensures FrontOf(cs0, Shrunk(cs, |cs| - 1, Ahead(cs[|cs| - 1], n)))
  {
    assert Shown(0);
    var k := |cs| - 1;
    var s := Shrunk(cs, k, Ahead(cs[k], n));
    if n == |cs[k].bytes| {
      assert Ahead(s[k - 1], 0) == s[k - 1];
    } else {
      var c0 := cs0[k];
      assert c0.bytes[..|cs[k].bytes|][..|cs[k].bytes| - n] == c0.bytes[..|cs[k].bytes| - n];
    }
  }

  // taking n bytes off the first page
  lemma DropFirst(cs: seq<Cell>, n: nat, c: Cell)
    requires |cs| > 1 && cs[0].bytes == [] && n <= |cs[1].bytes| && c.bytes == cs[1].bytes[n..]
    ensures n <= |Flat(cs)| && Flat(Shrunk(cs, 1, c)) == Flat(cs)[n..]
  {
    ShrunkFlat(cs, 1, c);
    ReadFirst(cs);
    FlatAt(cs, 1);
  }

  // taking n bytes off the last page
  lemma DropLast(cs: seq<Cell>, n: nat, c: Cell)
    requires |cs| > 1 && var b := cs[|cs| - 1].bytes; n <= |b| && c.bytes == b[..|b| - n]
    ensures n <= |Flat(cs)| && Flat(Shrunk(cs, |cs| - 1, c)) == Flat(cs)[..|Flat(cs)| - n]
  {
    ShrunkFlat(cs, |cs| - 1, c);
    FlatAt(cs, |cs| - 1);
    assert cs[|cs|..] == [];
  }

  // ---- overwriting from the front, cell by cell

  // The first w bytes of cs0 overwritten with those of `src`; the i-th cell is the next one to be written.
  ghost predicate Overwriting(cs0: seq<Cell>, cs: seq<Cell>, src: seq<byte>, i: nat, w: nat) {
    forall u {:trigger Shown(u)} :: Shown(u) ==>
      && w <= |src| && w <= |Flat(cs0)| && Flat(cs) == src[..w] + Flat(cs0)[w..]
      && |cs| == |cs0| && i <= |cs| && cs[i..] == cs0[i..]
      && (forall k | 0 <= k < |cs| :: cs[k].page == cs0[k].page && |cs[k].bytes| == |cs0[k].bytes|)
  }

  lemma OverwritingStarts(cs: seq<Cell>, src: seq<byte>)
    requires |cs| > 0 && cs[0].bytes == []
    ensures Overwriting(cs, cs, src, 1, 0) && Position(cs, 1, 0) == 0
  {
    ReadFirst(cs);
  }

  lemma OverwritingNext(cs0: seq<Cell>, cs: seq<Cell>, src: seq<byte>, i: nat, w: nat)
    requires Overwriting(cs0, cs, src, i, w)
    ensures |cs| == |cs0| && (i < |cs| ==> cs[i] == cs0[i])
  {
    assert Shown(0);
    assert i < |cs| ==> cs[i..][0] == cs[i] && cs0[i..][0] == cs0[i];
  }

  lemma Overlay(all: seq<byte>, src: seq<byte>, b: seq<byte>, z: seq<byte>, w: nat, n: nat)
    requires w + n <= |src| && w <= |all| && all[w..] == b + z && n <= |b|
    ensures w + n <= |all| && src[..w] + ((src[w..w + n] + b[n..]) + z) == src[..w + n] + all[w + n..]
  {
    assert all[w + n..] == all[w..][n..] == b[n..] + z;
    assert src[..w] + src[w..w + n] == src[..w + n];
  }

  lemma OverwritingOn(cs0: seq<Cell>, cs: seq<Cell>, src: seq<byte>, i: nat, w: nat, c: Cell, n: nat)
    requires Overwriting(cs0, cs, src, i, w) && i < |cs| && Position(cs, i, 0) == w
    requires n <= |cs[i].bytes| && w + n <= |src| && c.page == cs[i].page && c.bytes == src[w..w + n] + cs[i].bytes[n..]
    ensures Overwriting(cs0, cs[i := c], src, i + 1, w + n)
    ensures n == |cs[i].bytes| ==> Position(cs[i := c], i + 1, 0) == w + n
  {
    var cs' := cs[i := c];
    assert Shown(0);
    FlatAt(cs, i);
    FlatAt(cs', i);
    assert cs'[..i] == cs[..i] && cs'[i + 1..] == cs[i + 1..] == cs0[i..][1..];
    assert Flat(cs)[w..] == Flat(cs0)[w..] && Flat(cs)[..w] == src[..w];
    Overlay(Flat(cs0), src, cs[i].bytes, Flat(cs[i + 1..]), w, n);
  }

  lemma OverwritingPacked(cs0: seq<Cell>, cs: seq<Cell>, src: seq<byte>, i: nat, w: nat)
    requires Overwriting(cs0, cs, src, i, w) && Packed(cs0)
    ensures Packed(cs) && |Flat(cs)| == |Flat(cs0)|
    ensures w <= |src| && w <= |Flat(cs0)| && Flat(cs) == src[..w] + Flat(cs0)[w..]
  {
    assert Shown(0);
  }

  // ---- a run of a buffer: its states one after the other

  ghost predicate Run(h: seq<Snap>) {
    forall u {:trigger Shown(u)} :: Shown(u) ==> forall i, j | 0 <= i <= j < |h| :: Evolves(h[i], h[j])
  }

  lemma RunStarts(s: Snap)
    ensures Run([s])
  {}

  lemma RunOn(h: seq<Snap>, s: Snap)
    requires Run(h) && h != [] && Evolves(h[|h| - 1], s)
    ensures Run(h + [s])
  {
    assert Shown(0);
    forall i, j | 0 <= i <= j < |h + [s]| ensures Evolves((h + [s])[i], (h + [s])[j]) {
      if i < |h| && j == |h| { EvolvesOn(h[i], h[|h| - 1], s); }
    }
  }

  // As long as the revision stays the earlier pages, windows and bytes stay in front, and an empty buffer stays empty.
  lemma RunPrefix(h: seq<Snap>, i: nat, j: nat)
    requires Run(h) && i <= j < |h| && h[i].revision == h[j].revision
    ensures h[i].cells <= h[j].cells && Flat(h[i].cells) <= Flat(h[j].cells)
    ensures |h[i].cells| == 1 ==> |h[j].cells| == 1
  {
    assert Shown(0);
    assert Evolves(h[i], h[j]);
    assert h[j].cells[..|h[i].cells|] == h[i].cells;
    FlatSplit(h[j].cells, |h[i].cells|);
  }
}
