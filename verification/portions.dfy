// How data is cut into pages, and what memory the pages get: what the strategy of a
// buffer and the fragmentation of the source make of it.
module Portions {
  import opened Memory
  import opened Sequences
  import opened Ledgers
  import opened Fragments

  // the bytes of one page: those of cell number `cell` of the source, `len` of them from `from` on
  datatype Portion = Portion(cell: nat, from: nat, len: nat)

  // What a page is made of: bytes of any value or a copy, on memory of its own; memory
  // of a caller in place; the region of a source page.
  datatype Origin = Any | Copy | Lent(mem: array<byte>) | Share

  // as much of `rest` as goes on one page; a limit of 0 is none
  function Fit(limit: nat, rest: nat): nat {
    if limit != 0 && limit < rest then limit else rest
  }

  // What up to `rest` bytes from byte `from` of the i-th cell on are cut into.
  ghost function Plan(cs: seq<Cell>, i: nat, from: nat, rest: nat, limit: nat): seq<Portion>
    decreases |cs| - i, rest
  {
    if rest == 0 || i >= |cs| then []
    else if from >= |cs[i].bytes| then Plan(cs, i + 1, 0, rest, limit)
    else
      var n := Fit(limit, Min(|cs[i].bytes| - from, rest));
      [Portion(i, from, n)] + Plan(cs, i, from + n, rest - n, limit)
  }

  // what the first `len` bytes of the cells are cut into
  ghost function Portions(cs: seq<Cell>, len: nat, limit: nat): seq<Portion> {
    Plan(cs, 0, 0, len, limit)
  }

  // data of a caller as the one cell of a source
  ghost function Lump(p: Page, bytes: seq<byte>): seq<Cell> {
    [Cell(p, null, 0, bytes)]
  }

  // c is on a region that was not there before
  ghost predicate Own(was: Ledger, c: Cell) {
    c.data != null && c.data !in was.stored && c.data.owned && c.off == 0 && c.data.base == 0 && c.data.len == |c.bytes|
  }

  // c shows the caller's memory itself, from byte `at` of the block on
  ghost predicate InPlace(was: Ledger, c: Cell, mem: array<byte>, at: nat) {
    && c.data != null && c.data !in was.stored && !c.data.owned
    && c.data.mem == mem && c.data.base == at && c.data.len == |c.bytes| && c.off == 0
  }

  // what memory a page made of a caller's data is on, from byte `at` of that
  ghost predicate Rooted(was: Ledger, origin: Origin, at: nat, c: Cell) {
    match origin
    case Any => Own(was, c)
    case Copy => Own(was, c)
    case Lent(mem) => InPlace(was, c, mem, at)
    case Share => false
  }

  // how data of another buffer is taken over
  function TakenAs(clone: bool): Origin {
    if clone then Copy else Share
  }

  // c is the page made for the portion p
  ghost predicate Made(was: Ledger, origin: Origin, cs: seq<Cell>, p: Portion, c: Cell) {
    && |c.bytes| == p.len && p.cell < |cs| && p.from + p.len <= |cs[p.cell].bytes|
    && (origin != Any ==> c.bytes == cs[p.cell].bytes[p.from..p.from + p.len])
    && if origin == Share then c.data == cs[p.cell].data && c.off == cs[p.cell].off + p.from else Rooted(was, origin, p.from, c)
  }

  // The cells added are those of the first portions, one page each; of all portions if that is said.
  ghost predicate Delivered(was: Ledger, origin: Origin, cs: seq<Cell>, len: nat, limit: nat, added: seq<Cell>,
                            all: bool) {
    forall u {:trigger Shown(u)} :: Shown(u) ==>
      var ps := Portions(cs, len, limit);
      |added| <= |ps| && (all ==> |added| == |ps|) && forall k | 0 <= k < |added| :: Made(was, origin, cs, ps[k], added[k])
  }

  // delivered so far; the rest of the plan starts at byte `from` of the i-th cell
  ghost predicate Delivering(was: Ledger, origin: Origin, cs: seq<Cell>, len: nat, limit: nat, added: seq<Cell>, i: nat,
                             from: nat, rest: nat) {
    && Delivered(was, origin, cs, len, limit, added, false)
    && forall u {:trigger Shown(u)} :: Shown(u) ==>
      var ps := Portions(cs, len, limit);
      |added| <= |ps| && ps[|added|..] == Plan(cs, i, from, rest, limit)
  }

  lemma DeliveryStarts(was: Ledger, origin: Origin, cs: seq<Cell>, len: nat, limit: nat)
    ensures Delivered(was, origin, cs, len, limit, [], false) && Delivering(was, origin, cs, len, limit, [], 0, 0, len)
    ensures |cs| > 0 && cs[0].bytes == [] ==> Delivering(was, origin, cs, len, limit, [], 1, 0, len)
  {
    var ps := Portions(cs, len, limit);
    assert ps[0..] == ps;
  }

  lemma DeliveryOn(was: Ledger, origin: Origin, cs: seq<Cell>, len: nat, limit: nat, added: seq<Cell>, i: nat,
                   from: nat, rest: nat, c: Cell)
    requires Delivering(was, origin, cs, len, limit, added, i, from, rest) && rest > 0 && i < |cs| && from < |cs[i].bytes|
    requires var n := |c.bytes|;
      n == Fit(limit, Min(|cs[i].bytes| - from, rest)) && Made(was, origin, cs, Portion(i, from, n), c)
    ensures var n := |c.bytes|; n <= rest && Delivering(was, origin, cs, len, limit, added + [c], i, from + n, rest - n)
    ensures from + |c.bytes| == |cs[i].bytes| ==> Delivering(was, origin, cs, len, limit, added + [c], i + 1, 0, rest - |c.bytes|)
  {
    assert Shown(0);
    var ps, k, n := Portions(cs, len, limit), |added|, |c.bytes|;
    var left := Plan(cs, i, from + n, rest - n, limit);
    assert ps[k..] == [Portion(i, from, n)] + left;
    assert ps[k] == ps[k..][0] && ps[k + 1..] == ps[k..][1..] == left;
  }

  lemma DeliveryEnds(was: Ledger, origin: Origin, cs: seq<Cell>, len: nat, limit: nat, added: seq<Cell>, i: nat,
                     from: nat, rest: nat)
    requires Delivering(was, origin, cs, len, limit, added, i, from, rest)
    ensures Delivered(was, origin, cs, len, limit, added, rest == 0 || i >= |cs|)
  {
    assert Shown(0);
  }

  lemma DeliveryShows(was: Ledger, origin: Origin, cs: seq<Cell>, len: nat, limit: nat, added: seq<Cell>, all: bool)
    requires Delivered(was, origin, cs, len, limit, added, all)
    ensures var ps := Portions(cs, len, limit); |added| <= |ps| && (all ==> |added| == |ps|)
    ensures forall k | 0 <= k < |added| :: Made(was, origin, cs, Portions(cs, len, limit)[k], added[k])
  {
    assert Shown(0);
  }

  // ---- the lengths of the pages

  // how many pages of at most `size` bytes it takes; a size of 0 is no limit
  function Pages(whole: nat, size: nat): nat {
    if whole == 0 then 0 else if size == 0 then 1 else (whole + size - 1) / size
  }

  lemma PagesUpTo(whole: nat, size: nat, k: nat)
    requires k < Pages(whole, size)
    ensures k * size < whole
  {
    if size > 0 {
      var q := (whole + size - 1) / size;
      assert q * size <= whole + size - 1;
      assert (k + 1) * size <= q * size;
      assert (k + 1) * size == k * size + size;
    } else {
      assert k * size == 0;
    }
  }

  // All pages are full but the last, which holds what is left.
  function PageLen(whole: nat, size: nat, k: nat): (n: nat)
    requires k < Pages(whole, size)
    ensures 0 < n
  {
    PagesUpTo(whole, size, k);
    if size != 0 && k + 1 < Pages(whole, size) then size else whole - k * size
  }

  // what `whole` bytes of the i-th cell, from byte `from` on, are cut into
  function Cut(i: nat, from: nat, whole: nat, size: nat): seq<Portion> {
    seq(Pages(whole, size), k requires 0 <= k < Pages(whole, size) => Portion(i, from + k * size, PageLen(whole, size, k)))
  }

  lemma PagesNext(whole: nat, size: nat)
    requires 0 < size < whole
    ensures Pages(whole, size) == Pages(whole - size, size) + 1
  {
    var a := whole - 1;
    assert whole + size - 1 == a + size && whole - size + size - 1 == a;
    DivNext(a, size);
  }

  lemma DivNext(a: nat, d: nat)
    requires d > 0
    ensures (a + d) / d == a / d + 1
  {
    var q, r := a / d, a % d;
    assert a + d == (q + 1) * d + r;
    DivIs(a + d, d, q + 1, r);
  }

  lemma DivIs(a: nat, d: nat, q: nat, r: nat)
    requires d > 0 && a == q * d + r && r < d
    ensures a / d == q
  {
    var p := a / d;
    assert a == p * d + a % d;
    assert (p + 1) * d == p * d + d && (q + 1) * d == q * d + d;
    assert p < q ==> (p + 1) * d <= q * d;
    assert q < p ==> (q + 1) * d <= p * d;
  }

  // one page is enough for what fits
  lemma CutOne(i: nat, from: nat, whole: nat, size: nat)
    requires whole > 0 && (size == 0 || whole <= size)
    ensures Cut(i, from, whole, size) == [Portion(i, from, whole)]
  {
    if size > 0 {
      DivIs(whole + size - 1, size, 1, whole - 1);
    }
    assert 0 * size == 0;
  }

  lemma CutNext(i: nat, from: nat, whole: nat, size: nat)
    requires 0 < size < whole
    ensures Cut(i, from, whole, size) == [Portion(i, from, size)] + Cut(i, from + size, whole - size, size)
  {
    PagesNext(whole, size);
    var a, b := Cut(i, from, whole, size), [Portion(i, from, size)] + Cut(i, from + size, whole - size, size);
    forall k | 0 <= k < |a| ensures a[k] == b[k] {
      assert 0 * size == 0;
      if k > 0 { assert k * size == (k - 1) * size + size; }
    }
  }

  // The plan goes through the source cell by cell, and cuts up each by itself.
  lemma {:induction false} PlanCuts(cs: seq<Cell>, i: nat, from: nat, rest: nat, limit: nat)
    requires i < |cs| && from <= |cs[i].bytes|
    ensures var w := Min(|cs[i].bytes| - from, rest);
      Plan(cs, i, from, rest, limit) == Cut(i, from, w, limit) + Plan(cs, i + 1, 0, rest - w, limit)
    decreases rest
  {
    var w := Min(|cs[i].bytes| - from, rest);
    if w > 0 {
      var n := Fit(limit, w);
      PlanCuts(cs, i, from + n, rest - n, limit);
      if limit != 0 && limit < w { CutNext(i, from, w, limit); } else { CutOne(i, from, w, limit); }
    }
  }

  // what the cells from the i-th on are cut into, each by itself
  function Cuts(cs: seq<Cell>, i: nat, rest: nat, limit: nat): seq<Portion>
    decreases |cs| - i
  {
    if i >= |cs| then []
    else
      var w := Min(|cs[i].bytes|, rest);
      Cut(i, 0, w, limit) + Cuts(cs, i + 1, rest - w, limit)
  }

  // Every page of the source is cut by itself into full pages and a rest.
  lemma {:induction false} PortionsAre(cs: seq<Cell>, i: nat, rest: nat, limit: nat)
    requires i <= |cs|
    ensures Plan(cs, i, 0, rest, limit) == Cuts(cs, i, rest, limit)
    ensures i == 0 ==> Portions(cs, rest, limit) == Cuts(cs, 0, rest, limit)
    decreases |cs| - i
  {
    if i < |cs| {
      PlanCuts(cs, i, 0, rest, limit);
      PortionsAre(cs, i + 1, rest - Min(|cs[i].bytes|, rest), limit);
    }
  }

  // The pages are the first of those that `whole` bytes are cut into; all of them if that is said.
  ghost predicate CutEvenly(cells: seq<Cell>, whole: nat, size: nat, all: bool) {
    forall u {:trigger Shown(u)} :: Shown(u) ==>
      && |cells| <= Pages(whole, size) && (all ==> |cells| == Pages(whole, size))
      && forall k | 0 <= k < |cells| :: |cells[k].bytes| == PageLen(whole, size, k)
  }

  // Pages that are not shared and not lent are each on a region that was not there before.
  lemma DeliveredOwn(was: Ledger, origin: Origin, cs: seq<Cell>, len: nat, limit: nat, added: seq<Cell>, all: bool)
    requires Delivered(was, origin, cs, len, limit, added, all) && (origin == Any || origin == Copy)
    ensures forall k | 0 <= k < |added| :: Own(was, added[k])
  {
    DeliveryShows(was, origin, cs, len, limit, added, all);
    forall k | 0 <= k < |added| ensures Own(was, added[k]) {
      assert Made(was, origin, cs, Portions(cs, len, limit)[k], added[k]);
    }
  }

  // Data of a caller goes on full pages and one for what is left.
  lemma LumpEvenly(was: Ledger, origin: Origin, page: Page, bytes: seq<byte>, limit: nat, added: seq<Cell>, all: bool)
    requires Delivered(was, origin, Lump(page, bytes), |bytes|, limit, added, all)
    ensures CutEvenly(added, |bytes|, limit, all)
  {
    DeliveryShows(was, origin, Lump(page, bytes), |bytes|, limit, added, all);
    PlanCuts(Lump(page, bytes), 0, 0, |bytes|, limit);
  }

  // ---- without a limit: the fragmentation of the source

  lemma PositionGrows(cs: seq<Cell>, i: nat, j: nat)
    requires i <= j <= |cs|
    ensures Position(cs, i, 0) <= Position(cs, j, 0)
  {
    assert cs[..j] == cs[..i] + cs[i..j];
    FlatConcat(cs[..i], cs[i..j]);
  }

  // how many of the first `len` bytes lie on the i-th page
  ghost function Contribution(cs: seq<Cell>, i: nat, len: nat): nat
    requires i < |cs|
  {
    PositionGrows(cs, i, i + 1);
    Min(len, Position(cs, i + 1, 0)) - Min(len, Position(cs, i, 0))
  }

  // p is the j-th page, as far as byte `end` of the content
  ghost predicate WholeAt(cs: seq<Cell>, p: Portion, j: nat, end: nat) {
    j < |cs| && Position(cs, j, 0) < end && p == Portion(j, 0, Min(|cs[j].bytes|, end - Position(cs, j, 0)))
  }

  // ps are the pages from the i-th on, as far as `rest` bytes reach, the last one cut to what is left.
  ghost predicate Whole(cs: seq<Cell>, ps: seq<Portion>, i: nat, rest: nat)
    requires i <= |cs|
  {
    var end := Position(cs, i, 0) + rest;
    && i + |ps| <= |cs| && (i + |ps| < |cs| ==> Position(cs, i + |ps|, 0) >= end)
    && forall k | 0 <= k < |ps| :: WholeAt(cs, ps[k], i + k, end)
  }

  lemma WholeMore(cs: seq<Cell>, ps: seq<Portion>, i: nat, rest: nat)
    requires i < |cs| && rest > 0
    requires var n := Min(|cs[i].bytes|, rest); Whole(cs, ps, i + 1, rest - n) && (n == rest ==> ps == [])
    ensures Whole(cs, [Portion(i, 0, Min(|cs[i].bytes|, rest))] + ps, i, rest)
  {
    FlatNext(cs, i);
    var all, end := [Portion(i, 0, Min(|cs[i].bytes|, rest))] + ps, Position(cs, i, 0) + rest;
    forall k | 0 <= k < |all| ensures WholeAt(cs, all[k], i + k, end) {
      if k > 0 { assert WholeAt(cs, ps[k - 1], i + 1 + (k - 1), Position(cs, i + 1, 0) + (rest - |cs[i].bytes|)); }
    }
  }

  lemma {:induction false} WholePages(cs: seq<Cell>, i: nat, rest: nat)
    requires Packed(cs) && 0 < i <= |cs|
    ensures Whole(cs, Plan(cs, i, 0, rest, 0), i, rest)
    decreases |cs| - i
  {
    if rest > 0 && i < |cs| {
      var n := Min(|cs[i].bytes|, rest);
      WholePages(cs, i + 1, rest - n);
      assert Plan(cs, i, n, rest - n, 0) == Plan(cs, i + 1, 0, rest - n, 0);
      WholeMore(cs, Plan(cs, i + 1, 0, rest - n, 0), i, rest);
    }
  }

  // Without a limit the n-th page put in is the n-th page of the source, whole but for the last, which
  // is cut to what was asked for.
  lemma SourcePages(cs: seq<Cell>, len: nat)
    requires |cs| > 0 && cs[0].bytes == [] && Packed(cs)
    ensures var ps := Portions(cs, len, 0);
      && |ps| < |cs|
      && (forall k | 0 <= k < |ps| :: ps[k] == Portion(k + 1, 0, Contribution(cs, k + 1, len)) && ps[k].len > 0)
      && (forall k | 0 <= k < |ps| - 1 :: ps[k].len == |cs[k + 1].bytes|)
      && (forall i | |ps| < i < |cs| :: Contribution(cs, i, len) == 0)
  {
    var ps := Portions(cs, len, 0);
    assert ps == Plan(cs, 1, 0, len, 0);
    ReadFirst(cs);
    WholePages(cs, 1, len);
    forall k | 0 <= k < |ps|
      ensures ps[k] == Portion(k + 1, 0, Contribution(cs, k + 1, len)) && ps[k].len > 0
      ensures k < |ps| - 1 ==> ps[k].len == |cs[k + 1].bytes|
    {
      FlatNext(cs, k + 1);
      assert WholeAt(cs, ps[k], 1 + k, len);
      if k + 1 < |ps| { assert WholeAt(cs, ps[k + 1], 1 + (k + 1), len); }
    }
    forall i | |ps| < i < |cs| ensures Contribution(cs, i, len) == 0 {
      PositionGrows(cs, |ps| + 1, i);
      PositionGrows(cs, i, i + 1);
    }
  }

  // data of a caller that goes on one page
  lemma OnePortion(page: Page, bytes: seq<byte>, limit: nat)
    requires bytes != [] && (limit == 0 || |bytes| <= limit)
    ensures Portions(Lump(page, bytes), |bytes|, limit) == [Portion(0, 0, |bytes|)]
  {
    var cs := Lump(page, bytes);
    assert Plan(cs, 0, |bytes|, 0, limit) == [];
  }

  // Pages put in without a limit are those of the source: the same bytes, but for the last one cut short,
  // and the very region and offset of the source page, or a region of their own.
  lemma UncutPages(was: Ledger, origin: Origin, cs: seq<Cell>, len: nat, added: seq<Cell>, all: bool)
    requires |cs| > 0 && cs[0].bytes == [] && Packed(cs) && Delivered(was, origin, cs, len, 0, added, all)
    requires origin == Share || origin == Copy
    ensures |added| < |cs| && (all ==> forall i | |added| < i < |cs| :: Contribution(cs, i, len) == 0)
    ensures forall k | 0 <= k < |added| ::
      var s, c := cs[k + 1], added[k];
      && 0 < |c.bytes| == Contribution(cs, k + 1, len) <= |s.bytes| && c.bytes == s.bytes[..|c.bytes|]
      && (k + 1 < |added| ==> c.bytes == s.bytes)
      && if origin == Share then c.data == s.data && c.off == s.off else Own(was, c)
  {
    DeliveryShows(was, origin, cs, len, 0, added, all);
    SourcePages(cs, len);
    forall k | 0 <= k < |added| ensures Made(was, origin, cs, Portion(k + 1, 0, Contribution(cs, k + 1, len)), added[k]) {
      assert Made(was, origin, cs, Portions(cs, len, 0)[k], added[k]);
    }
  }

  // no page of the source gives more than `size` of the first `len` bytes
  ghost predicate Within(cs: seq<Cell>, len: nat, size: nat) {
    forall i | 0 <= i < |cs| :: Contribution(cs, i, len) <= size
  }

  // Uncut pages keep to a page size exactly when no page of the source gives more than that.
  lemma WithinIff(was: Ledger, origin: Origin, cs: seq<Cell>, len: nat, added: seq<Cell>, size: nat)
    requires |cs| > 0 && cs[0].bytes == [] && Packed(cs) && size > 0 && (origin == Share || origin == Copy)
    requires Delivered(was, origin, cs, len, 0, added, true)
    ensures Bounded(added, size) <==> Within(cs, len, size)
  {
    UncutPages(was, origin, cs, len, added, true);
    ReadFirst(cs);
    forall i | Bounded(added, size) && 0 <= i < |cs| ensures Contribution(cs, i, len) <= size {
      if 0 < i <= |added| { assert |added[i - 1].bytes| == Contribution(cs, i, len); }
    }
  }

  // A source page of three bytes put in uncut where the page size is two.
  lemma LongPage(end: Page, a: Page, d: Data)
    ensures var cs := [Cell(end, null, 0, []), Cell(a, d, 0, [1, 2, 3])];
      Portions(cs, 3, 0) == [Portion(1, 0, 3)] && Portions(cs, 3, 2) == [Portion(1, 0, 2), Portion(1, 2, 1)]
  {
    var cs := [Cell(end, null, 0, []), Cell(a, d, 0, [1, 2, 3])];
    assert Plan(cs, 2, 0, 0, 0) == Plan(cs, 2, 0, 0, 2) == [];
    assert Plan(cs, 1, 3, 0, 0) == Plan(cs, 1, 3, 0, 2) == [];
    assert Plan(cs, 1, 2, 1, 2) == [Portion(1, 2, 1)];
    assert Plan(cs, 1, 0, 3, 2) == [Portion(1, 0, 2), Portion(1, 2, 1)];
    assert Plan(cs, 1, 0, 3, 0) == [Portion(1, 0, 3)];
  }
}
