// Lines in a sequence of bytes: the search for the end of the first, and the
// sequence split into all of them.
module Lines {
  import opened Memory
  import opened Sequences

  const LF: byte := 10
  const CR: byte := 13

  // What a search for the end of the first line comes to: the index of its last byte,
  // and whether a carriage return stands before the line feed there.
  datatype Found = NoLine | Line(at: nat, cr: bool)

  // no line feed among the n bytes from `from` on
  predicate Clear(s: seq<byte>, from: nat, n: nat)
    requires from + n <= |s|
  {
    forall k | from <= k < from + n :: s[k] != LF
  }

  // the first line feed, or the length
  function FirstLF(s: seq<byte>, from: nat): (k: nat)
    requires from <= |s|
    ensures from <= k <= |s| && Clear(s, from, k - from) && (k < |s| ==> s[k] == LF)
    decreases |s| - from
  {
    if from == |s| || s[from] == LF then from else FirstLF(s, from + 1)
  }

  // One search over the whole of s: the first line feed at or before the maximum, or else a cut there.
  // Before a carriage return's line feed there is always a byte to be taken off.
  function Scan(s: seq<byte>, max: nat): (f: Found)
    ensures match f
      case Line(at, cr) =>
        && at < |s| && at <= max && Clear(s, 0, at) && (cr ==> at > 0)
        && (if s[at] == LF then cr == (at > 0 && s[at - 1] == CR) else at == max && !cr)
      case NoLine => |s| <= max && Clear(s, 0, |s|)
  {
    var k := FirstLF(s, 0);
    if k < |s| && k <= max then Line(k, k > 0 && s[k - 1] == CR)
    else if max < |s| then Line(max, false)
    else NoLine
  }

  // the answer of a search that stopped at a line feed, at the maximum, or at the end
  lemma ScanStops(s: seq<byte>, max: nat, k: nat)
    requires k <= |s| && k <= max && Clear(s, 0, k)
    ensures k < |s| && s[k] == LF ==> Scan(s, max) == Line(k, k > 0 && s[k - 1] == CR)
    ensures k < |s| && s[k] != LF && k == max ==> Scan(s, max) == Line(k, false)
    ensures k == |s| ==> Scan(s, max) == NoLine
  {
    var j := FirstLF(s, 0);
    assert j >= k;
  }

  // A line found stays the first line whatever is put behind it.
  lemma ScanKeeps(s: seq<byte>, more: seq<byte>, max: nat)
    requires s <= more && Scan(s, max).Line?
    ensures Scan(more, max) == Scan(s, max)
  {
    var at := Scan(s, max).at;
    ScanStops(more, max, at);
  }

  // the length of the line itself
  function LineLen(f: Found): (n: nat)
    requires f.Line? && (f.cr ==> f.at > 0)
  {
    if f.cr then f.at - 1 else f.at
  }

  // ---- splitting everything into lines

  datatype Piece = Piece(text: seq<byte>, cr: bool)

  // the lines taken off the front one after the other
  function Pieces(s: seq<byte>, max: nat): seq<Piece>
    decreases |s|
  {
    var f := Scan(s, max);
    if f.NoLine? then [] else [Piece(s[..LineLen(f)], f.cr)] + Pieces(s[f.at + 1..], max)
  }

  function Rest(s: seq<byte>, max: nat): seq<byte>
    decreases |s|
  {
    var f := Scan(s, max);
    if f.NoLine? then s else Rest(s[f.at + 1..], max)
  }

  function Ended(p: Piece): seq<byte> {
    p.text + if p.cr then [CR, LF] else [LF]
  }

  // each line with its terminator, one after the other
  function Rejoin(ps: seq<Piece>): seq<byte> {
    if ps == [] then [] else Ended(ps[0]) + Rejoin(ps[1..])
  }

  // no more than `max` bytes in a row without a line feed
  ghost predicate Short(s: seq<byte>, max: nat) {
    forall i: nat :: !LongRun(s, i, max)
  }

  ghost predicate LongRun(s: seq<byte>, i: nat, max: nat) {
    i + max < |s| && Clear(s, i, max + 1)
  }

  lemma FirstPiece(s: seq<byte>, max: nat)
    requires Scan(s, max).Line?
    ensures var f := Scan(s, max);
      (f.cr ==> f.at > 0) && f.at < |s| && var e := Ended(Piece(s[..LineLen(f)], f.cr)); |e| == f.at + 1 && (e == s[..f.at + 1] <==> s[f.at] == LF)
  {
    var f := Scan(s, max);
    assert s[..f.at + 1] == s[..f.at] + [s[f.at]];
    if f.cr {
      assert s[..f.at] == s[..f.at - 1] + [s[f.at - 1]];
    } else {
      assert (s[..f.at] + [LF])[f.at] == LF && s[..f.at + 1][f.at] == s[f.at];
    }
  }

  // taking off a first line that ends in a line feed leaves long runs where they were
  lemma ShortOn(s: seq<byte>, max: nat, at: nat)
    requires at < |s| && at <= max && s[at] == LF
    ensures Short(s, max) <==> Short(s[at + 1..], max)
  {
    var t := s[at + 1..];
    forall i: nat ensures LongRun(t, i, max) == LongRun(s, i + at + 1, max) {
      if i + max < |t| {
        assert forall k | i <= k < i + max + 1 :: t[k] == s[k + at + 1];
        assert forall k | i + at + 1 <= k < i + at + 1 + max + 1 :: s[k] == t[k - at - 1];
      }
    }
    if Short(t, max) {
      forall i: nat ensures !LongRun(s, i, max) {
        if i > at { assert !LongRun(t, i - at - 1, max); }
      }
    }
    if Short(s, max) {
      forall i: nat ensures !LongRun(t, i, max) {
        assert !LongRun(s, i + at + 1, max);
      }
    }
  }

  lemma Cancel(j: seq<byte>, s: seq<byte>, first: seq<byte>, n: nat, r: seq<byte>, z: seq<byte>)
    requires n <= |s| && |first| == n && j == first + r
    ensures j + z == s <==> first == s[..n] && r + z == s[n..]
  {
    assert j + z == first + (r + z);
    assert (first + (r + z))[..n] == first && (first + (r + z))[n..] == r + z;
    assert s == s[..n] + s[n..];
  }

  lemma PiecesStep(s: seq<byte>, max: nat)
    requires Scan(s, max).Line?
    ensures var f := Scan(s, max);
      && (f.cr ==> f.at > 0) && f.at < |s|
      && var t := s[f.at + 1..];
      && Rest(s, max) == Rest(t, max)
      && Rejoin(Pieces(s, max)) == Ended(Piece(s[..LineLen(f)], f.cr)) + Rejoin(Pieces(t, max))
  {
    var f := Scan(s, max);
    var ps := Pieces(s, max);
    assert ps[1..] == Pieces(s[f.at + 1..], max);
  }

  // The lines put together again, each with its terminator, and what is left over give back
  // the whole exactly if no line is longer than the maximum: a line cut there loses a byte.
  lemma {:induction false} RejoinIff(s: seq<byte>, max: nat)
    ensures Rejoin(Pieces(s, max)) + Rest(s, max) == s <==> Short(s, max)
    decreases |s|
  {
    var f := Scan(s, max);
    if f.NoLine? {
      assert [] + s == s;
    } else {
      var t, first := s[f.at + 1..], Ended(Piece(s[..LineLen(f)], f.cr));
      RejoinIff(t, max);
      FirstPiece(s, max);
      PiecesStep(s, max);
      Cancel(Rejoin(Pieces(s, max)), s, first, f.at + 1, Rejoin(Pieces(t, max)), Rest(t, max));
      if s[f.at] == LF {
        ShortOn(s, max, f.at);
      } else {
        assert LongRun(s, 0, max);
      }
    }
  }

  // lines taken off the front of c0 so far, and what is behind them
  ghost predicate Split(c0: seq<byte>, max: nat, ps: seq<Piece>, c: seq<byte>) {
    forall u {:trigger Shown(u)} :: Shown(u) ==> Pieces(c0, max) == ps + Pieces(c, max) && Rest(c0, max) == Rest(c, max)
  }

  lemma SplitStarts(c: seq<byte>, max: nat)
    ensures Split(c, max, [], c)
  {
    assert [] + Pieces(c, max) == Pieces(c, max);
  }

  lemma SplitOn(c0: seq<byte>, max: nat, ps: seq<Piece>, c: seq<byte>)
    requires Split(c0, max, ps, c) && Scan(c, max).Line?
    ensures var f := Scan(c, max);
      Split(c0, max, ps + [Piece(c[..LineLen(f)], f.cr)], c[f.at + 1..])
  {
    assert Shown(0);
    var f := Scan(c, max);
    var p, more := Piece(c[..LineLen(f)], f.cr), Pieces(c[f.at + 1..], max);
    Assoc(ps, [p], more);
  }

  lemma SplitDone(c0: seq<byte>, max: nat, ps: seq<Piece>, c: seq<byte>)
    requires Split(c0, max, ps, c) && Scan(c, max).NoLine?
    ensures ps == Pieces(c0, max) && c == Rest(c0, max)
  {
    assert Shown(0);
  }

  // what is left over has no line in it
  lemma {:induction false} RestHasNoLine(s: seq<byte>, max: nat)
    ensures |Rest(s, max)| <= max && LF !in Rest(s, max) && Scan(Rest(s, max), max) == NoLine
    decreases |s|
  {
    if Scan(s, max).Line? {
      RestHasNoLine(s[Scan(s, max).at + 1..], max);
    }
  }

  // With a maximum of 2, the third byte of a longer line is lost.
  lemma CutLosesByte()
    ensures Pieces([65, 66, 67, LF], 2) == [Piece([65, 66], false), Piece([], false)]
    ensures Rejoin(Pieces([65, 66, 67, LF], 2)) == [65, 66, LF, LF]
  {
    var s: seq<byte> := [65, 66, 67, LF];
    ScanStops(s, 2, 2);
    assert s[..2] == [65, 66] && s[3..] == [LF];
    ScanStops([LF], 2, 0);
    assert Pieces([LF], 2) == [Piece([], false)] by { assert [LF][1..] == [] && [LF][..0] == []; }
    var ps := Pieces(s, 2);
    assert ps == [Piece([65, 66], false), Piece([], false)];
    assert Rejoin(ps[1..]) == Ended(ps[1]) + Rejoin([]) by { assert ps[1..] == [ps[1]] && [ps[1]][1..] == []; }
  }
}
