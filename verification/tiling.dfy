/** Phase B of `Compare` (`specialCheck`): the query words, joined without
    separators, are tiled left to right by the scanned pieces in order.
    This module is the corrected definition: the accumulators are kept as
    the list of matched pieces, so a rollback drops the first k whole
    pieces where the source drops the first k runes. */
module Tiling {
  import opened Wrappers
  import opened Runes
  import opened Text
  import opened Scorer

  /** The window loop at offset `s` for a piece of length `want`: the window
      grows one rune at a time from `cntr`; `Some(n)` is the size at which
      it is compared, `None` means it reached the end of the text first. */
  function Grow(len: nat, s: nat, cntr: nat, want: nat): (r: Option<nat>)
    requires 1 <= cntr && s + cntr <= len
    ensures r.Some? ==> cntr <= r.value == want && s + want <= len
    decreases len - cntr
  {
    if cntr == want then Some(cntr)
    else if s + cntr == len then None
    else Grow(len, s, cntr + 1, want)
  }

  /** The growing window is compared exactly when the piece fits between
      the offset and the end of the text, and then at the piece's length. */
  lemma {:induction false} GrowSpec(len: nat, s: nat, cntr: nat, want: nat)
    requires 1 <= cntr && s + cntr <= len
    ensures Grow(len, s, cntr, want) == if cntr <= want && s + want <= len then Some(want) else None
    decreases len - cntr
  {
    if cntr != want && s + cntr != len {
      GrowSpec(len, s, cntr + 1, want);
    }
  }

  /** What one piece does at the current offset. */
  datatype Probe = Exhausted | Mismatch | Match

  /** The window loop and the comparison of the piece `compare` (the
      candidate) against the text window (the reference). */
  function ProbeAt(p: Policy, value: string, s: nat, compare: string): (r: Probe)
    requires s < |value|
    ensures r == Match ==> 1 <= |compare| && s + |compare| <= |value|
  {
    match Grow(|value|, s, 1, |compare|)
    case None => Exhausted
    case Some(n) => if IsEqual(p, compare, value[s..s + n]) then Match else Mismatch
  }

  /** A match is a non-empty piece that fits and is equal to the window of
      its own length; the window runs past the end exactly when the piece is
      empty or does not fit. */
  lemma ProbeAtSpec(p: Policy, value: string, s: nat, compare: string)
    requires s < |value|
    ensures ProbeAt(p, value, s, compare) == Exhausted <==> |compare| == 0 || s + |compare| > |value|
    ensures ProbeAt(p, value, s, compare) == Match <==>
      1 <= |compare| && s + |compare| <= |value| && IsEqual(p, compare, value[s..s + |compare|])
  {
    GrowSpec(|value|, s, 1, |compare|);
  }

  /** `matchOnOneSpecial` after a match: a one-rune match at offset 0 counts
      a leading special; after that a special-led match extends a pending
      run and any other match ends it. */
  function NextRun(k: nat, oneAtStart: bool, lead: char): nat
  {
    if oneAtStart then (if IsSpecial(lead) then k + 1 else k)
    else if k != 0 then (if IsSpecial(lead) then k + 1 else 0)
    else k
  }

  /** The state carried from piece to piece: the consumption offset
      `startAt`, the pending run `matchOnOneSpecial` and the matched pieces
      (of which the spaced and the unspaced accumulators are the two
      joins). */
  datatype Cursor = Cursor(startAt: nat, k: nat, pieces: seq<string>)

  /** The pending run counts matched pieces, so it never exceeds them. */
  predicate Valid(value: string, c: Cursor)
  {
    c.startAt < |value| && c.k <= |c.pieces|
  }

  /** The `specialCheck` loop from piece `j` on. A piece that runs past the
      end resets the offset and moves on; a mismatch either rolls back the
      pending run and retries the same piece from offset 0, or clears
      everything and moves on; a match that ends at the text's end decides
      the result, and any other match moves on. */
  function Tile(p: Policy, value: string, toks: seq<string>, j: nat, c: Cursor): Option<seq<string>>
    requires Valid(value, c)
    decreases |toks| - j, if c.k > 0 then 1 else 0
  {
    if j >= |toks| then None
    else
      var compare := toks[j];
      match ProbeAt(p, value, c.startAt, compare)
      case Exhausted => Tile(p, value, toks, j + 1, Cursor(0, c.k, c.pieces))
      case Mismatch =>
        if c.k != 0 then Tile(p, value, toks, j, Cursor(0, 0, c.pieces[c.k..]))
        else Tile(p, value, toks, j + 1, Cursor(0, 0, []))
      case Match =>
        var pieces := c.pieces + [compare];
        var k := NextRun(c.k, |compare| == 1 && c.startAt == 0, compare[0]);
        var at := c.startAt + |compare|;
        if at == |value| then
          if IsEqual(p, Concat(pieces), value) then Some(pieces) else None
        else Tile(p, value, toks, j + 1, Cursor(at, k, pieces))
  }

  /** `specialCheck(value, tokens)`: the spaced join of the tiling pieces.
      The source loops forever when the text is empty and there is at
      least one piece, because the window loop never runs. */
  function SpecialCheck(p: Policy, value: string, toks: seq<string>): Option<string>
    requires |value| > 0 || |toks| == 0
  {
    if |value| == 0 then None
    else
      match Tile(p, value, toks, 0, Cursor(0, 0, []))
      case None => None
      case Some(ps) => Some(JoinSpaced(ps))
  }

  /** `idx` picks the pieces `ps` out of the scanned pieces `toks`, at
      strictly increasing positions. */
  ghost predicate Picks(ps: seq<string>, toks: seq<string>, idx: seq<nat>)
  {
    && |idx| == |ps|
    && (forall i :: 0 <= i < |idx| ==> idx[i] < |toks| && toks[idx[i]] == ps[i])
    && (forall i, i' :: 0 <= i < i' < |idx| ==> idx[i] < idx[i'])
  }

  /** The pieces are taken from the scanned pieces in their order. */
  ghost predicate InOrder(ps: seq<string>, toks: seq<string>)
  {
    exists idx :: Picks(ps, toks, idx)
  }

  /** The pieces sit on consecutive windows of the text that end at offset
      `to` and start at offset 0, each non-empty and equal to its window. */
  predicate Windows(p: Policy, value: string, ps: seq<string>, to: nat)
    decreases |ps|
  {
    if |ps| == 0 then to == 0
    else
      var last := ps[|ps| - 1];
      && 1 <= |last| <= to <= |value|
      && IsEqual(p, last, value[to - |last|..to])
      && Windows(p, value, ps[..|ps| - 1], to - |last|)
  }

  /** Consecutive windows from 0 to `to` have `to` runes between them. */
  lemma {:induction false} WindowsLength(p: Policy, value: string, ps: seq<string>, to: nat)
    requires Windows(p, value, ps, to)
    ensures |Concat(ps)| == to
    decreases |ps|
  {
    if |ps| > 0 {
      WindowsLength(p, value, ps[..|ps| - 1], to - |ps[|ps| - 1]|);
    }
  }

  /** Each window piece is equal to the text between the lengths of the
      joins before and after it. */
  lemma {:induction false} WindowsPieces(p: Policy, value: string, ps: seq<string>, to: nat, i: nat)
    requires Windows(p, value, ps, to) && i < |ps|
    ensures |Concat(ps[..i])| <= |Concat(ps[..i + 1])| <= |value|
    ensures IsEqual(p, ps[i], value[|Concat(ps[..i])|..|Concat(ps[..i + 1])|])
    decreases |ps|
  {
    var init := ps[..|ps| - 1];
    var last := ps[|ps| - 1];
    if i == |ps| - 1 {
      assert ps[..i + 1] == ps;
      assert ps[..i] == init;
      WindowsLength(p, value, ps, to);
      WindowsLength(p, value, init, to - |last|);
    } else {
      assert ps[..i] == init[..i] && ps[..i + 1] == init[..i + 1];
      WindowsPieces(p, value, init, to - |last|, i);
    }
  }

  /** What a successful tiling promises: at least one piece, the pieces
      are scanned pieces in their scanned order, they sit on consecutive
      windows from the start to the end of the text, each equal to its
      window, and their unspaced join is equal to the whole text. */
  ghost predicate Tiles(p: Policy, value: string, toks: seq<string>, ps: seq<string>)
  {
    && |ps| > 0
    && InOrder(ps, toks)
    && Windows(p, value, ps, |value|)
    && IsEqual(p, Concat(ps), value)
  }

  /** The loop's invariant at piece `j`: the pieces before position `n`
      are stale (matched before an offset reset), the ones from `n` on sit
      on consecutive windows ending at the offset, every piece is
      non-empty, and `idx` picks all of them from before `j`. */
  ghost predicate Progress(p: Policy, value: string, toks: seq<string>, j: nat, c: Cursor, n: nat, idx: seq<nat>)
  {
    && Valid(value, c)
    && n <= |c.pieces|
    && (forall i :: 0 <= i < |c.pieces| ==> |c.pieces[i]| >= 1)
    && Windows(p, value, c.pieces[n..], c.startAt)
    && Picks(c.pieces, toks, idx)
    && (forall i :: 0 <= i < |idx| ==> idx[i] < j)
  }

  /** An offset reset turns every piece stale. */
  lemma ResetProgress(p: Policy, value: string, toks: seq<string>, j: nat, c: Cursor, n: nat, idx: seq<nat>)
    requires Progress(p, value, toks, j, c, n, idx) && j < |toks|
    ensures Progress(p, value, toks, j + 1, Cursor(0, c.k, c.pieces), |c.pieces|, idx)
  {
    assert c.pieces[|c.pieces|..] == [];
  }

  /** A rollback keeps the pieces after the pending run, all stale. */
  lemma RollbackProgress(p: Policy, value: string, toks: seq<string>, j: nat, c: Cursor, n: nat, idx: seq<nat>)
    requires Progress(p, value, toks, j, c, n, idx)
    ensures Progress(p, value, toks, j, Cursor(0, 0, c.pieces[c.k..]), |c.pieces| - c.k, idx[c.k..])
  {
    var rest := c.pieces[c.k..];
    assert rest[|rest|..] == [];
    forall i | 0 <= i < |rest|
      ensures |rest[i]| >= 1
    {
      assert rest[i] == c.pieces[c.k + i];
    }
  }

  /** A piece picked after all the others extends the picks. */
  lemma PicksSnoc(ps: seq<string>, toks: seq<string>, idx: seq<nat>, j: nat)
    requires Picks(ps, toks, idx) && j < |toks|
    requires forall i :: 0 <= i < |idx| ==> idx[i] < j
    ensures Picks(ps + [toks[j]], toks, idx + [j])
  {
  }

  /** A piece equal to the window right after the last one extends the
      windows. */
  lemma WindowsSnoc(p: Policy, value: string, ps: seq<string>, to: nat, w: string)
    requires Windows(p, value, ps, to)
    requires 1 <= |w| && to + |w| <= |value| && IsEqual(p, w, value[to..to + |w|])
    ensures Windows(p, value, ps + [w], to + |w|)
  {
    assert (ps + [w])[..|ps|] == ps;
  }

  /** A match appends a live piece picked at position `j`. */
  lemma MatchProgress(p: Policy, value: string, toks: seq<string>, j: nat, c: Cursor, n: nat, idx: seq<nat>)
    requires Progress(p, value, toks, j, c, n, idx) && j < |toks|
    requires ProbeAt(p, value, c.startAt, toks[j]) == Match
    requires c.startAt + |toks[j]| < |value|
    ensures var compare := toks[j];
      Progress(p, value, toks, j + 1,
        Cursor(c.startAt + |compare|, NextRun(c.k, |compare| == 1 && c.startAt == 0, compare[0]), c.pieces + [compare]),
        n, idx + [j])
  {
    var compare := toks[j];
    ProbeAtSpec(p, value, c.startAt, compare);
    WindowsSnoc(p, value, c.pieces[n..], c.startAt, compare);
    PicksSnoc(c.pieces, toks, idx, j);
    assert (c.pieces + [compare])[n..] == c.pieces[n..] + [compare];
  }

  /** A prefix of non-empty pieces joins to a non-empty text. */
  lemma StaleNonEmpty(pieces: seq<string>, n: nat)
    requires n <= |pieces|
    requires forall i :: 0 <= i < |pieces| ==> |pieces[i]| >= 1
    ensures n > 0 ==> |Concat(pieces[..n])| >= 1
  {
    if n > 0 {
      assert pieces[..n][..n - 1] == pieces[..n - 1];
    }
  }

  /** When the live pieces' windows reach the end of the text and the join
      of all pieces is as long as the text, no piece is stale: stale
      pieces are non-empty and would make the join longer. */
  lemma NoStalePieces(p: Policy, value: string, pieces: seq<string>, n: nat)
    requires n <= |pieces|
    requires forall i :: 0 <= i < |pieces| ==> |pieces[i]| >= 1
    requires Windows(p, value, pieces[n..], |value|)
    requires |Concat(pieces)| == |value|
    ensures n == 0
  {
    assert pieces == pieces[..n] + pieces[n..];
    ConcatSplit(pieces[..n], pieces[n..]);
    WindowsLength(p, value, pieces[n..], |value|);
    StaleNonEmpty(pieces, n);
  }

  /** On success the pieces are exactly the live ones, so they tile the
      text. */
  lemma FinalPiece(p: Policy, value: string, toks: seq<string>, j: nat, c: Cursor, n: nat, idx: seq<nat>)
    requires Progress(p, value, toks, j, c, n, idx) && j < |toks|
    requires ProbeAt(p, value, c.startAt, toks[j]) == Match
    requires c.startAt + |toks[j]| == |value|
    ensures IsEqual(p, Concat(c.pieces + [toks[j]]), value) ==> Tiles(p, value, toks, c.pieces + [toks[j]])
  {
    var compare := toks[j];
    ProbeAtSpec(p, value, c.startAt, compare);
    var ps := c.pieces + [compare];
    WindowsSnoc(p, value, c.pieces[n..], c.startAt, compare);
    PicksSnoc(c.pieces, toks, idx, j);
    assert ps[n..] == c.pieces[n..] + [compare];
    if IsEqual(p, Concat(ps), value) {
      forall i | 0 <= i < |ps|
        ensures |ps[i]| >= 1
      {
      }
      NoStalePieces(p, value, ps, n);
      assert ps[0..] == ps;
    }
  }

  /** One step of the loop from piece `j` keeps the invariant: either the
      step decides the result, which then tiles the text, or it leads to a
      state from which the loop returns the same result and which is
      closer to the end of the pieces. */
  lemma Step(p: Policy, value: string, toks: seq<string>, j: nat, c: Cursor, n: nat, idx: seq<nat>)
    returns (done: bool, j': nat, c': Cursor, n': nat, idx': seq<nat>)
    requires Progress(p, value, toks, j, c, n, idx) && j < |toks|
    ensures done ==> Tile(p, value, toks, j, c).Some? ==> Tiles(p, value, toks, Tile(p, value, toks, j, c).value)
    ensures !done ==> Progress(p, value, toks, j', c', n', idx') && Tile(p, value, toks, j, c) == Tile(p, value, toks, j', c')
    ensures !done ==> j < j' <= |toks| || (j' == j && c.k > 0 && c'.k == 0)
  {
    if ProbeAt(p, value, c.startAt, toks[j]) == Match {
      done, j', c', n', idx' := MatchedStep(p, value, toks, j, c, n, idx);
    } else {
      done := false;
      j', c', n', idx' := MissedStep(p, value, toks, j, c, n, idx);
    }
  }

  /** The step on a piece that does not match: a reset, a rollback or a
      clear. */
  lemma MissedStep(p: Policy, value: string, toks: seq<string>, j: nat, c: Cursor, n: nat, idx: seq<nat>)
    returns (j': nat, c': Cursor, n': nat, idx': seq<nat>)
    requires Progress(p, value, toks, j, c, n, idx) && j < |toks|
    requires ProbeAt(p, value, c.startAt, toks[j]) != Match
    ensures Progress(p, value, toks, j', c', n', idx') && Tile(p, value, toks, j, c) == Tile(p, value, toks, j', c')
    ensures j < j' <= |toks| || (j' == j && c.k > 0 && c'.k == 0)
  {
    var probe := ProbeAt(p, value, c.startAt, toks[j]);
    if probe == Exhausted {
      ExhaustedStep(p, value, toks, j, c);
      ResetProgress(p, value, toks, j, c, n, idx);
      j', c', n', idx' := j + 1, Cursor(0, c.k, c.pieces), |c.pieces|, idx;
    } else if c.k != 0 {
      RollbackStep(p, value, toks, j, c);
      RollbackProgress(p, value, toks, j, c, n, idx);
      j', c', n', idx' := j, Cursor(0, 0, c.pieces[c.k..]), |c.pieces| - c.k, idx[c.k..];
    } else {
      ClearStep(p, value, toks, j, c);
      j', c', n', idx' := j + 1, Cursor(0, 0, []), 0, [];
    }
  }

  /** The step on a piece that matches: it either reaches the end of the
      text and decides the result, or moves on with one more piece. */
  lemma MatchedStep(p: Policy, value: string, toks: seq<string>, j: nat, c: Cursor, n: nat, idx: seq<nat>)
    returns (done: bool, j': nat, c': Cursor, n': nat, idx': seq<nat>)
    requires Progress(p, value, toks, j, c, n, idx) && j < |toks|
    requires ProbeAt(p, value, c.startAt, toks[j]) == Match
    ensures done ==> Tile(p, value, toks, j, c).Some? ==> Tiles(p, value, toks, Tile(p, value, toks, j, c).value)
    ensures !done ==> Progress(p, value, toks, j', c', n', idx') && Tile(p, value, toks, j, c) == Tile(p, value, toks, j', c')
    ensures !done ==> j < j' <= |toks|
  {
    if c.startAt + |toks[j]| < |value| {
      done := false;
      c' := ContinuedStep(p, value, toks, j, c, n, idx);
      j', n', idx' := j + 1, n, idx + [j];
    } else {
      FinalStep(p, value, toks, j, c);
      FinalPiece(p, value, toks, j, c, n, idx);
      done, j', c', n', idx' := true, j, c, n, idx;
    }
  }

  /** The step on a match that does not reach the end of the text. */
  lemma ContinuedStep(p: Policy, value: string, toks: seq<string>, j: nat, c: Cursor, n: nat, idx: seq<nat>)
    returns (c': Cursor)
    requires Progress(p, value, toks, j, c, n, idx) && j < |toks|
    requires ProbeAt(p, value, c.startAt, toks[j]) == Match
    requires c.startAt + |toks[j]| < |value|
    ensures Progress(p, value, toks, j + 1, c', n, idx + [j]) && Tile(p, value, toks, j, c) == Tile(p, value, toks, j + 1, c')
  {
    var compare := toks[j];
    MatchStep(p, value, toks, j, c);
    MatchProgress(p, value, toks, j, c, n, idx);
    c' := Cursor(c.startAt + |compare|, NextRun(c.k, |compare| == 1 && c.startAt == 0, compare[0]), c.pieces + [compare]);
  }

  /** The loop keeps its invariant, so whatever it returns tiles the text. */
  lemma {:induction false} TileSound(p: Policy, value: string, toks: seq<string>, j: nat, c: Cursor, n: nat, idx: seq<nat>)
    requires Progress(p, value, toks, j, c, n, idx)
    ensures Tile(p, value, toks, j, c).Some? ==> Tiles(p, value, toks, Tile(p, value, toks, j, c).value)
    decreases |toks| - j, if c.k > 0 then 1 else 0
  {
    if j < |toks| {
      var done, j', c', n', idx' := Step(p, value, toks, j, c, n, idx);
      if !done {
        TileSound(p, value, toks, j', c', n', idx');
      }
    }
  }

  /** A successful `specialCheck` returns the spaced join of pieces that
      tile the text in the sense of `Tiles`. */
  lemma SpecialCheckSound(p: Policy, value: string, toks: seq<string>)
    requires |value| > 0 || |toks| == 0
    ensures SpecialCheck(p, value, toks).Some? ==>
      exists ps :: Tiles(p, value, toks, ps) && SpecialCheck(p, value, toks).value == JoinSpaced(ps)
  {
    if |value| > 0 {
      TileSound(p, value, toks, 0, Cursor(0, 0, []), 0, []);
      var t := Tile(p, value, toks, 0, Cursor(0, 0, []));
      if t.Some? {
        assert Tiles(p, value, toks, t.value);
      }
    }
  }

  /** One step of the tiling loop on a match that does not reach the end. */
  lemma MatchStep(p: Policy, v: string, ts: seq<string>, j: nat, c: Cursor)
    requires Valid(v, c) && j < |ts|
    requires ProbeAt(p, v, c.startAt, ts[j]) == Match
    requires c.startAt + |ts[j]| < |v|
    ensures |ts[j]| >= 1
    ensures Tile(p, v, ts, j, c) ==
      Tile(p, v, ts, j + 1, Cursor(c.startAt + |ts[j]|,
        NextRun(c.k, |ts[j]| == 1 && c.startAt == 0, ts[j][0]), c.pieces + [ts[j]]))
  {
    ProbeAtSpec(p, v, c.startAt, ts[j]);
  }

  /** The step on a match that reaches the end of the text. */
  lemma FinalStep(p: Policy, v: string, ts: seq<string>, j: nat, c: Cursor)
    requires Valid(v, c) && j < |ts|
    requires ProbeAt(p, v, c.startAt, ts[j]) == Match
    requires c.startAt + |ts[j]| == |v|
    ensures Tile(p, v, ts, j, c) ==
      if IsEqual(p, Concat(c.pieces + [ts[j]]), v) then Some(c.pieces + [ts[j]]) else None
  {
  }

  /** The step on a piece that runs past the end of the text: the offset
      is reset and the next piece is tried. */
  lemma ExhaustedStep(p: Policy, v: string, ts: seq<string>, j: nat, c: Cursor)
    requires Valid(v, c) && j < |ts|
    requires ProbeAt(p, v, c.startAt, ts[j]) == Exhausted
    ensures Tile(p, v, ts, j, c) == Tile(p, v, ts, j + 1, Cursor(0, c.k, c.pieces))
  {
  }

  /** The step on a mismatch without a pending run: everything matched so
      far is dropped and the next piece is tried from offset 0. */
  lemma ClearStep(p: Policy, v: string, ts: seq<string>, j: nat, c: Cursor)
    requires Valid(v, c) && j < |ts| && c.k == 0
    requires ProbeAt(p, v, c.startAt, ts[j]) == Mismatch
    ensures Tile(p, v, ts, j, c) == Tile(p, v, ts, j + 1, Cursor(0, 0, []))
  {
  }

  /** The step on a mismatch with a pending run of k: the first k pieces
      are dropped and the same piece is retried from offset 0. They are the
      pending run unless pieces kept across an offset reset come before it;
      such a tiling fails either way (`NoStalePieces`). */
  lemma RollbackStep(p: Policy, v: string, ts: seq<string>, j: nat, c: Cursor)
    requires Valid(v, c) && j < |ts| && c.k != 0
    requires ProbeAt(p, v, c.startAt, ts[j]) == Mismatch
    ensures Tile(p, v, ts, j, c) == Tile(p, v, ts, j, Cursor(0, 0, c.pieces[c.k..]))
  {
  }

  /** With no scanned pieces Phase B fails. */
  lemma NoPiecesNoTiling(p: Policy, value: string)
    ensures SpecialCheck(p, value, []) == None
  {
  }
}
