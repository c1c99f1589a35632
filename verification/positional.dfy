/** Phase A of `Compare` (`simpleCheck` and the loop around it): the query
    words are matched, one each, against consecutive scanned pieces. Phase A
    depends on the scorer only through the word equality `eq`, which the
    engine instantiates with `EqualityOf` of the document's policy. */
module Positional {
  import opened Wrappers
  import opened Scorer

  /** What `simpleCheck` returns: whether it matched, the matched piece
      (nil when it did not), and the index it stopped at. */
  datatype Hit = Hit(found: bool, span: string, at: nat)

  /** The `start == 0` branch of `simpleCheck`: the pieces from `i` on are
      tried in order and the first one equal to `value` is taken. */
  function FirstMatch(eq: Equality, value: string, toks: seq<string>, i: nat): Hit
    decreases |toks| - i
  {
    if i >= |toks| then Hit(false, [], 0)
    else if eq(toks[i], value) then Hit(true, toks[i], i)
    else FirstMatch(eq, value, toks, i + 1)
  }

  /** `simpleCheck(value, tokens, start)`: with `start == 0` the earliest
      equal piece; otherwise only the piece at `start` is tried, and running
      past the end reports index 0. */
  function SimpleCheck(eq: Equality, value: string, toks: seq<string>, start: nat): Hit
  {
    if start == 0 then FirstMatch(eq, value, toks, 0)
    else if start < |toks| then
      if eq(toks[start], value) then Hit(true, toks[start], start) else Hit(false, [], start)
    else Hit(false, [], 0)
  }

  /** The earliest piece at or after `i` equal to `value` is found; nothing
      is found exactly when no piece from `i` on is equal to it. */
  lemma {:induction false} FirstMatchSpec(eq: Equality, value: string, toks: seq<string>, i: nat)
    ensures var h := FirstMatch(eq, value, toks, i);
      && (h.found <==> exists j :: i <= j < |toks| && eq(toks[j], value))
      && (h.found ==> i <= h.at < |toks| && h.span == toks[h.at] && eq(toks[h.at], value))
      && (h.found ==> forall j :: i <= j < h.at ==> !eq(toks[j], value))
      && (!h.found ==> h.at == 0 && h.span == [])
    decreases |toks| - i
  {
    if i < |toks| && !eq(toks[i], value) {
      FirstMatchSpec(eq, value, toks, i + 1);
    }
  }

  /** The first query word binds to the earliest equal piece. */
  lemma SimpleCheckFirstWord(eq: Equality, value: string, toks: seq<string>)
    ensures var h := SimpleCheck(eq, value, toks, 0);
      && (h.found <==> exists j :: 0 <= j < |toks| && eq(toks[j], value))
      && (h.found ==> h.at < |toks| && h.span == toks[h.at] && forall j :: 0 <= j < h.at ==> !eq(toks[j], value))
  {
    FirstMatchSpec(eq, value, toks, 0);
  }

  /** A later query word is only tried against the piece at the cursor. */
  lemma SimpleCheckLaterWord(eq: Equality, value: string, toks: seq<string>, start: nat)
    requires start > 0
    ensures var h := SimpleCheck(eq, value, toks, start);
      && (h.found <==> start < |toks| && eq(toks[start], value))
      && (h.found ==> h.at == start && h.span == toks[start])
      && (!h.found ==> h.span == [] && h.at == (if start < |toks| then start else 0))
  {
  }

  /** The `compareEntity` of Phase A: the outcome of the last check, the
      matched pieces so far, the cursor and the last matched index. */
  datatype Entity = Entity(found: bool, spans: seq<string>, at: nat, last: nat)

  /** The Phase A loop over the remaining query words `refs`. */
  function PhaseA(eq: Equality, refs: seq<string>, toks: seq<string>, e: Entity): Entity
    decreases |refs|
  {
    if |refs| == 0 then e
    else
      var h := SimpleCheck(eq, refs[0], toks, e.at);
      if !h.found then e.(found := false, at := h.at)
      else PhaseA(eq, refs[1..], toks, Advance(e, h))
  }

  /** The bookkeeping after a match: a new index moves `last` there and the
      cursor one past it, a cursor still at 0 moves to 1, and the piece is
      collected. */
  function Advance(e: Entity, h: Hit): Entity
  {
    var moved := if h.at != e.last then e.(last := h.at, at := h.at + 1) else e;
    var cursor := if moved.at == 0 then 1 else moved.at;
    Entity(true, moved.spans + [h.span], cursor, moved.last)
  }

  /** The state Phase A starts from. */
  function Start(): Entity
  {
    Entity(false, [], 0, 0)
  }

  /** How many of `refs`, from the first, equal the consecutive pieces from
      index `at` on. */
  function Aligned(eq: Equality, refs: seq<string>, toks: seq<string>, at: nat): (n: nat)
    ensures n <= |refs|
    decreases |refs|
  {
    if |refs| == 0 || at >= |toks| || !eq(toks[at], refs[0]) then 0
    else 1 + Aligned(eq, refs[1..], toks, at + 1)
  }

  lemma {:induction false} AlignedSpec(eq: Equality, refs: seq<string>, toks: seq<string>, at: nat)
    ensures var n := Aligned(eq, refs, toks, at);
      && (n > 0 ==> at + n <= |toks|)
      && (forall t :: 0 <= t < n ==> at + t < |toks| && eq(toks[at + t], refs[t]))
      && (n < |refs| ==> at + n >= |toks| || !eq(toks[at + n], refs[n]))
    decreases |refs|
  {
    if |refs| > 0 && at < |toks| && eq(toks[at], refs[0]) {
      AlignedSpec(eq, refs[1..], toks, at + 1);
      var n := Aligned(eq, refs, toks, at);
      forall t | 0 <= t < n
        ensures at + t < |toks| && eq(toks[at + t], refs[t])
      {
        if t > 0 {
          assert refs[t] == refs[1..][t - 1];
        }
      }
      if n < |refs| {
        assert refs[n] == refs[1..][n - 1];
      }
    }
  }

  /** After a match the cursor sits one past the matched index: every later
      word is checked at the next piece, and the matched pieces are
      collected in order. */
  lemma {:induction false} PhaseAFrom(eq: Equality, refs: seq<string>, toks: seq<string>, e: Entity)
    requires e.found && 1 <= e.at <= |toks| && e.last < e.at
    ensures var n := Aligned(eq, refs, toks, e.at);
      var r := PhaseA(eq, refs, toks, e);
      && (r.found <==> n == |refs|)
      && e.at + n <= |toks|
      && r.spans == e.spans + toks[e.at..e.at + n]
    decreases |refs|
  {
    if |refs| > 0 && e.at < |toks| && eq(toks[e.at], refs[0]) {
      var e' := Entity(true, e.spans + [toks[e.at]], e.at + 1, e.at);
      var m := Aligned(eq, refs[1..], toks, e.at + 1);
      PhaseAMoves(eq, refs, toks, e);
      PhaseAFrom(eq, refs[1..], toks, e');
      SpansCons(e.spans, toks, e.at, m);
      CombineStep(PhaseA(eq, refs, toks, e), PhaseA(eq, refs[1..], toks, e'), e, toks,
        Aligned(eq, refs, toks, e.at), m, |refs|);
    } else {
      PhaseAStops(eq, refs, toks, e);
      assert toks[e.at..e.at] == [];
    }
  }

  /** When the word at the cursor is equal to the next piece, Phase A
      collects it and moves the cursor one further. */
  lemma PhaseAMoves(eq: Equality, refs: seq<string>, toks: seq<string>, e: Entity)
    requires e.found && 1 <= e.at < |toks| && e.last < e.at
    requires |refs| > 0 && eq(toks[e.at], refs[0])
    ensures PhaseA(eq, refs, toks, e) == PhaseA(eq, refs[1..], toks, Entity(true, e.spans + [toks[e.at]], e.at + 1, e.at))
    ensures Aligned(eq, refs, toks, e.at) == 1 + Aligned(eq, refs[1..], toks, e.at + 1)
  {
    assert SimpleCheck(eq, refs[0], toks, e.at) == Hit(true, toks[e.at], e.at);
  }

  /** Phase A's invariant carried across one collected piece. */
  lemma CombineStep(r: Entity, r1: Entity, e: Entity, toks: seq<string>, n: nat, m: nat, len: nat)
    requires r == r1 && n == 1 + m && len >= 1
    requires r1.found <==> m == len - 1
    requires e.at + 1 + m <= |toks|
    requires r1.spans == e.spans + [toks[e.at]] + toks[e.at + 1..e.at + 1 + m]
    requires e.spans + [toks[e.at]] + toks[e.at + 1..e.at + 1 + m] == e.spans + toks[e.at..e.at + 1 + m]
    ensures r.found <==> n == len
    ensures e.at + n <= |toks|
    ensures r.spans == e.spans + toks[e.at..e.at + n]
  {
  }

  lemma SpansCons(spans: seq<string>, toks: seq<string>, at: nat, m: nat)
    requires at + 1 + m <= |toks|
    ensures spans + [toks[at]] + toks[at + 1..at + 1 + m] == spans + toks[at..at + 1 + m]
  {
    SliceCons(toks, at, m);
  }

  /** When the word at the cursor is not equal to the next piece, Phase A
      stops there and keeps what it had. */
  lemma PhaseAStops(eq: Equality, refs: seq<string>, toks: seq<string>, e: Entity)
    requires e.found && e.at >= 1
    requires !(|refs| > 0 && e.at < |toks| && eq(toks[e.at], refs[0]))
    ensures Aligned(eq, refs, toks, e.at) == 0
    ensures var r := PhaseA(eq, refs, toks, e);
      && (r.found <==> |refs| == 0)
      && r.spans == e.spans
  {
    if |refs| > 0 {
      assert !SimpleCheck(eq, refs[0], toks, e.at).found;
    }
  }

  /** The first query word moves the cursor one past its earliest equal
      piece (also when that piece is the first one). */
  lemma PhaseAFirstStep(eq: Equality, words: seq<string>, toks: seq<string>)
    requires |words| > 0
    requires FirstMatch(eq, words[0], toks, 0).found
    ensures var h := FirstMatch(eq, words[0], toks, 0);
      PhaseA(eq, words, toks, Start()) == PhaseA(eq, words[1..], toks, Entity(true, [h.span], h.at + 1, h.at))
  {
    var h := FirstMatch(eq, words[0], toks, 0);
    assert SimpleCheck(eq, words[0], toks, Start().at) == h;
    assert Advance(Start(), h) == Entity(true, [h.span], h.at + 1, h.at);
  }

  lemma AlignedCons(eq: Equality, words: seq<string>, toks: seq<string>, at: nat)
    requires |words| > 0 && at < |toks| && eq(toks[at], words[0])
    ensures Aligned(eq, words, toks, at) == 1 + Aligned(eq, words[1..], toks, at + 1)
  {
  }

  lemma SliceCons(toks: seq<string>, at: nat, m: nat)
    requires at + 1 + m <= |toks|
    ensures [toks[at]] + toks[at + 1..at + 1 + m] == toks[at..at + 1 + m]
  {
  }

  /** Phase A as a whole: it succeeds exactly when the first query word has
      an equal piece and, from the earliest one on, every query word equals
      the next piece; the matched pieces are the consecutive run starting
      there, also when Phase A stops part-way. */
  lemma PhaseASpec(eq: Equality, words: seq<string>, toks: seq<string>)
    requires |words| > 0
    ensures var r := PhaseA(eq, words, toks, Start());
      var h := FirstMatch(eq, words[0], toks, 0);
      && (!h.found ==> !r.found && r.spans == [])
      && (h.found ==> var n := Aligned(eq, words, toks, h.at);
            && (r.found <==> n == |words|)
            && 1 <= n && h.at + n <= |toks|
            && r.spans == toks[h.at..h.at + n])
  {
    var h := FirstMatch(eq, words[0], toks, 0);
    if h.found {
      PhaseAFound(eq, words, toks);
    } else {
      assert SimpleCheck(eq, words[0], toks, Start().at) == h;
    }
  }

  lemma PhaseAFound(eq: Equality, words: seq<string>, toks: seq<string>)
    requires |words| > 0 && FirstMatch(eq, words[0], toks, 0).found
    ensures var r := PhaseA(eq, words, toks, Start());
      var h := FirstMatch(eq, words[0], toks, 0);
      var n := Aligned(eq, words, toks, h.at);
      && (r.found <==> n == |words|)
      && 1 <= n && h.at + n <= |toks|
      && r.spans == toks[h.at..h.at + n]
  {
    var h := FirstMatch(eq, words[0], toks, 0);
    assert h.at < |toks| && h.span == toks[h.at] && eq(toks[h.at], words[0]) by {
      FirstMatchSpec(eq, words[0], toks, 0);
    }
    var e := Entity(true, [toks[h.at]], h.at + 1, h.at);
    var m := Aligned(eq, words[1..], toks, h.at + 1);
    var r1 := PhaseA(eq, words[1..], toks, e);
    assert PhaseA(eq, words, toks, Start()) == r1 by {
      PhaseAFirstStep(eq, words, toks);
    }
    assert (r1.found <==> m == |words| - 1)
        && h.at + 1 + m <= |toks|
        && r1.spans == [toks[h.at]] + toks[h.at + 1..h.at + 1 + m] by {
      PhaseAFrom(eq, words[1..], toks, e);
    }
    assert Aligned(eq, words, toks, h.at) == 1 + m by {
      AlignedCons(eq, words, toks, h.at);
    }
    SliceCons(toks, h.at, m);
  }

  /** The pieces Phase A has collected when it ends: the consecutive run of
      aligned pieces from the first word's earliest match. */
  function Matched(eq: Equality, words: seq<string>, toks: seq<string>): seq<string>
  {
    if |words| == 0 then []
    else
      var h := FirstMatch(eq, words[0], toks, 0);
      var n := Aligned(eq, words, toks, h.at);
      if h.found && h.at + n <= |toks| then toks[h.at..h.at + n] else []
  }

  /** Phase A's outcome in terms of the reference run: it succeeds exactly
      when every query word is aligned, and it has collected `Matched`. */
  lemma PhaseAOutcome(eq: Equality, words: seq<string>, toks: seq<string>)
    ensures var r := PhaseA(eq, words, toks, Start());
      && r.spans == Matched(eq, words, toks)
      && (r.found <==> |words| > 0 && |Matched(eq, words, toks)| == |words|)
  {
    if |words| > 0 {
      PhaseASpec(eq, words, toks);
      FirstMatchSpec(eq, words[0], toks, 0);
    }
  }
}
