/** The position table of a token list and its compaction into ids
    (`Mapping`, `AddIndex`, `NewMappingFromTokens`, `Map`). */
module Mapper {
  import opened Wrappers
  import opened Text
  import opened Canon

  /** Each distinct piece with the positions at which it occurs. */
  type Mapping = map<string, seq<nat>>

  /** `AddIndex` (`upCreate`): record one more position of `v`. */
  function AddIndex(m: Mapping, v: string, index: nat): Mapping
  {
    if v in m then m[v := m[v] + [index]] else m[v := [index]]
  }

  /** One special run, each rune recorded as its own piece at consecutive
      positions from `at`. */
  function AddRun(m: Mapping, run: string, at: nat): Mapping
    decreases |run|
  {
    if |run| == 0 then m else AddRun(AddIndex(m, [run[0]], at), run[1..], at + 1)
  }

  /** One iteration of the `NewMappingFromTokens` loop for the word `t`,
      with `cntr` positions handed out so far. Leading specials take the
      next positions, the core the position after them, the trailing
      specials the ones after the core; the core is recorded last. */
  function RecordWord(m: Mapping, t: string, cntr: nat): Mapping
  {
    RecordLayout(m, StartSpecial(t), Core(t), EndSpecial(StripStart(t)), cntr)
  }

  /** The three steps of one iteration, given the word's special runs and
      core. */
  function RecordLayout(m: Mapping, s: string, core: string, e: string, cntr: nat): Mapping
  {
    AddIndex(AddRun(AddRun(m, s, cntr), e, cntr + |s| + 1), core, cntr + |s|)
  }

  /** How far one word moves the position counter. */
  function Width(t: string): nat
  {
    |StartSpecial(t)| + |EndSpecial(StripStart(t))| + 1
  }

  /** The loop of `NewMappingFromTokens` from the word list `words` on. */
  function MapWords(m: Mapping, words: seq<string>, cntr: nat): Mapping
    decreases |words|
  {
    if |words| == 0 then m
    else MapWords(RecordWord(m, words[0], cntr), words[1..], cntr + Width(words[0]))
  }

  /** The positions of `w` in `ps`, ascending. */
  function IndicesOf(ps: seq<string>, w: string): seq<nat>
  {
    if |ps| == 0 then []
    else
      var pre := ps[..|ps| - 1];
      IndicesOf(pre, w) + (if ps[|ps| - 1] == w then [|ps| - 1] else [])
  }

  /** `IndicesOf` lists exactly the positions holding `w`, in ascending
      order. */
  lemma {:induction false} IndicesOfSpec(ps: seq<string>, w: string)
    ensures forall p: nat :: p in IndicesOf(ps, w) <==> p < |ps| && ps[p] == w
    ensures forall i, j :: 0 <= i < j < |IndicesOf(ps, w)| ==> IndicesOf(ps, w)[i] < IndicesOf(ps, w)[j]
    ensures forall i :: 0 <= i < |IndicesOf(ps, w)| ==> IndicesOf(ps, w)[i] < |ps|
    ensures w !in ps ==> IndicesOf(ps, w) == []
  {
    if |ps| > 0 {
      var pre := ps[..|ps| - 1];
      var last: seq<nat> := if ps[|ps| - 1] == w then [|ps| - 1] else [];
      assert IndicesOf(ps, w) == IndicesOf(pre, w) + last;
      IndicesOfSpec(pre, w);
      forall p: nat
        ensures p in IndicesOf(ps, w) <==> p < |ps| && ps[p] == w
      {
        if p < |ps| - 1 {
          assert ps[p] == pre[p];
        }
      }
    }
  }

  /** The reference position table of a position sequence: every piece
      recorded at its own position, in position order. */
  function MappingOf(ps: seq<string>): Mapping
    decreases |ps|
  {
    if |ps| == 0 then map[]
    else AddIndex(MappingOf(ps[..|ps| - 1]), ps[|ps| - 1], |ps| - 1)
  }

  /** The reference table holds exactly the pieces of `ps`, each with the
      ascending list of the positions holding it. */
  lemma {:induction false} MappingOfHolds(ps: seq<string>, w: string)
    ensures w in MappingOf(ps) <==> w in ps
    ensures w in ps ==> MappingOf(ps)[w] == IndicesOf(ps, w)
    decreases |ps|
  {
    if |ps| > 0 {
      var pre := ps[..|ps| - 1];
      MappingOfHolds(pre, w);
      IndicesOfSpec(pre, w);
      assert ps == pre + [ps[|ps| - 1]];
    }
  }

  /** `NewMappingFromTokens`: the position table of a word list. */
  function NewMappingFromTokens(words: seq<string>): Mapping
  {
    MapWords(map[], words, 0)
  }

  lemma MappingSnoc(ps: seq<string>, v: string, at: nat)
    requires at == |ps|
    ensures AddIndex(MappingOf(ps), v, at) == MappingOf(ps + [v])
  {
    assert (ps + [v])[..|ps|] == ps;
  }

  lemma {:induction false} AddRunMapping(ps: seq<string>, run: string, at: nat)
    requires at == |ps|
    ensures AddRun(MappingOf(ps), run, at) == MappingOf(ps + Singletons(run))
    decreases |run|
  {
    if |run| == 0 {
      assert ps + Singletons(run) == ps;
    } else {
      MappingSnoc(ps, [run[0]], at);
      AddRunMapping(ps + [[run[0]]], run[1..], at + 1);
      assert ps + [[run[0]]] + Singletons(run[1..]) == ps + Singletons(run);
    }
  }

  lemma AddIndexCommute(m: Mapping, a: string, i: nat, b: string, j: nat)
    requires a != b
    ensures AddIndex(AddIndex(m, a, i), b, j) == AddIndex(AddIndex(m, b, j), a, i)
  {
  }

  lemma {:induction false} AddRunCommute(m: Mapping, run: string, at: nat, v: string, j: nat)
    requires forall k :: 0 <= k < |run| ==> [run[k]] != v
    ensures AddIndex(AddRun(m, run, at), v, j) == AddRun(AddIndex(m, v, j), run, at)
    decreases |run|
  {
    if |run| > 0 {
      AddIndexCommute(m, [run[0]], at, v, j);
      AddRunCommute(AddIndex(m, [run[0]], at), run[1..], at + 1, v, j);
    }
  }

  /** One loop iteration of `NewMappingFromTokens` records exactly the
      word's pieces at the next positions. */
  lemma WordMapping(ps: seq<string>, t: string, at: nat)
    requires at == |ps|
    ensures RecordWord(MappingOf(ps), t, at) == MappingOf(ps + Pieces(t))
  {
    CoreIsNoSpecial(t);
    StepMapping(ps, StartSpecial(t), EndSpecial(StripStart(t)), Core(t), at);
  }

  lemma SameTable(ps: seq<string>, qs: seq<string>)
    requires ps == qs
    ensures MappingOf(ps) == MappingOf(qs)
  {
  }

  lemma StepMapping(ps: seq<string>, s: string, e: string, core: string, at: nat)
    requires at == |ps|
    requires forall k :: 0 <= k < |e| ==> [e[k]] != core
    ensures RecordLayout(MappingOf(ps), s, core, e, at) == MappingOf(ps + Layout(s, core, e))
  {
    var ps1 := ps + Singletons(s);
    var b := at + |s|;
    assert b == |ps1|;
    assert AddRun(MappingOf(ps), s, at) == MappingOf(ps1) by {
      AddRunMapping(ps, s, at);
    }
    assert AddIndex(AddRun(MappingOf(ps1), e, b + 1), core, b) == MappingOf(ps + Layout(s, core, e)) by {
      CoreThenRun(ps1, e, core, b);
      var qs := ps1 + [core] + Singletons(e);
      assert qs == ps + Layout(s, core, e) by {
        assert Layout(s, core, e) == Singletons(s) + [core] + Singletons(e);
        AppendAssoc4(ps, Singletons(s), [core], Singletons(e));
      }
      SameTable(qs, ps + Layout(s, core, e));
    }
    RecordLayoutChain(MappingOf(ps), MappingOf(ps1), s, core, e, at, MappingOf(ps + Layout(s, core, e)));
  }

  lemma RecordLayoutChain(m: Mapping, m1: Mapping, s: string, core: string, e: string, at: nat, r: Mapping)
    requires AddRun(m, s, at) == m1
    requires AddIndex(AddRun(m1, e, at + |s| + 1), core, at + |s|) == r
    ensures RecordLayout(m, s, core, e, at) == r
  {
  }

  lemma AppendAssoc4(a: seq<string>, b: seq<string>, c: seq<string>, d: seq<string>)
    ensures a + b + c + d == a + (b + c + d)
  {
  }

  /** Recording the core after the trailing run that follows it gives the
      table of the pieces in position order. */
  lemma CoreThenRun(ps: seq<string>, e: string, core: string, at: nat)
    requires at == |ps|
    requires forall k :: 0 <= k < |e| ==> [e[k]] != core
    ensures AddIndex(AddRun(MappingOf(ps), e, at + 1), core, at) == MappingOf(ps + [core] + Singletons(e))
  {
    AddRunCommute(MappingOf(ps), e, at + 1, core, at);
    MappingSnoc(ps, core, at);
    AddRunMapping(ps + [core], e, at + 1);
  }

  /** The core differs from every trailing special piece: once a trailing
      run exists, the core holds a letter or number. */
  lemma CoreIsNoSpecial(t: string)
    ensures forall k :: 0 <= k < |EndSpecial(StripStart(t))| ==> [EndSpecial(StripStart(t))[k]] != Core(t)
  {
    var e := EndSpecial(StripStart(t));
    StartSpecialSpec(t);
    EndSpecialSpec(StripStart(t));
    CoreSpec(t);
    if |e| > 0 {
      assert HasAlnum(t);
      assert IsAlnum(Core(t)[0]);
    }
  }

  /** The reference table records, for each piece, exactly the positions
      holding it. */
  lemma MappingOfSpec(ps: seq<string>)
    ensures forall w, p: nat :: w in MappingOf(ps) && p in MappingOf(ps)[w] <==> p < |ps| && ps[p] == w
  {
    forall w, p: nat
      ensures w in MappingOf(ps) && p in MappingOf(ps)[w] <==> p < |ps| && ps[p] == w
    {
      MappingOfHolds(ps, w);
      IndicesOfSpec(ps, w);
    }
  }

  lemma {:induction false} MapWordsMapping(ps: seq<string>, words: seq<string>, cntr: nat)
    requires cntr == |ps|
    ensures MapWords(MappingOf(ps), words, cntr) == MappingOf(ps + Positions(words))
    decreases |words|
  {
    if |words| == 0 {
      assert ps + Positions(words) == ps;
    } else {
      var qs := ps + Pieces(words[0]);
      MapWordsMapping(qs, words[1..], |qs|);
      MapWordsCons(ps, words, cntr);
    }
  }

  lemma MapWordsCons(ps: seq<string>, words: seq<string>, cntr: nat)
    requires cntr == |ps| && |words| > 0
    requires MapWords(MappingOf(ps + Pieces(words[0])), words[1..], |ps + Pieces(words[0])|)
      == MappingOf(ps + Pieces(words[0]) + Positions(words[1..]))
    ensures MapWords(MappingOf(ps), words, cntr) == MappingOf(ps + Positions(words))
  {
    MapWordsHead(ps, words, cntr);
    PositionsAppend(ps, words);
  }

  /** The first word's pieces are recorded and the counter moves past them. */
  lemma MapWordsHead(ps: seq<string>, words: seq<string>, cntr: nat)
    requires cntr == |ps| && |words| > 0
    ensures MapWords(MappingOf(ps), words, cntr)
      == MapWords(MappingOf(ps + Pieces(words[0])), words[1..], |ps + Pieces(words[0])|)
  {
    var t := words[0];
    var qs := ps + Pieces(t);
    assert |qs| == cntr + Width(t) by { WidthIsPieces(ps, t); }
    assert RecordWord(MappingOf(ps), t, cntr) == MappingOf(qs) by { WordMapping(ps, t, cntr); }
    MapWordsStep(MappingOf(ps), MappingOf(qs), words, cntr, |qs|);
  }

  /** One step of the loop, once the word's contribution is known. */
  lemma MapWordsStep(m: Mapping, m1: Mapping, words: seq<string>, cntr: nat, next: nat)
    requires |words| > 0
    requires RecordWord(m, words[0], cntr) == m1 && next == cntr + Width(words[0])
    ensures MapWords(m, words, cntr) == MapWords(m1, words[1..], next)
  {
  }

  lemma WidthIsPieces(ps: seq<string>, t: string)
    ensures |ps + Pieces(t)| == |ps| + Width(t)
  {
  }

  lemma PositionsAppend(ps: seq<string>, words: seq<string>)
    requires |words| > 0
    ensures ps + Pieces(words[0]) + Positions(words[1..]) == ps + Positions(words)
  {
    var head := Pieces(words[0]);
    var tail := Positions(words[1..]);
    assert Positions(words) == head + tail;
    AppendAssoc(ps, head, tail);
  }

  lemma AppendAssoc(a: seq<string>, b: seq<string>, c: seq<string>)
    ensures a + b + c == a + (b + c)
  {
  }

  /** Positions are handed out densely, every piece of every word in turn,
      so the table records exactly which piece sits at each position. */
  lemma NewMappingFromTokensTable(words: seq<string>)
    ensures NewMappingFromTokens(words) == MappingOf(Positions(words))
  {
    MapWordsMapping([], words, 0);
    assert MappingOf([]) == map[];
    assert [] + Positions(words) == Positions(words);
  }
}
