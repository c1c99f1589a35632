/** Phase B exactly as the source writes it: the two accumulators are rune
    sequences, and a rollback slices the first `matchOnOneSpecial` runes
    off each of them. In the unspaced accumulator that drops the pending
    one-rune pieces; in the spaced one it drops only the first runes of
    "p1 p2 ..." and leaves separators and pieces behind. */
module TilingAsWritten {
  import opened Wrappers
  import opened Text
  import opened Scorer
  import Tiling

  /** `completeWordSpaced` and `completeWord` with the offset and the
      pending run. */
  datatype Accum = Accum(startAt: nat, k: nat, spaced: string, word: string)

  predicate Valid(value: string, a: Accum)
  {
    a.startAt < |value| && a.k <= |a.word| <= |a.spaced|
  }

  /** `appendCompleteWord`: the first piece of an empty spaced accumulator
      replaces both; later pieces go after a space in the spaced one and
      directly after the unspaced one. */
  function AppendPiece(a: Accum, piece: string): (r: Accum)
  {
    if |a.spaced| == 0 then a.(spaced := piece, word := piece)
    else a.(spaced := a.spaced + [' '] + piece, word := a.word + piece)
  }

  /** The `specialCheck` loop from piece `j` on, with the source's slicing
      rollback. */
  function TileAsWritten(p: Policy, value: string, toks: seq<string>, j: nat, a: Accum): Option<string>
    requires Valid(value, a)
    decreases |toks| - j, if a.k > 0 then 1 else 0
  {
    if j >= |toks| then None
    else
      var compare := toks[j];
      Tiling.ProbeAtSpec(p, value, a.startAt, compare);
      match Tiling.ProbeAt(p, value, a.startAt, compare)
      case Exhausted => TileAsWritten(p, value, toks, j + 1, a.(startAt := 0))
      case Mismatch =>
        if a.k != 0 then TileAsWritten(p, value, toks, j, Accum(0, 0, a.spaced[a.k..], a.word[a.k..]))
        else TileAsWritten(p, value, toks, j + 1, Accum(0, 0, [], []))
      case Match =>
        var b := AppendPiece(a, compare);
        var k := Tiling.NextRun(a.k, |compare| == 1 && a.startAt == 0, compare[0]);
        var at := a.startAt + |compare|;
        if at == |value| then
          if IsEqual(p, b.word, value) then Some(b.spaced) else None
        else TileAsWritten(p, value, toks, j + 1, Accum(at, k, b.spaced, b.word))
  }

  /** `specialCheck` as written (same termination condition as the
      corrected one). */
  function SpecialCheckAsWritten(p: Policy, value: string, toks: seq<string>): Option<string>
    requires |value| > 0 || |toks| == 0
  {
    if |value| == 0 then None
    else TileAsWritten(p, value, toks, 0, Accum(0, 0, [], []))
  }

  /** One step of the loop as written on a match that does not reach the
      end. */
  lemma AsWrittenMatchStep(p: Policy, v: string, ts: seq<string>, j: nat, a: Accum)
    requires Valid(v, a) && j < |ts|
    requires Tiling.ProbeAt(p, v, a.startAt, ts[j]) == Tiling.Match
    requires a.startAt + |ts[j]| < |v|
    ensures |ts[j]| >= 1
    ensures TileAsWritten(p, v, ts, j, a) ==
      var b := AppendPiece(a, ts[j]);
      TileAsWritten(p, v, ts, j + 1, Accum(a.startAt + |ts[j]|,
        Tiling.NextRun(a.k, |ts[j]| == 1 && a.startAt == 0, ts[j][0]), b.spaced, b.word))
  {
    Tiling.ProbeAtSpec(p, v, a.startAt, ts[j]);
  }

  /** The step as written on a match that reaches the end of the text. */
  lemma AsWrittenFinalStep(p: Policy, v: string, ts: seq<string>, j: nat, a: Accum)
    requires Valid(v, a) && j < |ts|
    requires Tiling.ProbeAt(p, v, a.startAt, ts[j]) == Tiling.Match
    requires a.startAt + |ts[j]| == |v|
    ensures TileAsWritten(p, v, ts, j, a) ==
      var b := AppendPiece(a, ts[j]);
      if IsEqual(p, b.word, v) then Some(b.spaced) else None
  {
  }

  /** The rollback as written: both accumulators lose their first `k`
      runes. */
  lemma AsWrittenRollbackStep(p: Policy, v: string, ts: seq<string>, j: nat, a: Accum)
    requires Valid(v, a) && j < |ts| && a.k != 0
    requires Tiling.ProbeAt(p, v, a.startAt, ts[j]) == Tiling.Mismatch
    ensures TileAsWritten(p, v, ts, j, a) == TileAsWritten(p, v, ts, j, Accum(0, 0, a.spaced[a.k..], a.word[a.k..]))
  {
  }

  /** Two pending one-rune specials before a mismatch: the slice drops
      ". " from ". ," and keeps the comma, so the spaced result starts
      with ", " although the unspaced accumulator it was checked through
      is "unilever". The corrected tiling returns "uni lever". */
  lemma RollbackKeepsSeparator()
    ensures SpecialCheckAsWritten(MinScore(100), "unilever", [".", ",", "uni", "lever"]) == Some(", uni lever")
    ensures Tiling.SpecialCheck(MinScore(100), "unilever", [".", ",", "uni", "lever"]) == Some("uni lever")
  {
    var p := MinScore(100);
    AsWrittenRun(p);
    CorrectedRun(p);
  }

  lemma AsWrittenRun(p: Policy)
    requires p == MinScore(100)
    ensures SpecialCheckAsWritten(p, "unilever", [".", ",", "uni", "lever"]) == Some(", uni lever")
  {
    AsWrittenSpecials(p);
    AsWrittenRollback(p);
    AsWrittenUni(p);
    AsWrittenLever(p);
  }

  /** '.' and ',' match as a pending run of two: ". ," and ".,". */
  lemma AsWrittenSpecials(p: Policy)
    requires p == MinScore(100)
    ensures TileAsWritten(p, "unilever", [".", ",", "uni", "lever"], 0, Accum(0, 0, [], []))
         == TileAsWritten(p, "unilever", [".", ",", "uni", "lever"], 2, Accum(2, 2, ". ,", ".,"))
  {
    AsWrittenDot(p);
    AsWrittenComma(p);
  }

  lemma AsWrittenDot(p: Policy)
    requires p == MinScore(100)
    ensures TileAsWritten(p, "unilever", [".", ",", "uni", "lever"], 0, Accum(0, 0, [], []))
         == TileAsWritten(p, "unilever", [".", ",", "uni", "lever"], 1, Accum(1, 1, ".", "."))
  {
    ProbeOne(p, 0, ".");
    AsWrittenMatchStep(p, "unilever", [".", ",", "uni", "lever"], 0, Accum(0, 0, [], []));
    assert Runes.IsSpecial('.');
  }

  lemma AsWrittenComma(p: Policy)
    requires p == MinScore(100)
    ensures TileAsWritten(p, "unilever", [".", ",", "uni", "lever"], 1, Accum(1, 1, ".", "."))
         == TileAsWritten(p, "unilever", [".", ",", "uni", "lever"], 2, Accum(2, 2, ". ,", ".,"))
  {
    ProbeOne(p, 1, ",");
    AsWrittenMatchStep(p, "unilever", [".", ",", "uni", "lever"], 1, Accum(1, 1, ".", "."));
    assert Runes.IsSpecial(',');
    assert "." + [' '] + "," == ". ,";
    assert "." + "," == ".,";
  }

  /** "uni" clashes at offset 2; the rollback cuts two runes off each
      accumulator, leaving "," and "". */
  lemma AsWrittenRollback(p: Policy)
    requires p == MinScore(100)
    ensures TileAsWritten(p, "unilever", [".", ",", "uni", "lever"], 2, Accum(2, 2, ". ,", ".,"))
         == TileAsWritten(p, "unilever", [".", ",", "uni", "lever"], 2, Accum(0, 0, ",", ""))
  {
    ProbeUniLate(p);
    AsWrittenRollbackStep(p, "unilever", [".", ",", "uni", "lever"], 2, Accum(2, 2, ". ,", ".,"));
    assert (". ,")[2..] == ",";
    assert (".,")[2..] == "";
  }

  /** "uni" at offset 0 goes after the comma in the spaced accumulator. */
  lemma AsWrittenUni(p: Policy)
    requires p == MinScore(100)
    ensures TileAsWritten(p, "unilever", [".", ",", "uni", "lever"], 2, Accum(0, 0, ",", ""))
         == TileAsWritten(p, "unilever", [".", ",", "uni", "lever"], 3, Accum(3, 0, ", uni", "uni"))
  {
    ProbeWhole(p, 0, "uni");
    AsWrittenMatchStep(p, "unilever", [".", ",", "uni", "lever"], 2, Accum(0, 0, ",", ""));
    assert "," + [' '] + "uni" == ", uni";
    assert "" + "uni" == "uni";
  }

  /** "lever" ends the text; the unspaced "unilever" is checked and the
      spaced ", uni lever" returned. */
  lemma AsWrittenLever(p: Policy)
    requires p == MinScore(100)
    ensures TileAsWritten(p, "unilever", [".", ",", "uni", "lever"], 3, Accum(3, 0, ", uni", "uni")) == Some(", uni lever")
  {
    ProbeWhole(p, 3, "lever");
    AsWrittenFinalStep(p, "unilever", [".", ",", "uni", "lever"], 3, Accum(3, 0, ", uni", "uni"));
    assert ", uni" + [' '] + "lever" == ", uni lever";
    assert "uni" + "lever" == "unilever";
    IsEqualReflexive(p, "unilever");
  }

  lemma CorrectedRun(p: Policy)
    requires p == MinScore(100)
    ensures Tiling.SpecialCheck(p, "unilever", [".", ",", "uni", "lever"]) == Some("uni lever")
  {
    CorrectedSpecials(p);
    CorrectedRollback(p);
    CorrectedUni(p, ",");
    CorrectedLever(p, ",");
    assert Tiling.Tile(p, "unilever", [".", ",", "uni", "lever"], 0, Tiling.Cursor(0, 0, [])) == Some(["uni", "lever"]);
    UniLeverSpaced();
  }

  lemma UniLeverSpaced()
    ensures JoinSpaced(["uni", "lever"]) == "uni lever"
  {
    assert ["uni", "lever"][..1] == ["uni"];
  }

  lemma CorrectedSpecials(p: Policy)
    requires p == MinScore(100)
    ensures Tiling.Tile(p, "unilever", [".", ",", "uni", "lever"], 0, Tiling.Cursor(0, 0, []))
         == Tiling.Tile(p, "unilever", [".", ",", "uni", "lever"], 2, Tiling.Cursor(2, 2, [".", ","]))
  {
    var v := "unilever";
    var ts := [".", ",", "uni", "lever"];
    ProbeOne(p, 0, ".");
    Tiling.MatchStep(p, v, ts, 0, Tiling.Cursor(0, 0, []));
    assert Runes.IsSpecial('.') && Runes.IsSpecial(',');
    assert [] + ["."] == ["."];
    ProbeOne(p, 1, ",");
    Tiling.MatchStep(p, v, ts, 1, Tiling.Cursor(1, 1, ["."]));
    assert ["."] + [","] == [".", ","];
  }

  /** The corrected rollback drops both pending pieces. */
  lemma CorrectedRollback(p: Policy)
    requires p == MinScore(100)
    ensures Tiling.Tile(p, "unilever", [".", ",", "uni", "lever"], 2, Tiling.Cursor(2, 2, [".", ","]))
         == Tiling.Tile(p, "unilever", [".", ",", "uni", "lever"], 2, Tiling.Cursor(0, 0, []))
  {
    ProbeUniLate(p);
    Tiling.RollbackStep(p, "unilever", [".", ",", "uni", "lever"], 2, Tiling.Cursor(2, 2, [".", ","]));
    assert [".", ","][2..] == [];
  }

  lemma CorrectedUni(p: Policy, mid: string)
    requires p == MinScore(100) || p == MinScore(40)
    ensures Tiling.Tile(p, "unilever", [".", mid, "uni", "lever"], 2, Tiling.Cursor(0, 0, []))
         == Tiling.Tile(p, "unilever", [".", mid, "uni", "lever"], 3, Tiling.Cursor(3, 0, ["uni"]))
  {
    ProbeWhole(p, 0, "uni");
    Tiling.MatchStep(p, "unilever", [".", mid, "uni", "lever"], 2, Tiling.Cursor(0, 0, []));
    assert [] + ["uni"] == ["uni"];
  }

  lemma CorrectedLever(p: Policy, mid: string)
    requires p == MinScore(100) || p == MinScore(40)
    ensures Tiling.Tile(p, "unilever", [".", mid, "uni", "lever"], 3, Tiling.Cursor(3, 0, ["uni"])) == Some(["uni", "lever"])
  {
    ProbeWhole(p, 3, "lever");
    Tiling.FinalStep(p, "unilever", [".", mid, "uni", "lever"], 3, Tiling.Cursor(3, 0, ["uni"]));
    IsEqualReflexive(p, "unilever");
    ConcatAppend(["uni"], "lever");
    assert "uni" + "lever" == "unilever";
    assert ["uni"] + ["lever"] == ["uni", "lever"];
  }

  lemma ProbeOne(p: Policy, s: nat, c: string)
    requires s < 8 && |c| == 1 && Runes.IsSpecial(c[0])
    requires !Runes.IsNumeric("unilever"[s])
    ensures Tiling.ProbeAt(p, "unilever", s, c) == Tiling.Match
  {
    Tiling.GrowSpec(8, s, 1, 1);
    assert "unilever"[s..s + 1] == ["unilever"[s]];
  }

  lemma ProbeUniLate(p: Policy)
    ensures Tiling.ProbeAt(p, "unilever", 2, "uni") == Tiling.Mismatch
  {
    Tiling.GrowSpec(8, 2, 1, 3);
    assert "unilever"[2..5] == "ile";
    SameKindMismatchRejects(p, "uni", "ile", 0);
  }

  lemma ProbeWhole(p: Policy, s: nat, c: string)
    requires p == MinScore(100) || p == MinScore(40)
    requires 1 < |c| && s + |c| <= 8 && "unilever"[s..s + |c|] == c
    ensures Tiling.ProbeAt(p, "unilever", s, c) == Tiling.Match
  {
    Tiling.GrowSpec(8, s, 1, |c|);
    IsEqualReflexive(p, c);
  }

  /** With a lenient minimum score a pending run can hold a two-rune
      special piece: "!!" matches "ni" with no equal position at 40. The
      rollback then cuts two runes off ".!!" and keeps "!", so the
      unspaced accumulator becomes "!unilever" and the match is lost; the
      corrected tiling returns "uni lever". */
  lemma RollbackLosesMatch()
    ensures SpecialCheckAsWritten(MinScore(40), "unilever", [".", "!!", "uni", "lever"]) == None
    ensures Tiling.SpecialCheck(MinScore(40), "unilever", [".", "!!", "uni", "lever"]) == Some("uni lever")
  {
    var p := MinScore(40);
    LenientAsWrittenRun(p);
    LenientCorrectedRun(p);
  }

  lemma LenientAsWrittenRun(p: Policy)
    requires p == MinScore(40)
    ensures SpecialCheckAsWritten(p, "unilever", [".", "!!", "uni", "lever"]) == None
  {
    LenientDot(p);
    LenientBangs(p);
    LenientRollback(p);
    LenientUni(p);
    LenientLever(p);
  }

  lemma LenientDot(p: Policy)
    requires p == MinScore(40)
    ensures TileAsWritten(p, "unilever", [".", "!!", "uni", "lever"], 0, Accum(0, 0, [], []))
         == TileAsWritten(p, "unilever", [".", "!!", "uni", "lever"], 1, Accum(1, 1, ".", "."))
  {
    ProbeOne(p, 0, ".");
    AsWrittenMatchStep(p, "unilever", [".", "!!", "uni", "lever"], 0, Accum(0, 0, [], []));
    assert Runes.IsSpecial('.');
  }

  /** "!!" extends the pending run to two: ". !!" and ".!!". */
  lemma LenientBangs(p: Policy)
    requires p == MinScore(40)
    ensures TileAsWritten(p, "unilever", [".", "!!", "uni", "lever"], 1, Accum(1, 1, ".", "."))
         == TileAsWritten(p, "unilever", [".", "!!", "uni", "lever"], 2, Accum(3, 2, ". !!", ".!!"))
  {
    ProbeBangs(p);
    AsWrittenMatchStep(p, "unilever", [".", "!!", "uni", "lever"], 1, Accum(1, 1, ".", "."));
    assert Runes.IsSpecial('!');
    assert "." + [' '] + "!!" == ". !!";
    assert "." + "!!" == ".!!";
  }

  /** "uni" clashes with "lev"; the rollback leaves "!!" and "!". */
  lemma LenientRollback(p: Policy)
    requires p == MinScore(40)
    ensures TileAsWritten(p, "unilever", [".", "!!", "uni", "lever"], 2, Accum(3, 2, ". !!", ".!!"))
         == TileAsWritten(p, "unilever", [".", "!!", "uni", "lever"], 2, Accum(0, 0, "!!", "!"))
  {
    ProbeUniAfterBangs(p);
    AsWrittenRollbackStep(p, "unilever", [".", "!!", "uni", "lever"], 2, Accum(3, 2, ". !!", ".!!"));
    assert (". !!")[2..] == "!!";
    assert (".!!")[2..] == "!";
  }

  lemma LenientUni(p: Policy)
    requires p == MinScore(40)
    ensures TileAsWritten(p, "unilever", [".", "!!", "uni", "lever"], 2, Accum(0, 0, "!!", "!"))
         == TileAsWritten(p, "unilever", [".", "!!", "uni", "lever"], 3, Accum(3, 0, "!! uni", "!uni"))
  {
    ProbeWhole(p, 0, "uni");
    AsWrittenMatchStep(p, "unilever", [".", "!!", "uni", "lever"], 2, Accum(0, 0, "!!", "!"));
    assert "!!" + [' '] + "uni" == "!! uni";
    assert "!" + "uni" == "!uni";
  }

  /** "lever" ends the text, but "!unilever" is one rune too long to be
      equal to "unilever". */
  lemma LenientLever(p: Policy)
    requires p == MinScore(40)
    ensures TileAsWritten(p, "unilever", [".", "!!", "uni", "lever"], 3, Accum(3, 0, "!! uni", "!uni")) == None
  {
    ProbeWhole(p, 3, "lever");
    AsWrittenFinalStep(p, "unilever", [".", "!!", "uni", "lever"], 3, Accum(3, 0, "!! uni", "!uni"));
    assert |"!uni" + "lever"| == 9;
  }

  lemma LenientCorrectedRun(p: Policy)
    requires p == MinScore(40)
    ensures Tiling.SpecialCheck(p, "unilever", [".", "!!", "uni", "lever"]) == Some("uni lever")
  {
    LenientCorrectedSpecials(p);
    LenientCorrectedRollback(p);
    CorrectedUni(p, "!!");
    CorrectedLever(p, "!!");
    assert Tiling.Tile(p, "unilever", [".", "!!", "uni", "lever"], 0, Tiling.Cursor(0, 0, [])) == Some(["uni", "lever"]);
    UniLeverSpaced();
  }

  lemma LenientCorrectedSpecials(p: Policy)
    requires p == MinScore(40)
    ensures Tiling.Tile(p, "unilever", [".", "!!", "uni", "lever"], 0, Tiling.Cursor(0, 0, []))
         == Tiling.Tile(p, "unilever", [".", "!!", "uni", "lever"], 2, Tiling.Cursor(3, 2, [".", "!!"]))
  {
    var v := "unilever";
    var ts := [".", "!!", "uni", "lever"];
    ProbeOne(p, 0, ".");
    Tiling.MatchStep(p, v, ts, 0, Tiling.Cursor(0, 0, []));
    assert Runes.IsSpecial('.') && Runes.IsSpecial('!');
    assert [] + ["."] == ["."];
    ProbeBangs(p);
    Tiling.MatchStep(p, v, ts, 1, Tiling.Cursor(1, 1, ["."]));
    assert ["."] + ["!!"] == [".", "!!"];
  }

  /** The corrected rollback drops both pending pieces. */
  lemma LenientCorrectedRollback(p: Policy)
    requires p == MinScore(40)
    ensures Tiling.Tile(p, "unilever", [".", "!!", "uni", "lever"], 2, Tiling.Cursor(3, 2, [".", "!!"]))
         == Tiling.Tile(p, "unilever", [".", "!!", "uni", "lever"], 2, Tiling.Cursor(0, 0, []))
  {
    ProbeUniAfterBangs(p);
    Tiling.RollbackStep(p, "unilever", [".", "!!", "uni", "lever"], 2, Tiling.Cursor(3, 2, [".", "!!"]));
    assert [".", "!!"][2..] == [];
  }

  /** At a minimum score of 40 a two-rune word needs no equal position:
      "!!" is equal to "ni", since no position is fatal. */
  lemma ProbeBangs(p: Policy)
    requires p == MinScore(40)
    ensures Tiling.ProbeAt(p, "unilever", 1, "!!") == Tiling.Match
  {
    Tiling.GrowSpec(8, 1, 1, 2);
    assert "unilever"[1..3] == "ni";
    assert Runes.IsLetter('n') && !Runes.IsLetter('!') && !Runes.IsNumeric('n');
    assert ScoreFrom("!!", "ni", 0, 0) == Some(0);
  }

  lemma ProbeUniAfterBangs(p: Policy)
    ensures Tiling.ProbeAt(p, "unilever", 3, "uni") == Tiling.Mismatch
  {
    Tiling.GrowSpec(8, 3, 1, 3);
    assert "unilever"[3..6] == "lev";
    SameKindMismatchRejects(p, "uni", "lev", 0);
  }
}
