/** Worked inputs from the repository's tests, checked against the model. */
module Samples {
  import opened Runes
  import opened Canon
  import opened Mapper
  import opened Ids

  const Abacabd: seq<string> := ["a", "b", "a", "c", "c", "a", "b", "d"]

  lemma AbacabdPlain()
    ensures Positions(Abacabd) == Abacabd
  {
    assert IsAlnum('a') && IsAlnum('b') && IsAlnum('c') && IsAlnum('d');
    PlainPositions(Abacabd);
  }

  lemma AbacabdFirst()
    ensures seq(8, p requires 0 <= p < 8 => FirstOcc(Abacabd, Abacabd[p])) == [0, 1, 0, 3, 3, 0, 1, 7]
  {
    assert FirstOcc(Abacabd, "a") == 0;
    assert FirstOcc(Abacabd, "b") == 1;
    assert FirstOcc(Abacabd, "c") == 3;
    assert FirstOcc(Abacabd, "d") == 7;
  }

  /** `a b a c c a b d`: a repeated word reuses the id of its first
      occurrence, whatever the map iteration order. */
  lemma RepeatedWordsShareIds(order: nat -> seq<string>)
    requires Covers(NewMappingFromTokens(Abacabd), order)
    ensures MakeTokens(Abacabd, order).ids == [0, 1, 0, 3, 3, 0, 1, 7]
  {
    AbacabdPlain();
    MakeTokensSpec(Abacabd, order);
    AbacabdFirst();
  }
}

/** Phase B on the tiling inputs of the document tests, at a minimum score
    of 60. */
module TilingSamples {
  import opened Wrappers
  import Canon
  import opened Runes
  import opened Text
  import opened Scorer
  import opened Tiling

  /** A piece longer than one rune that is exactly the window matches when
      the policy accepts a full score. */
  lemma ProbeExact(p: Policy, value: string, s: nat, c: string)
    requires Accept(p, |c|, |c|)
    requires 1 < |c| && s + |c| <= |value| && s < |value| && value[s..s + |c|] == c
    ensures ProbeAt(p, value, s, c) == Match
  {
    GrowSpec(|value|, s, 1, |c|);
    IsEqualReflexive(p, c);
  }

  /** A one-rune special piece matches any window that is not numeric. */
  lemma ProbeSpecial(p: Policy, value: string, s: nat, c: string)
    requires |c| == 1 && IsSpecial(c[0]) && s < |value| && !IsNumeric(value[s])
    ensures ProbeAt(p, value, s, c) == Match
  {
    GrowSpec(|value|, s, 1, 1);
    assert value[s..s + 1] == [value[s]];
  }

  /** A piece of the window's length whose first rune is a different letter
      does not match. */
  lemma ProbeLetterClash(p: Policy, value: string, s: nat, c: string)
    requires 1 < |c| && s + |c| <= |value| && s < |value|
    requires c[0] != value[s] && IsLetter(c[0]) && IsLetter(value[s])
    ensures ProbeAt(p, value, s, c) == Mismatch
  {
    GrowSpec(|value|, s, 1, |c|);
    SameKindMismatchRejects(p, c, value[s..s + |c|], 0);
  }

  /** A rollback drops the first k pieces, which after an offset reset
      need not be the pending run: on "ab" with "a", "xyz", ".", "q", the
      piece "a" is kept across the reset by "xyz", "." starts a run of one
      at offset 0, and the clash of "q" drops "a" and keeps ".". The
      tiling fails either way. */
  lemma RollbackAfterReset()
    ensures Tile(MinScore(100), "ab", ["a", "xyz", ".", "q"], 3, Cursor(1, 1, ["a", "."]))
         == Tile(MinScore(100), "ab", ["a", "xyz", ".", "q"], 3, Cursor(0, 0, ["."]))
    ensures Tile(MinScore(100), "ab", ["a", "xyz", ".", "q"], 0, Cursor(0, 0, [])) == None
  {
    var p := MinScore(100);
    var ts := ["a", "xyz", ".", "q"];
    GrowSpec(2, 1, 1, 1);
    assert "ab"[1..2] == "b";
    RollbackStep(p, "ab", ts, 3, Cursor(1, 1, ["a", "."]));
    assert ["a", "."][1..] == ["."];
    RunAfterResetFails(p);
  }

  lemma RunAfterResetFails(p: Policy)
    requires p == MinScore(100)
    ensures Tile(p, "ab", ["a", "xyz", ".", "q"], 0, Cursor(0, 0, [])) == None
  {
    var ts := ["a", "xyz", ".", "q"];
    GrowSpec(2, 0, 1, 1);
    assert "ab"[0..1] == "a";
    assert CompareRune('a', 'a');
    MatchStep(p, "ab", ts, 0, Cursor(0, 0, []));
    assert [] + ["a"] == ["a"];
    GrowSpec(2, 1, 1, 3);
    ExhaustedStep(p, "ab", ts, 1, Cursor(1, 0, ["a"]));
    ProbeSpecial(p, "ab", 0, ".");
    MatchStep(p, "ab", ts, 2, Cursor(0, 0, ["a"]));
    assert IsSpecial('.');
    assert ["a"] + ["."] == ["a", "."];
    GrowSpec(2, 1, 1, 1);
    assert "ab"[1..2] == "b";
    RollbackStep(p, "ab", ts, 3, Cursor(1, 1, ["a", "."]));
    assert ["a", "."][1..] == ["."];
    assert "ab"[0..1] == "a";
    ClearStep(p, "ab", ts, 3, Cursor(0, 0, ["."]));
  }

  /** "un", "!", "lever" tile "unilever": the '!' masks the 'i', and the
      joined "un!lever" scores 7 of 8. */
  lemma UnBangLever(p: Policy)
    requires p == MinScore(60)
    ensures SpecialCheck(p, "unilever", ["un", "!", "lever"]) == Some("un ! lever")
  {
    UnBangLeverHead(p);
    UnBangLeverMiddle(p);
    UnBangLeverTail(p);
    assert Tile(p, "unilever", ["un", "!", "lever"], 0, Cursor(0, 0, [])) == Some(["un", "!", "lever"]);
    UnBangLeverSpaced();
  }

  lemma UnBangLeverSpaced()
    ensures JoinSpaced(["un", "!", "lever"]) == "un ! lever"
  {
    assert ["un", "!", "lever"][..2] == ["un", "!"];
    assert ["un", "!"][..1] == ["un"];
  }

  /** "un!lever" against "unilever": the '!' masks the 'i' and the other
      seven runes agree. */
  lemma UnBangScore(p: Policy)
    requires p == MinScore(60)
    ensures IsEqual(p, "un!lever", "unilever")
  {
    assert ScoreFrom("un!lever", "unilever", 0, 0) == Some(7);
  }

  lemma UnBangLeverHead(p: Policy)
    requires p == MinScore(60)
    ensures Tile(p, "unilever", ["un", "!", "lever"], 0, Cursor(0, 0, []))
         == Tile(p, "unilever", ["un", "!", "lever"], 1, Cursor(2, 0, ["un"]))
  {
    var v := "unilever";
    assert v[0..2] == "un";
    ProbeExact(p, v, 0, "un");
    MatchStep(p, v, ["un", "!", "lever"], 0, Cursor(0, 0, []));
    assert [] + ["un"] == ["un"];
  }

  lemma UnBangLeverMiddle(p: Policy)
    requires p == MinScore(60)
    ensures Tile(p, "unilever", ["un", "!", "lever"], 1, Cursor(2, 0, ["un"]))
         == Tile(p, "unilever", ["un", "!", "lever"], 2, Cursor(3, 0, ["un", "!"]))
  {
    var v := "unilever";
    assert v[2] == 'i' && IsSpecial('!');
    ProbeSpecial(p, v, 2, "!");
    MatchStep(p, v, ["un", "!", "lever"], 1, Cursor(2, 0, ["un"]));
    assert ["un"] + ["!"] == ["un", "!"];
  }

  lemma UnBangLeverTail(p: Policy)
    requires p == MinScore(60)
    ensures Tile(p, "unilever", ["un", "!", "lever"], 2, Cursor(3, 0, ["un", "!"])) == Some(["un", "!", "lever"])
  {
    var v := "unilever";
    assert v[3..8] == "lever";
    ProbeExact(p, v, 3, "lever");
    FinalStep(p, v, ["un", "!", "lever"], 2, Cursor(3, 0, ["un", "!"]));
    UnBangScore(p);
    UnBangLeverJoined();
    assert ["un", "!"] + ["lever"] == ["un", "!", "lever"];
  }

  lemma UnBangLeverJoined()
    ensures Concat(["un", "!"] + ["lever"]) == "un!lever"
  {
    assert ["un", "!"] + ["lever"] == ["un", "!", "lever"];
    Canon.ConcatThree("un", "!", "lever");
    assert "un" + "!" + "lever" == "un!lever";
  }

  /** A leading '.' matches the 'u' as a pending special; "uni" then
      clashes at offset 1, the '.' is rolled back and "uni" is retried at
      offset 0. */
  lemma SpecialBefore(p: Policy)
    requires p == MinScore(60)
    ensures SpecialCheck(p, "unilever", [".", "uni", "lever"]) == Some("uni lever")
  {
    var v := "unilever";
    var ts := [".", "uni", "lever"];
    SpecialBeforeHead(p);
    SpecialBeforeRollback(p);
    SpecialBeforeTail(p);
    assert Tile(p, v, ts, 0, Cursor(0, 0, [])) == Some(["uni", "lever"]);
    UniLeverSpaced();
  }

  lemma UniLeverSpaced()
    ensures JoinSpaced(["uni", "lever"]) == "uni lever"
  {
    assert ["uni", "lever"][..1] == ["uni"];
  }

  lemma SpecialBeforeHead(p: Policy)
    requires p == MinScore(60)
    ensures Tile(p, "unilever", [".", "uni", "lever"], 0, Cursor(0, 0, []))
         == Tile(p, "unilever", [".", "uni", "lever"], 1, Cursor(1, 1, ["."]))
  {
    var v := "unilever";
    assert v[0] == 'u' && IsSpecial('.');
    ProbeSpecial(p, v, 0, ".");
    MatchStep(p, v, [".", "uni", "lever"], 0, Cursor(0, 0, []));
    assert [] + ["."] == ["."];
  }

  lemma SpecialBeforeRollback(p: Policy)
    requires p == MinScore(60)
    ensures Tile(p, "unilever", [".", "uni", "lever"], 1, Cursor(1, 1, ["."]))
         == Tile(p, "unilever", [".", "uni", "lever"], 1, Cursor(0, 0, []))
  {
    var v := "unilever";
    assert v[1] == 'n';
    ProbeLetterClash(p, v, 1, "uni");
    RollbackStep(p, v, [".", "uni", "lever"], 1, Cursor(1, 1, ["."]));
    assert ["."][1..] == [];
  }

  lemma SpecialBeforeTail(p: Policy)
    requires p == MinScore(60)
    ensures Tile(p, "unilever", [".", "uni", "lever"], 1, Cursor(0, 0, [])) == Some(["uni", "lever"])
  {
    var v := "unilever";
    assert v[0..3] == "uni";
    ProbeExact(p, v, 0, "uni");
    MatchStep(p, v, [".", "uni", "lever"], 1, Cursor(0, 0, []));
    assert [] + ["uni"] == ["uni"];
    SpecialBeforeLast(p);
  }

  lemma SpecialBeforeLast(p: Policy)
    requires p == MinScore(60)
    ensures Tile(p, "unilever", [".", "uni", "lever"], 2, Cursor(3, 0, ["uni"])) == Some(["uni", "lever"])
  {
    var v := "unilever";
    assert v[3..8] == "lever";
    ProbeExact(p, v, 3, "lever");
    FinalStep(p, v, [".", "uni", "lever"], 2, Cursor(3, 0, ["uni"]));
    IsEqualReflexive(p, v);
    UniLeverJoined();
    assert ["uni"] + ["lever"] == ["uni", "lever"];
  }

  lemma UniLeverJoined()
    ensures Concat(["uni"] + ["lever"]) == "unilever"
  {
    ConcatAppend(["uni"], "lever");
    assert "uni" + "lever" == "unilever";
  }

  /** "pera" clashes with "unil" at once and there is nothing to roll back. */
  lemma Pera()
    ensures SpecialCheck(MinScore(60), "unilever", ["pera"]) == None
  {
    ProbeLetterClash(MinScore(60), "unilever", 0, "pera");
  }
}

/** `Compare` on a test input that Phase A cannot settle. */
module EngineSamples {
  import opened Wrappers
  import opened Text
  import opened Scorer
  import opened Positional
  import opened Engine
  import TilingSamples

  /** No piece has the length of "unilever", so Phase A collects nothing
      and the tiling's answer is returned unchanged. */
  lemma UnileverDocument()
    ensures var d := Document("unilever", ["unilever"], MinScore(60));
      && Settles(d, ["un", "!", "lever"])
      && Compare(d, ["un", "!", "lever"]) == Some("un ! lever")
  {
    var d := Document("unilever", ["unilever"], MinScore(60));
    var ts := ["un", "!", "lever"];
    assert Concat(["unilever"]) == "unilever";
    FirstMatchSpec(EqualityOf(d.policy), "unilever", ts, 0);
    assert !FirstMatch(EqualityOf(d.policy), "unilever", ts, 0).found;
    assert Matched(EqualityOf(d.policy), d.words, ts) == [];
    CompareSpec(d, ts);
    TilingSamples.UnBangLever(d.policy);
  }
}

/** The special-run tests of the canonicaliser. */
module CanonSamples {
  import opened Canon

  /** A leading run stops at the first letter; specials inside the word
      stay in the core. */
  lemma StartSpecialExamples()
    ensures StartSpecial("amigo") == []
    ensures StartSpecial(".amigo") == "."
    ensures StartSpecial("...amigo") == "..."
    ensures StartSpecial(".a.migo") == "."
  {
    assert IsAlnum('a') && !IsAlnum('.');
    assert StartSpecialFrom("amigo", 0) == [];
    assert StartSpecialFrom(".amigo", 1) == ".amigo"[..1];
    assert StartSpecialFrom("...amigo", 3) == "...amigo"[..3];
    assert StartSpecialFrom(".a.migo", 1) == ".a.migo"[..1];
  }

  /** A trailing run stops at the last letter. */
  lemma EndSpecialExamples()
    ensures EndSpecial("amigo") == []
    ensures EndSpecial("amigo.") == "."
    ensures EndSpecial("amigo...") == "..."
    ensures EndSpecial("amig.o.") == "."
  {
    assert IsAlnum('o') && !IsAlnum('.');
    assert EndSpecialFrom("amigo", 5) == Reverse("amigo"[5..]);
    assert EndSpecialFrom("amigo.", 5) == Reverse("amigo."[5..]);
    assert EndSpecialFrom("amigo...", 5) == Reverse("amigo..."[5..]);
    assert EndSpecialFrom("amigo...", 8) == EndSpecialFrom("amigo...", 5);
    assert EndSpecialFrom("amig.o.", 6) == Reverse("amig.o."[6..]);
    assert Reverse("...") == "...";
  }
}

/** The position-table tests of `NewMappingFromTokens`. */
module MapperSamples {
  import opened Canon
  import opened Mapper

  /** A repeated word accumulates all of its positions. */
  lemma RepeatedWordsAccumulate()
    ensures NewMappingFromTokens(["boa", "comida", "boa", "comida"]) == map["boa" := [0, 2], "comida" := [1, 3]]
  {
    var ws := ["boa", "comida", "boa", "comida"];
    assert IsAlnum('a') && IsAlnum('b') && IsAlnum('c');
    PlainPositions(ws);
    NewMappingFromTokensTable(ws);
    RepeatedTable();
  }

  lemma RepeatedTable()
    ensures MappingOf(["boa", "comida", "boa", "comida"]) == map["boa" := [0, 2], "comida" := [1, 3]]
  {
    assert MappingOf(["boa", "comida"]) == map["boa" := [0], "comida" := [1]] by {
      MappingSnoc([], "boa", 0);
      MappingSnoc(["boa"], "comida", 1);
      assert [] + ["boa"] == ["boa"];
      assert ["boa"] + ["comida"] == ["boa", "comida"];
    }
    MappingSnoc(["boa", "comida"], "boa", 2);
    MappingSnoc(["boa", "comida", "boa"], "comida", 3);
    assert ["boa", "comida"] + ["boa"] == ["boa", "comida", "boa"];
    assert ["boa", "comida", "boa"] + ["comida"] == ["boa", "comida", "boa", "comida"];
    assert [0] + [2] == [0, 2] && [1] + [3] == [1, 3];
  }

  /** A trailing ':' and a leading '.' take the positions between the two
      cores. */
  lemma SpecialsBetweenWords()
    ensures NewMappingFromTokens(["comida:", ".gostosa"]) == map["comida" := [0], ":" := [1], "." := [2], "gostosa" := [3]]
  {
    var ws := ["comida:", ".gostosa"];
    ComidaColon();
    DotGostosa();
    assert Positions(ws) == ["comida", ":", ".", "gostosa"] by {
      assert Positions(ws[1..]) == Pieces(".gostosa") + Positions([]);
    }
    NewMappingFromTokensTable(ws);
    SpecialsBetweenTable();
  }

  lemma SpecialsBetweenTable()
    ensures MappingOf(["comida", ":", ".", "gostosa"]) == map["comida" := [0], ":" := [1], "." := [2], "gostosa" := [3]]
  {
    assert MappingOf(["comida", ":"]) == map["comida" := [0], ":" := [1]] by {
      MappingSnoc([], "comida", 0);
      MappingSnoc(["comida"], ":", 1);
      assert [] + ["comida"] == ["comida"];
      assert ["comida"] + [":"] == ["comida", ":"];
    }
    MappingSnoc(["comida", ":"], ".", 2);
    MappingSnoc(["comida", ":", "."], "gostosa", 3);
    assert ["comida", ":"] + ["."] == ["comida", ":", "."];
    assert ["comida", ":", "."] + ["gostosa"] == ["comida", ":", ".", "gostosa"];
  }

  /** A ':' on both sides of a word is recorded at both positions. */
  lemma SharedSpecial()
    ensures NewMappingFromTokens([":comida:", ".gostosa"]) == map[":" := [0, 2], "comida" := [1], "." := [3], "gostosa" := [4]]
  {
    var ws := [":comida:", ".gostosa"];
    ColonComidaColon();
    DotGostosa();
    assert Positions(ws) == [":", "comida", ":", ".", "gostosa"] by {
      assert Positions(ws[1..]) == Pieces(".gostosa") + Positions([]);
    }
    NewMappingFromTokensTable(ws);
    SharedSpecialTable();
  }

  lemma SharedSpecialTable()
    ensures MappingOf([":", "comida", ":", ".", "gostosa"]) == map[":" := [0, 2], "comida" := [1], "." := [3], "gostosa" := [4]]
  {
    SharedSpecialPrefix();
    MappingSnoc([":", "comida", ":"], ".", 3);
    assert [":", "comida", ":"] + ["."] == [":", "comida", ":", "."];
    MappingSnoc([":", "comida", ":", "."], "gostosa", 4);
    assert [":", "comida", ":", "."] + ["gostosa"] == [":", "comida", ":", ".", "gostosa"];
  }

  lemma SharedSpecialPrefix()
    ensures MappingOf([":", "comida", ":"]) == map[":" := [0, 2], "comida" := [1]]
  {
    MappingSnoc([], ":", 0);
    MappingSnoc([":"], "comida", 1);
    assert [] + [":"] == [":"];
    assert [":"] + ["comida"] == [":", "comida"];
    MappingSnoc([":", "comida"], ":", 2);
    assert [":", "comida"] + [":"] == [":", "comida", ":"];
    assert [0] + [2] == [0, 2];
  }

  lemma ComidaColon()
    ensures Pieces("comida:") == ["comida", ":"]
  {
    var t := "comida:";
    assert IsAlnum('c') && IsAlnum('a') && !IsAlnum(':');
    assert StartSpecialFrom(t, 0) == [];
    assert StripStart(t) == t;
    assert EndSpecialFrom(t, 6) == Reverse(t[6..]);
    assert EndSpecial(t) == ":";
    assert Core(t) == "comida";
    assert Singletons([]) == [] && Singletons(":") == [":"];
  }

  lemma DotGostosa()
    ensures Pieces(".gostosa") == [".", "gostosa"]
  {
    var t := ".gostosa";
    assert IsAlnum('g') && IsAlnum('a') && !IsAlnum('.');
    assert StartSpecialFrom(t, 1) == t[..1];
    assert StripStart(t) == "gostosa";
    assert EndSpecialFrom("gostosa", 7) == Reverse("gostosa"[7..]);
    assert Core(t) == "gostosa";
    assert Singletons([]) == [] && Singletons(".") == ["."];
  }

  lemma ColonComidaColon()
    ensures Pieces(":comida:") == [":", "comida", ":"]
  {
    var t := ":comida:";
    assert IsAlnum('c') && IsAlnum('a') && !IsAlnum(':');
    assert StartSpecialFrom(t, 1) == t[..1];
    assert StripStart(t) == "comida:";
    assert EndSpecialFrom("comida:", 6) == Reverse("comida:"[6..]);
    assert EndSpecial("comida:") == ":";
    assert Core(t) == "comida";
    assert Singletons(":") == [":"];
  }
}

/** The removal tests of `WithSequentialEqualCharsRemoval`. */
module OptionsSamples {
  import opened Wrappers
  import opened Runes
  import opened Text
  import opened Options

  /** "cocaiiiina" loses the repeated 'i's; "iphone 11" keeps both '1's.
      Neither starts with a number, so the loop as written agrees. */
  lemma RemovalExamples()
    ensures Collapse("cocaiiiina") == "cocaina"
    ensures Collapse("iphone 11") == "iphone 11"
    ensures RemovalAsWritten("cocaiiiina") == "cocaina"
    ensures RemovalAsWritten("iphone 11") == "iphone 11"
  {
    CollapseCocaina();
    CollapseIphone();
    assert !IsNumber('c') && !IsNumber('i');
    RemovalAsWrittenDoublesLeadingNumber("cocaiiiina");
    RemovalAsWrittenDoublesLeadingNumber("iphone 11");
  }

  lemma CollapseCocaina()
    ensures Collapse("cocaiiiina") == "cocaina"
  {
    var s := "cocaiiiina";
    assert !IsNumber('i');
    assert KeptFrom(s, 9) == "a";
    assert KeptFrom(s, 8) == "na";
    assert KeptFrom(s, 7) == "na";
    assert KeptFrom(s, 6) == "na";
    assert KeptFrom(s, 5) == "na";
    assert KeptFrom(s, 4) == "ina";
    assert KeptFrom(s, 3) == "aina";
    assert KeptFrom(s, 2) == "caina";
    assert KeptFrom(s, 1) == "ocaina";
  }

  lemma CollapseIphone()
    ensures Collapse("iphone 11") == "iphone 11"
  {
    var s := "iphone 11";
    assert IsNumber('1');
    assert NoRepeats(s) by {
      forall i | 0 < i < |s|
        ensures s[i] != s[i - 1] || IsNumber(s[i])
      {
      }
    }
    CollapseFixed(s);
  }

  /** With the option alone the document's words are the collapsed text
      split on spaces. */
  lemma RemovalDocuments()
    ensures NewDocument("cocaiiiina", [SequentialEqualCharsRemoval]).words == ["cocaina"]
    ensures NewDocument("iphone 11", [SequentialEqualCharsRemoval]).words == ["iphone", "11"]
  {
    CocainaDocument();
    IphoneDocument();
  }

  lemma CocainaDocument()
    ensures NewDocument("cocaiiiina", [SequentialEqualCharsRemoval]).words == ["cocaina"]
  {
    CollapseCocaina();
    var d := ApplyAll(Draft("cocaiiiina", None, None), [SequentialEqualCharsRemoval]);
    assert d == Draft("cocaina", None, None) by {
      assert [SequentialEqualCharsRemoval][1..] == [];
    }
    SplitJoin(["cocaina"], ' ');
  }

  lemma IphoneDocument()
    ensures NewDocument("iphone 11", [SequentialEqualCharsRemoval]).words == ["iphone", "11"]
  {
    CollapseIphone();
    var d := ApplyAll(Draft("iphone 11", None, None), [SequentialEqualCharsRemoval]);
    assert d == Draft("iphone 11", None, None) by {
      assert [SequentialEqualCharsRemoval][1..] == [];
    }
    IphoneSplit();
  }

  lemma IphoneSplit()
    ensures Split("iphone 11", ' ') == ["iphone", "11"]
  {
    JoinPrepend("iphone", ["11"], ' ');
    assert JoinWith(["iphone", "11"], ' ') == "iphone 11";
    SplitJoin(["iphone", "11"], ' ');
  }
}
