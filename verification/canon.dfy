/** The token canonicaliser: peeling leading and trailing punctuation off
    each raw word and recording, for every distinct piece, the positions at
    which it occurs (`makeMapping` / `NewMappingFromTokens`). */
module Canon {
  import opened Runes
  import opened Text

  /** What the stripping loops stop at: a letter or a number. */
  predicate IsAlnum(c: char) {
    IsLetter(c) || IsNumber(c)
  }

  predicate HasAlnum(t: string) {
    exists i :: 0 <= i < |t| && IsAlnum(t[i])
  }

  function Reverse(s: string): (r: string)
    ensures |r| == |s|
  {
    if |s| == 0 then [] else Reverse(s[1..]) + [s[0]]
  }

  /** Rune `i` of the reversed string is rune `i` from the end. */
  lemma {:induction false} ReverseIndex(s: string)
    ensures forall i :: 0 <= i < |s| ==> Reverse(s)[i] == s[|s| - 1 - i]
    decreases |s|
  {
    if |s| > 0 {
      ReverseIndex(s[1..]);
    }
  }

  /** The leading-special loop, having seen `i` runes that are not letters or
      numbers. */
  function StartSpecialFrom(t: string, i: nat): (r: string)
    requires i <= |t|
    ensures |r| <= |t|
    decreases |t| - i
  {
    if i == |t| then []
    else if IsAlnum(t[i]) then t[..i]
    else StartSpecialFrom(t, i + 1)
  }

  lemma {:induction false} StartSpecialFromSpec(t: string, i: nat)
    requires i <= |t|
    requires forall j :: 0 <= j < i ==> !IsAlnum(t[j])
    ensures var r := StartSpecialFrom(t, i);
      && (!HasAlnum(t) ==> r == [])
      && (HasAlnum(t) ==> i <= |r| < |t| && r == t[..|r|] && IsAlnum(t[|r|]))
      && (forall j :: 0 <= j < |r| ==> !IsAlnum(r[j]))
    decreases |t| - i
  {
    if i < |t| && !IsAlnum(t[i]) {
      StartSpecialFromSpec(t, i + 1);
    }
  }

  /** `getStartSpecial`: the maximal leading run of runes that are neither
      letters nor numbers, or nothing (Go's nil) when the word has no letter
      or number at all. */
  function StartSpecial(t: string): (r: string)
    ensures |r| <= |t|
  {
    StartSpecialFrom(t, 0)
  }

  /** The leading special run is a prefix of the word, made of runes that are
      neither letters nor numbers and followed by a letter or number; it is
      empty when the word has no letter or number. */
  lemma StartSpecialSpec(t: string)
    ensures var r := StartSpecial(t);
      && (!HasAlnum(t) ==> r == [])
      && (HasAlnum(t) ==> |r| < |t| && r == t[..|r|] && IsAlnum(t[|r|]))
      && (forall j :: 0 <= j < |r| ==> !IsAlnum(r[j]))
  {
    StartSpecialFromSpec(t, 0);
  }

  /** The trailing-special loop, walking backwards with `n` runes still
      unexamined; everything after them is neither letter nor number. */
  function EndSpecialFrom(t: string, n: nat): (r: string)
    requires n <= |t|
    ensures |r| <= |t|
    decreases n
  {
    if n == 0 then []
    else if IsAlnum(t[n - 1]) then Reverse(t[n..])
    else EndSpecialFrom(t, n - 1)
  }

  /** Reversing a run of runes that are neither letters nor numbers gives
      such a run again. */
  lemma ReverseNoAlnum(s: string)
    requires forall j :: 0 <= j < |s| ==> !IsAlnum(s[j])
    ensures forall j :: 0 <= j < |s| ==> !IsAlnum(Reverse(s)[j])
  {
    ReverseIndex(s);
  }

  /** The trailing-special loop returns a suffix of the word read
      backwards, made of runes that are neither letters nor numbers; when it
      stops at a letter or number, it covers at least the runes already
      walked over, and otherwise it is empty. */
  lemma {:induction false} EndSpecialFromRun(t: string, n: nat)
    requires n <= |t|
    requires forall j :: n <= j < |t| ==> !IsAlnum(t[j])
    ensures var r := EndSpecialFrom(t, n);
      && r == Reverse(t[|t| - |r|..])
      && (forall j :: 0 <= j < |r| ==> !IsAlnum(r[j]))
      && ((|t| - n <= |r| < |t| && IsAlnum(t[|t| - |r| - 1]))
          || (r == [] && forall j :: 0 <= j < |t| ==> !IsAlnum(t[j])))
    decreases n
  {
    if n == 0 {
    } else if IsAlnum(t[n - 1]) {
      assert EndSpecialFrom(t, n) == Reverse(t[n..]);
      ReverseNoAlnum(t[n..]);
    } else {
      EndSpecialFromRun(t, n - 1);
    }
  }

  lemma EndSpecialFromSpec(t: string, n: nat)
    requires n <= |t|
    requires forall j :: n <= j < |t| ==> !IsAlnum(t[j])
    ensures var r := EndSpecialFrom(t, n);
      && (!HasAlnum(t) ==> r == [])
      && (HasAlnum(t) ==> |t| - n <= |r| < |t| && r == Reverse(t[|t| - |r|..]) && IsAlnum(t[|t| - |r| - 1]))
      && (forall j :: 0 <= j < |r| ==> !IsAlnum(r[j]))
  {
    EndSpecialFromRun(t, n);
  }

  /** `getEndSpecial`: the maximal trailing run of runes that are neither
      letters nor numbers, collected from the last rune backwards (so in
      reverse order), or nothing when the word has no letter or number. */
  function EndSpecial(t: string): (r: string)
    ensures |r| <= |t|
  {
    EndSpecialFrom(t, |t|)
  }

  /** The trailing special run is the word's maximal suffix of runes that are
      neither letters nor numbers, read backwards; it is empty when the word
      has no letter or number. */
  lemma EndSpecialSpec(t: string)
    ensures var r := EndSpecial(t);
      && (!HasAlnum(t) ==> r == [])
      && (HasAlnum(t) ==> |r| < |t| && r == Reverse(t[|t| - |r|..]) && IsAlnum(t[|t| - |r| - 1]))
      && (forall j :: 0 <= j < |r| ==> !IsAlnum(r[j]))
  {
    EndSpecialFromSpec(t, |t|);
  }

  /** Each rune of a special run as a word of its own. */
  function Singletons(s: string): (r: seq<string>)
    ensures |r| == |s|
    ensures forall i :: 0 <= i < |s| ==> r[i] == [s[i]]
  {
    seq(|s|, i requires 0 <= i < |s| => [s[i]])
  }

  /** The word left once the leading specials are removed. The Go code slices
      the UTF-8 bytes by the number of special runes; here the runes
      themselves are removed. */
  function StripStart(t: string): (r: string)
    ensures |r| == |t| - |StartSpecial(t)|
  {
    t[|StartSpecial(t)|..]
  }

  /** The leading specials and the stripped word make up the word. */
  lemma StripStartSplits(t: string)
    ensures t == StartSpecial(t) + StripStart(t)
  {
    StartSpecialSpec(t);
  }

  /** The core of a word: what remains once both special runs are removed. */
  function Core(t: string): string
  {
    var rest := StripStart(t);
    rest[..|rest| - |EndSpecial(rest)|]
  }

  /** The core of a word with a letter or number starts and ends with one;
      a word without any is its own core. */
  lemma CoreSpec(t: string)
    ensures HasAlnum(t) ==> HasAlnum(Core(t)) && IsAlnum(Core(t)[0]) && IsAlnum(Core(t)[|Core(t)| - 1])
    ensures !HasAlnum(t) ==> Core(t) == t
  {
    var rest := StripStart(t);
    StartSpecialSpec(t);
    EndSpecialSpec(rest);
    if HasAlnum(t) {
      assert IsAlnum(rest[0]);
      assert HasAlnum(rest);
    }
  }

  /** The pieces one raw word contributes, in position order: its leading
      specials, its core, then its trailing specials in the order
      `getEndSpecial` returns them. */
  function Pieces(t: string): seq<string>
  {
    Layout(StartSpecial(t), Core(t), EndSpecial(StripStart(t)))
  }

  /** Leading specials, core, trailing specials, one position each. */
  function Layout(s: string, core: string, e: string): seq<string>
  {
    Singletons(s) + [core] + Singletons(e)
  }

  /** A word contributes its core at the position after its leading
      specials, and every other piece is a single rune that is neither a
      letter nor a number; a word without letters or numbers is one piece. */
  lemma PiecesSpec(t: string)
    ensures |Pieces(t)| == 1 + |StartSpecial(t)| + |EndSpecial(StripStart(t))|
    ensures Pieces(t)[|StartSpecial(t)|] == Core(t)
    ensures forall i :: 0 <= i < |Pieces(t)| && i != |StartSpecial(t)| ==> |Pieces(t)[i]| == 1 && !IsAlnum(Pieces(t)[i][0])
    ensures !HasAlnum(t) ==> Pieces(t) == [t]
  {
    var s := StartSpecial(t);
    var e := EndSpecial(StripStart(t));
    var r := Pieces(t);
    StartSpecialSpec(t);
    EndSpecialSpec(StripStart(t));
    CoreSpec(t);
    if !HasAlnum(t) {
      assert Singletons(s) == [] && Singletons(e) == [];
    }
  }

  /** The position sequence of a list of raw words: every word's pieces in
      turn. Position `p` of the token structure holds piece `p`. */
  function Positions(words: seq<string>): seq<string>
  {
    if |words| == 0 then [] else Pieces(words[0]) + Positions(words[1..])
  }

  /** Flattening a word's pieces gives back the word, except that its
      trailing special run comes out reversed (`getEndSpecial` collects it
      backwards). */
  lemma PiecesFlatten(t: string)
    ensures var n := |EndSpecial(StripStart(t))|;
      n <= |t| && Concat(Pieces(t)) == t[..|t| - n] + Reverse(t[|t| - n..])
  {
    PiecesConcat(t);
    SplitAtTrailingRun(t);
  }

  lemma PiecesConcat(t: string)
    ensures Concat(Pieces(t)) == StartSpecial(t) + Core(t) + EndSpecial(StripStart(t))
  {
    var s := StartSpecial(t);
    var e := EndSpecial(StripStart(t));
    var core := Core(t);
    assert Pieces(t) == Singletons(s) + [core] + Singletons(e);
    ConcatSingletons(s);
    ConcatSingletons(e);
    ConcatSplit(Singletons(s) + [core], Singletons(e));
    ConcatSplit(Singletons(s), [core]);
  }

  lemma SplitAtTrailingRun(t: string)
    ensures var n := |EndSpecial(StripStart(t))|;
      && n <= |t|
      && StartSpecial(t) + Core(t) == t[..|t| - n]
      && EndSpecial(StripStart(t)) == Reverse(t[|t| - n..])
  {
    var rest := StripStart(t);
    var e := EndSpecial(rest);
    assert t == StartSpecial(t) + rest by { StripStartSplits(t); }
    assert e == Reverse(rest[|rest| - |e|..]) by { EndSpecialReversed(rest); }
    SplitTail(t, StartSpecial(t), rest, e, Core(t));
  }

  /** The trailing special run, empty or not, is the word's suffix of its
      length read backwards. */
  lemma EndSpecialReversed(t: string)
    ensures EndSpecial(t) == Reverse(t[|t| - |EndSpecial(t)|..])
  {
    EndSpecialSpec(t);
  }

  lemma SplitTail(t: string, s: string, rest: string, e: string, core: string)
    requires t == s + rest && |e| <= |rest|
    requires e == Reverse(rest[|rest| - |e|..]) && core == rest[..|rest| - |e|]
    ensures s + core == t[..|t| - |e|]
    ensures e == Reverse(t[|t| - |e|..])
  {
    assert rest[|rest| - |e|..] == t[|t| - |e|..];
  }

  lemma ConcatThree(a: string, b: string, c: string)
    ensures Concat([a, b, c]) == a + b + c
  {
    assert [a, b, c][..2] == [a, b];
    assert [a, b][..1] == [a];
  }

  lemma {:induction false} ConcatSingletons(s: string)
    ensures Concat(Singletons(s)) == s
    decreases |s|
  {
    if |s| > 0 {
      var s' := s[..|s| - 1];
      assert Singletons(s)[..|s| - 1] == Singletons(s');
      ConcatSingletons(s');
      assert s == s' + [s[|s| - 1]];
    }
  }

  /** A word whose trailing special run reads the same both ways is
      reproduced exactly by its pieces: "amigo..." and ".a.migo" are, but
      "amigo.," flattens to "amigo,.". */
  lemma PiecesRoundTrip(t: string)
    requires var n := |EndSpecial(StripStart(t))|; n <= |t| && Reverse(t[|t| - n..]) == t[|t| - n..]
    ensures Concat(Pieces(t)) == t
  {
    PiecesFlatten(t);
  }

  lemma TrailingRunReversed()
    ensures Pieces("amigo.,") == ["amigo", ",", "."]
    ensures Concat(Pieces("amigo.,")) == "amigo,."
  {
    var t := "amigo.,";
    AmigoSpecials();
    assert Singletons([]) == [];
    assert Singletons(",.") == [",", "."];
    assert Pieces(t) == ["amigo", ",", "."];
    ConcatThree("amigo", ",", ".");
  }

  lemma AmigoSpecials()
    ensures StartSpecial("amigo.,") == []
    ensures StripStart("amigo.,") == "amigo.,"
    ensures EndSpecial("amigo.,") == ",."
    ensures Core("amigo.,") == "amigo"
  {
    var t := "amigo.,";
    assert IsAlnum(t[0]) && HasAlnum(t);
    assert StartSpecialFrom(t, 0) == [];
    assert IsAlnum(t[4]) && !IsAlnum(t[5]) && !IsAlnum(t[6]);
    assert EndSpecialFrom(t, 5) == Reverse(t[5..]);
    assert EndSpecialFrom(t, 6) == EndSpecialFrom(t, 5);
    assert EndSpecialFrom(t, 7) == EndSpecialFrom(t, 6);
    assert Reverse(t[5..]) == ",.";
  }

  /** A word that starts and ends with a letter or number is one piece. */
  lemma PlainWordIsOnePiece(t: string)
    requires |t| > 0 && IsAlnum(t[0]) && IsAlnum(t[|t| - 1])
    ensures StartSpecial(t) == [] && EndSpecial(t) == []
    ensures Pieces(t) == [t]
  {
    assert HasAlnum(t);
    assert StartSpecialFrom(t, 0) == [];
    assert EndSpecialFrom(t, |t|) == Reverse(t[|t|..]);
    assert Singletons([]) == [];
    assert StripStart(t) == t;
    assert Core(t) == t;
    assert Pieces(t) == [] + [t] + [];
  }

  /** A list of words that all start and end with a letter or number gives
      one position per word. */
  lemma {:induction false} PlainPositions(words: seq<string>)
    requires forall i :: 0 <= i < |words| ==> |words[i]| > 0 && IsAlnum(words[i][0]) && IsAlnum(words[i][|words[i]| - 1])
    ensures Positions(words) == words
    decreases |words|
  {
    if |words| > 0 {
      PlainWordIsOnePiece(words[0]);
      PlainPositions(words[1..]);
      assert words == [words[0]] + words[1..];
    }
  }
}
