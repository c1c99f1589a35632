/** Document construction (`NewDoc` / `NewDocument` with `applyOptions`)
    and the options that are pure text and integer logic. */
module Options {
  import opened Wrappers
  import opened Runes
  import opened Text
  import opened Scorer
  import opened Engine

  /** `WithMinimumMatchScore`, `WithConditionalMatchScore` (whose function
      may be nil), `WithSequentialEqualCharsRemoval` and
      `WithCustomRegexpTokenizer(nil)`. */
  datatype DocOption =
    | MinimumMatchScore(score: int)
    | ConditionalMatchScore(accept: Option<(int, int) -> bool>)
    | SequentialEqualCharsRemoval
    | WhitespaceTokenizer

  /** A document while its options run: words and policy are nil until an
      option sets them. */
  datatype Draft = Draft(text: string, words: Option<seq<string>>, policy: Option<Policy>)

  /** Whether rune `i` (not the first) survives the removal of sequential
      equal runes: it differs from the rune before it, or it is a number. */
  predicate Kept(s: string, i: nat)
    requires 0 < i < |s|
  {
    s[i] != s[i - 1] || IsNumber(s[i])
  }

  /** The runes kept from position `i` on. */
  function KeptFrom(s: string, i: nat): string
    requires 1 <= i <= |s|
    decreases |s| - i
  {
    if i == |s| then [] else (if Kept(s, i) then [s[i]] else []) + KeptFrom(s, i + 1)
  }

  /** The text `WithSequentialEqualCharsRemoval` is meant to produce: the
      first rune, then every rune that survives. */
  function Collapse(s: string): string
  {
    if |s| == 0 then [] else [s[0]] + KeptFrom(s, 1)
  }

  /** No two neighbouring runes are equal unless they are numbers. */
  predicate NoRepeats(s: string)
  {
    forall i :: 0 < i < |s| ==> s[i] != s[i - 1] || IsNumber(s[i])
  }

  /** The option's loop exactly as written: the rune at index 0 is written
      before the comparison, and compared against itself afterwards. */
  function RemovalLoop(s: string, i: nat, pc: char, out: string): string
    requires i <= |s|
    decreases |s| - i
  {
    if i == |s| then out
    else if pc == s[i] && !IsNumber(pc) then RemovalLoop(s, i + 1, pc, out)
    else RemovalLoop(s, i + 1, s[i], out + [s[i]])
  }

  /** `WithSequentialEqualCharsRemoval` as written, on a fresh call. */
  function RemovalAsWritten(s: string): string
  {
    if |s| == 0 then [] else RemovalLoop(s, 0, s[0], [s[0]])
  }

  lemma {:induction false} RemovalLoopSpec(s: string, i: nat, out: string)
    requires 1 <= i <= |s|
    ensures RemovalLoop(s, i, s[i - 1], out) == out + KeptFrom(s, i)
    decreases |s| - i
  {
    if i < |s| {
      RemovalLoopSpec(s, i + 1, if Kept(s, i) then out + [s[i]] else out);
      if !Kept(s, i) {
        assert s[i] == s[i - 1];
      }
    }
  }

  /** As written, the option writes the text collapsed, except that a
      leading number is written twice. */
  lemma RemovalAsWrittenDoublesLeadingNumber(s: string)
    ensures RemovalAsWritten(s) == (if |s| > 0 && IsNumber(s[0]) then [s[0]] else []) + Collapse(s)
  {
    if |s| > 0 {
      if IsNumber(s[0]) {
        assert RemovalAsWritten(s) == RemovalLoop(s, 1, s[0], [s[0]] + [s[0]]);
        RemovalLoopSpec(s, 1, [s[0]] + [s[0]]);
      } else {
        assert RemovalAsWritten(s) == RemovalLoop(s, 1, s[0], [s[0]]);
        RemovalLoopSpec(s, 1, [s[0]]);
      }
    }
  }

  /** "1a" becomes "11a" as written; the collapsed text is "1a". */
  lemma RemovalDoublesOne()
    ensures RemovalAsWritten("1a") == "11a"
    ensures Collapse("1a") == "1a"
  {
    RemovalAsWrittenDoublesLeadingNumber("1a");
    assert KeptFrom("1a", 2) == [];
    assert KeptFrom("1a", 1) == "a";
  }

  /** The corrected removal loop: the first rune is written once. */
  method RemoveSequentialRepeats(s: string) returns (r: string)
    ensures r == Collapse(s)
  {
    if |s| == 0 {
      return [];
    }
    r := [s[0]];
    var pc := s[0];
    var i := 1;
    while i < |s|
      invariant 1 <= i <= |s|
      invariant pc == s[i - 1]
      invariant r + KeptFrom(s, i) == Collapse(s)
    {
      if pc == s[i] && !IsNumber(pc) {
        i := i + 1;
      } else {
        r := r + [s[i]];
        pc := s[i];
        i := i + 1;
      }
    }
  }

  lemma NoRepeatsCons(a: char, t: string)
    requires NoRepeats(t)
    requires |t| > 0 ==> t[0] != a || IsNumber(t[0])
    ensures NoRepeats([a] + t)
  {
    var u := [a] + t;
    forall i | 0 < i < |u|
      ensures u[i] != u[i - 1] || IsNumber(u[i])
    {
      if i > 1 {
        assert u[i] == t[i - 1] && u[i - 1] == t[i - 2];
      }
    }
  }

  lemma {:induction false} KeptFromNoRepeats(s: string, i: nat)
    requires 1 <= i <= |s|
    ensures NoRepeats([s[i - 1]] + KeptFrom(s, i))
    decreases |s| - i
  {
    if i < |s| {
      KeptFromNoRepeats(s, i + 1);
      if Kept(s, i) {
        NoRepeatsCons(s[i - 1], [s[i]] + KeptFrom(s, i + 1));
      } else {
        assert KeptFrom(s, i) == KeptFrom(s, i + 1);
        assert s[i - 1] == s[i];
      }
    }
  }

  /** The collapsed text has no two neighbouring equal runes other than
      numbers. */
  lemma CollapseNoRepeats(s: string)
    ensures NoRepeats(Collapse(s))
  {
    if |s| > 0 {
      KeptFromNoRepeats(s, 1);
    }
  }

  lemma {:induction false} KeptFromAll(s: string, i: nat)
    requires 1 <= i <= |s| && NoRepeats(s)
    ensures KeptFrom(s, i) == s[i..]
    decreases |s| - i
  {
    if i < |s| {
      KeptFromAll(s, i + 1);
      assert s[i..] == [s[i]] + s[i + 1..];
    }
  }

  /** The texts the removal leaves alone are exactly those with no two
      neighbouring equal runes other than numbers. */
  lemma CollapseFixed(s: string)
    ensures Collapse(s) == s <==> NoRepeats(s)
  {
    CollapseNoRepeats(s);
    if NoRepeats(s) && |s| > 0 {
      KeptFromAll(s, 1);
      assert s == [s[0]] + s[1..];
    }
  }

  /** Removing sequential equal runes twice is removing them once. */
  lemma CollapseIdempotent(s: string)
    ensures Collapse(Collapse(s)) == Collapse(s)
  {
    CollapseNoRepeats(s);
    CollapseFixed(Collapse(s));
  }

  /** One option applied to the draft. */
  function ApplyOption(d: Draft, o: DocOption): Draft
  {
    match o
    case MinimumMatchScore(s) => d.(policy := Some(MinScore(s)))
    case ConditionalMatchScore(f) =>
      d.(policy := match f case None => None case Some(g) => Some(Custom(g)))
    case SequentialEqualCharsRemoval => d.(text := Collapse(d.text))
    case WhitespaceTokenizer => d.(words := Some([RemoveSpaces(d.text)]))
  }

  /** The options in the order given. */
  function ApplyAll(d: Draft, opts: seq<DocOption>): Draft
    decreases |opts|
  {
    if |opts| == 0 then d else ApplyAll(ApplyOption(d, opts[0]), opts[1..])
  }

  /** `NewDocument(text, opts...)`: the options, then the defaults — the
      text split on single spaces when no option set the words, and a
      minimum score of 100 when no option set the policy. */
  function NewDocument(text: string, opts: seq<DocOption>): Document
  {
    var d := ApplyAll(Draft(text, None, None), opts);
    Document(d.text, d.words.GetOr(Split(d.text, ' ')), d.policy.GetOr(MinScore(100)))
  }

  /** With no options, the words are the text split on single spaces (so
      they join back to the text) and the policy demands every position. */
  lemma NewDocumentDefaults(text: string)
    ensures NewDocument(text, []).text == text
    ensures JoinWith(NewDocument(text, []).words, ' ') == text
    ensures forall i :: 0 <= i < |NewDocument(text, []).words| ==> ' ' !in NewDocument(text, []).words[i]
    ensures forall s: int, n: int :: Accept(NewDocument(text, []).policy, s, n) <==> s >= n
  {
    forall s: int, n: int
      ensures Accept(NewDocument(text, []).policy, s, n) <==> s >= n
    {
      FullScoreMeansExact(s, n);
    }
  }

  lemma {:induction false} ApplyAllSnoc(d: Draft, opts: seq<DocOption>, o: DocOption)
    ensures ApplyAll(d, opts + [o]) == ApplyOption(ApplyAll(d, opts), o)
    decreases |opts|
  {
    if |opts| > 0 {
      assert (opts + [o])[1..] == opts[1..] + [o];
      ApplyAllSnoc(ApplyOption(d, opts[0]), opts[1..], o);
    }
  }

  /** The last score option decides the policy: a caller's function is
      installed unchanged, and the text and words are left alone. */
  lemma ConditionalScoreInstalled(text: string, opts: seq<DocOption>, f: (int, int) -> bool)
    ensures var before := NewDocument(text, opts);
      var after := NewDocument(text, opts + [ConditionalMatchScore(Some(f))]);
      && after.text == before.text
      && after.words == before.words
      && forall s: int, n: int :: Accept(after.policy, s, n) == f(s, n)
  {
    ApplyAllSnoc(Draft(text, None, None), opts, ConditionalMatchScore(Some(f)));
  }

  /** A nil conditional function unsets the policy, whatever an earlier
      option installed, so the default minimum score of 100 applies. */
  lemma ConditionalNilRestoresDefault(text: string, opts: seq<DocOption>)
    ensures var after := NewDocument(text, opts + [ConditionalMatchScore(None)]);
      forall s: int, n: int :: Accept(after.policy, s, n) <==> s >= n
  {
    ApplyAllSnoc(Draft(text, None, None), opts, ConditionalMatchScore(None));
    forall s: int, n: int
      ensures Accept(NewDocument(text, opts + [ConditionalMatchScore(None)]).policy, s, n) <==> s >= n
    {
      FullScoreMeansExact(s, n);
    }
  }

  /** `WithMinimumMatchScore(s)` accepts `matchScore` out of `wordLength`
      when it reaches `s * wordLength / 100`, with Go's division. */
  lemma MinimumScoreInstalled(text: string, opts: seq<DocOption>, score: int)
    ensures var after := NewDocument(text, opts + [MinimumMatchScore(score)]);
      forall s: int, n: int :: Accept(after.policy, s, n) <==> s >= GoDiv(score * n, 100)
  {
    ApplyAllSnoc(Draft(text, None, None), opts, MinimumMatchScore(score));
  }

  /** `WithCustomRegexpTokenizer(nil)` makes the whole text, with every
      whitespace run removed, the only word. */
  lemma WhitespaceTokenizerOneWord(text: string, opts: seq<DocOption>)
    ensures var d := ApplyAll(Draft(text, None, None), opts);
      var after := NewDocument(text, opts + [WhitespaceTokenizer]);
      && after.words == [RemoveSpaces(d.text)]
      && forall i :: 0 <= i < |after.words[0]| ==> !IsSpace(after.words[0][i])
  {
    ApplyAllSnoc(Draft(text, None, None), opts, WhitespaceTokenizer);
  }
}
