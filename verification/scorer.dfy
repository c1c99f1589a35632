/** The word scorer: position-wise masked comparison of a candidate word
    against a reference word, followed by a pluggable acceptance policy. */
module Scorer {
  import opened Wrappers
  import opened Runes

  /** The `matchScoreFunc` of a document: either the minimum-percentage rule
      installed by `WithMinimumMatchScore` or a caller-supplied function. */
  datatype Policy = MinScore(score: int) | Custom(accept: (int, int) -> bool)

  /** Go's integer division, which truncates toward zero (Dafny's `/` is
      Euclidean). */
  function GoDiv(a: int, b: int): (q: int)
    requires b > 0
    ensures a >= 0 ==> 0 <= a - q * b < b
    ensures a < 0 ==> -b < a - q * b <= 0
  {
    if a >= 0 then a / b else -((-a) / b)
  }

  /** Whether the policy accepts `matchScore` equal positions in a word of
      `wordLength` runes. */
  function Accept(p: Policy, matchScore: int, wordLength: int): bool {
    match p
    case MinScore(score) => matchScore >= GoDiv(score * wordLength, 100)
    case Custom(f) => f(matchScore, wordLength)
  }

  /** A differing position that rejects the word at once: the reference rune
      is numeric, or both runes have the same letter-ness. */
  ghost predicate Fatal(a: seq<char>, b: seq<char>, i: int)
    requires 0 <= i < |a| == |b|
  {
    a[i] != b[i] && (IsNumeric(b[i]) || IsLetter(b[i]) == IsLetter(a[i]))
  }

  /** The positions at or after `i` where the two words agree exactly. */
  ghost function EqualFrom(a: seq<char>, b: seq<char>, i: nat): set<nat>
    requires |a| == |b|
  {
    set j: nat | i <= j < |b| && a[j] == b[j]
  }

  /** The scoring loop from position `i` on, with `score` equal positions
      counted so far; None is an early rejection. */
  function ScoreFrom(a: seq<char>, b: seq<char>, i: nat, score: nat): Option<nat>
    requires |a| == |b| && i <= |b|
    decreases |b| - i
  {
    if i == |b| then Some(score)
    else if b[i] != a[i] then
      if !IsNumber(b[i]) && !IsNumericalInfo(b[i]) then
        if IsLetter(b[i]) == IsLetter(a[i]) then None
        else ScoreFrom(a, b, i + 1, score)
      else None
    else ScoreFrom(a, b, i + 1, score + 1)
  }

  /** The scoring loop rejects exactly when some remaining position is fatal,
      and otherwise adds the number of remaining equal positions. */
  lemma {:induction false} ScoreFromSpec(a: seq<char>, b: seq<char>, i: nat, score: nat)
    requires |a| == |b| && i <= |b|
    ensures ScoreFrom(a, b, i, score).Some? <==> forall j :: i <= j < |b| ==> !Fatal(a, b, j)
    ensures ScoreFrom(a, b, i, score).Some? ==> ScoreFrom(a, b, i, score).value == score + |EqualFrom(a, b, i)|
    decreases |b| - i
  {
    if i == |b| {
      assert EqualFrom(a, b, i) == {};
    } else {
      assert EqualFrom(a, b, i) == (if a[i] == b[i] then {i} else {}) + EqualFrom(a, b, i + 1);
      if b[i] != a[i] && (IsNumeric(b[i]) || IsLetter(b[i]) == IsLetter(a[i])) {
        assert Fatal(a, b, i);
      } else {
        ScoreFromSpec(a, b, i + 1, if b[i] != a[i] then score else score + 1);
      }
    }
  }

  /** `IsEqual(a, b)` (`IsSame` in the root package): whether the candidate
      `a` is probably the reference word `b`. One-rune words go straight to
      the rune comparator; otherwise the words must have equal length, no
      position may be fatal, and the policy must accept the number of equal
      positions. */
  function IsEqual(p: Policy, a: seq<char>, b: seq<char>): (r: bool)
    ensures r ==> |a| == |b|
    ensures |a| == 1 && |b| == 1 ==> (r <==> CompareRune(a[0], b[0]))
  {
    if |a| == 1 && |b| == 1 then CompareRune(a[0], b[0])
    else if |a| != |b| then false
    else
      match ScoreFrom(a, b, 0, 0)
      case None => false
      case Some(score) => Accept(p, score, |b|)
  }

  /** Words of equal length other than one rune are equal exactly when no
      position is fatal and the policy accepts the number of positions
      where they agree. */
  lemma IsEqualSpec(p: Policy, a: seq<char>, b: seq<char>)
    requires |a| == |b| != 1
    ensures IsEqual(p, a, b) <==> (forall j :: 0 <= j < |b| ==> !Fatal(a, b, j)) && Accept(p, |EqualFrom(a, b, 0)|, |b|)
  {
    ScoreFromSpec(a, b, 0, 0);
  }

  /** A word-equality test, candidate first and reference second. */
  type Equality = (string, string) -> bool

  /** The equality a document tests words with: `IsEqual` under its
      policy. */
  function EqualityOf(p: Policy): (eq: Equality)
    ensures forall a: string, b: string :: eq(a, b) == IsEqual(p, a, b)
  {
    (a: string, b: string) => IsEqual(p, a, b)
  }

  /** A reference position holding a numeric rune that the candidate does
      not repeat verbatim rejects the word under every policy. */
  lemma NumericMismatchRejects(p: Policy, a: seq<char>, b: seq<char>, i: int)
    requires 0 <= i < |a| && i < |b|
    requires a[i] != b[i] && IsNumeric(b[i])
    ensures !IsEqual(p, a, b)
  {
    if |a| == |b| && |b| != 1 {
      assert Fatal(a, b, i);
      IsEqualSpec(p, a, b);
    }
  }

  /** In words longer than one rune, a differing position whose runes have
      the same letter-ness rejects the word under every policy. */
  lemma SameKindMismatchRejects(p: Policy, a: seq<char>, b: seq<char>, i: int)
    requires |a| == |b| && |b| != 1 && 0 <= i < |b|
    requires a[i] != b[i] && IsLetter(a[i]) == IsLetter(b[i])
    ensures !IsEqual(p, a, b)
  {
    assert Fatal(a, b, i);
    IsEqualSpec(p, a, b);
  }

  /** A word is the same as itself whenever the policy accepts a full score. */
  lemma IsEqualReflexive(p: Policy, w: seq<char>)
    requires |w| == 1 || Accept(p, |w|, |w|)
    ensures IsEqual(p, w, w)
  {
    if |w| != 1 {
      ScoreSelf(w, 0, 0);
    }
  }

  /** Scoring a word against itself counts every remaining position. */
  lemma {:induction false} ScoreSelf(w: seq<char>, i: nat, score: nat)
    requires i <= |w|
    ensures ScoreFrom(w, w, i, score) == Some(score + |w| - i)
    decreases |w| - i
  {
    if i < |w| {
      ScoreSelf(w, i + 1, score + 1);
    }
  }

  /** A more lenient policy accepts every word a stricter one accepts. */
  lemma IsEqualPolicyMonotone(p: Policy, q: Policy, a: seq<char>, b: seq<char>)
    requires forall s: int, n: int :: Accept(p, s, n) ==> Accept(q, s, n)
    requires IsEqual(p, a, b)
    ensures IsEqual(q, a, b)
  {
  }

  /** The default policy, a minimum score of 100, demands every position. */
  lemma FullScoreMeansExact(matchScore: int, wordLength: int)
    ensures Accept(MinScore(100), matchScore, wordLength) <==> matchScore >= wordLength
  {
    assert 100 * wordLength / 100 == wordLength;
    assert -(100 * wordLength) / 100 == -wordLength;
  }

  /** The minimum-score rule is monotone in the score and accepts an empty
      word without dividing by its length. */
  lemma MinScoreMonotone(score: int, s1: int, s2: int, wordLength: int)
    requires s1 <= s2 && Accept(MinScore(score), s1, wordLength)
    ensures Accept(MinScore(score), s2, wordLength)
    ensures Accept(MinScore(score), 0, 0)
  {
  }

  /** The minimum-score rule divides before comparing: at 60, four equal
      runes out of seven pass, although they are only 57 percent. */
  lemma MinScoreRoundsDown()
    ensures Accept(MinScore(60), 4, 7)
    ensures !(GoDiv(4 * 100, 7) >= 60)
  {
  }

  /** One-rune words use the permissive rune comparator, longer words do not:
      "!" stands for "@", but "!!" does not stand for "@@". */
  lemma OneRuneWordsArePermissive(p: Policy)
    ensures IsEqual(p, "!", "@")
    ensures !IsEqual(p, "!!", "@@")
  {
    SameKindMismatchRejects(p, "!!", "@@", 0);
  }

  /** The percentage rule the word-scorer tests install: at least 60 percent
      of the positions, computed with Go's truncating division. */
  function Percent60(): (p: Policy)
    ensures forall s: int :: Accept(p, s, 7) <==> s >= 5
  {
    Custom((s: int, n: int) => n > 0 && GoDiv(s * 100, n) >= 60)
  }

  /** The masking asymmetry on words at a 60 percent threshold:
      a digit may mask a letter of the reference, never the reverse. */
  lemma MaskedWordExamples()
    ensures IsEqual(Percent60(), "coc4ina", "cocaina")
    ensures !IsEqual(Percent60(), "cocaina", "coc4ina")
    ensures IsEqual(Percent60(), "at4", "ata")
    ensures !IsEqual(Percent60(), "pia", "pi1")
    ensures !IsEqual(Percent60(), "c0c@in@", "cocaina")
  {
    var p := Percent60();
    DigitMasksLetter(p);
    NumericMismatchRejects(p, "cocaina", "coc4ina", 3);
    NumericMismatchRejects(p, "pia", "pi1", 2);
    TooManyMasks(p);
  }

  lemma DigitMasksLetter(p: Policy)
    requires p == Percent60()
    ensures IsEqual(p, "coc4ina", "cocaina")
    ensures IsEqual(p, "at4", "ata")
  {
    assert ScoreFrom("coc4ina", "cocaina", 0, 0) == Some(6);
    assert ScoreFrom("at4", "ata", 0, 0) == Some(2);
  }

  lemma TooManyMasks(p: Policy)
    requires p == Percent60()
    ensures !IsEqual(p, "c0c@in@", "cocaina")
  {
    assert ScoreFrom("c0c@in@", "cocaina", 0, 0) == Some(4);
  }
}
