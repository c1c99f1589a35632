/** The matcher's entry points: `Compare` (Phase A, then Phase B on
    failure) and `Scan` (canonicalise the receiver's words once, then ask
    every query document to compare itself against the pieces). */
module Engine {
  import opened Wrappers
  import opened Text
  import opened Canon
  import opened Mapper
  import opened Ids
  import opened Scorer
  import opened Positional
  import opened Tiling

  /** A document after its options are applied: the text, its words
      (`Tokens`) and its `matchScoreFunc`. */
  datatype Document = Document(text: string, words: seq<string>, policy: Policy)

  /** Whether `Compare` returns at all: Phase B spins forever on an empty
      joined query when there is a piece, so either Phase A succeeds, or the
      joined query is not empty, or there are no pieces. */
  predicate Settles(d: Document, toks: seq<string>)
  {
    PhaseA(EqualityOf(d.policy), d.words, toks, Start()).found || |Concat(d.words)| > 0 || |toks| == 0
  }

  /** `Compare(tokens)` with `d` as the query: `toks` are the scanned pieces
      in position order (the pieces behind `tokens.Ids`). */
  function Compare(d: Document, toks: seq<string>): Option<string>
    requires Settles(d, toks)
  {
    var e := PhaseA(EqualityOf(d.policy), d.words, toks, Start());
    if e.found then Some(JoinSpaced(e.spans))
    else
      match SpecialCheck(d.policy, Concat(d.words), toks)
      case None => None
      case Some(r) => Some(if |e.spans| == 0 then r else JoinSpaced(e.spans) + [' '] + r)
  }

  /** What `Compare` returns, in terms of the aligned run and the tiling:
      a full aligned run gives its pieces joined with spaces; otherwise a
      successful tiling is appended, after a space, to whatever part of the
      run Phase A collected, and a failed tiling gives nothing. */
  lemma CompareSpec(d: Document, toks: seq<string>)
    requires Settles(d, toks)
    ensures var run := Matched(EqualityOf(d.policy), d.words, toks);
      && (|d.words| > 0 && |run| == |d.words| ==> Compare(d, toks) == Some(JoinSpaced(run)))
      && (!(|d.words| > 0 && |run| == |d.words|) && (|Concat(d.words)| > 0 || |toks| == 0) ==>
            Compare(d, toks) == match SpecialCheck(d.policy, Concat(d.words), toks)
              case None => None
              case Some(r) => Some(if |run| == 0 then r else JoinSpaced(run) + [' '] + r))
  {
    PhaseAOutcome(EqualityOf(d.policy), d.words, toks);
  }

  /** A Phase A answer is a consecutive run of scanned pieces, one per
      query word, each equal to its word. */
  lemma PhaseAAnswer(d: Document, toks: seq<string>)
    requires |d.words| > 0
    requires |Matched(EqualityOf(d.policy), d.words, toks)| == |d.words|
    ensures var i := FirstMatch(EqualityOf(d.policy), d.words[0], toks, 0).at;
      && Settles(d, toks)
      && i + |d.words| <= |toks|
      && Compare(d, toks) == Some(JoinSpaced(toks[i..i + |d.words|]))
      && (forall t :: 0 <= t < |d.words| ==> IsEqual(d.policy, toks[i + t], d.words[t]))
  {
    PhaseAOutcome(EqualityOf(d.policy), d.words, toks);
    var h := FirstMatch(EqualityOf(d.policy), d.words[0], toks, 0);
    AlignedSpec(EqualityOf(d.policy), d.words, toks, h.at);
    assert h.found;
  }

  /** The pieces a document's words scan to, in position order, whatever the
      map iteration order: the pieces `Scan` compares against. */
  lemma ScannedPieces(words: seq<string>, order: nat -> seq<string>)
    requires Covers(NewMappingFromTokens(words), order)
    ensures Resolve(MakeTokens(words, order)) == Positions(words)
  {
    MakeTokensSpec(words, order);
  }

  /** `Scan(docs...)`: the receiver's words are canonicalised once; index
      `i` maps to the span of `docs[i]` exactly when that document's
      `Compare` succeeds. `order` is the map iteration order of the token
      compaction; the answer does not depend on it. */
  method Scan(d: Document, docs: seq<Document>, order: nat -> seq<string>) returns (m: map<nat, string>)
    requires Covers(NewMappingFromTokens(d.words), order)
    requires forall i :: 0 <= i < |docs| ==> Settles(docs[i], Positions(d.words))
    ensures forall i: nat :: i in m <==> i < |docs| && Compare(docs[i], Positions(d.words)).Some?
    ensures forall i: nat :: i in m ==> Compare(docs[i], Positions(d.words)) == Some(m[i])
  {
    var toks := Resolve(MakeTokens(d.words, order));
    ScannedPieces(d.words, order);
    m := CompareAll(docs, toks);
  }

  /** The loop of `Scan` over the query documents. */
  method CompareAll(docs: seq<Document>, toks: seq<string>) returns (m: map<nat, string>)
    requires forall i :: 0 <= i < |docs| ==> Settles(docs[i], toks)
    ensures forall i: nat :: i in m <==> i < |docs| && Compare(docs[i], toks).Some?
    ensures forall i: nat :: i in m ==> Compare(docs[i], toks) == Some(m[i])
  {
    m := map[];
    var i := 0;
    while i < |docs|
      invariant 0 <= i <= |docs|
      invariant forall j: nat :: j in m <==> j < i && Compare(docs[j], toks).Some?
      invariant forall j: nat :: j in m ==> Compare(docs[j], toks) == Some(m[j])
    {
      var r := Compare(docs[i], toks);
      if r.Some? {
        m := m[i := r.value];
      }
      i := i + 1;
    }
  }
}
