# gomtch masked fuzzy phrase matcher, in Dafny

gomtch decides whether a short query phrase occurs in a scanned text when
either side may be *masked*: a digit or a punctuation mark standing in for a
letter ("coc4ina" for "cocaina", "un!lever" for "unilever"), or a word split
or merged at punctuation. The matcher exists twice in the repository with the
same algorithm, in the root package (`doc.go` with `tokens.go` and
`mapper.go`) and in `document/document.go`. This project models it once,
over Dafny strings (`seq<char>`), and cites `document/document.go` for the
engine and `tokens.go` / `mapper.go` for the canonicaliser.

The modules follow the program:

- `Runes`: the code-point classes (letter, number, numerical info `%xª°º`,
  special) and `CompareRune`, the asymmetric masked rune comparator.
- `Scorer`: `IsEqual` (`IsSame` in the root package), the position-wise word
  scorer with its early rejections, and the `matchScoreFunc` policy. The
  policy is either the minimum-percentage rule or a caller's function. Go's
  truncating integer division is modelled by `GoDiv`.
- `Canon`: `getStartSpecial` and `getEndSpecial`, and the pieces a raw word
  contributes: its leading specials, its core, then its trailing specials.
- `Mapper`: `AddIndex` / `upCreate` and `NewMappingFromTokens` /
  `makeMapping`, the dense position table. It is proved equal to an
  independent reference table (`MappingOf`).
- `Ids`: `Map` / `mapTokens`, the compaction of the table into ids. An id is
  the position where its piece first occurs. Go map iteration order is a
  parameter, and the result is proved independent of it.
- `Positional`: Phase A of `Compare` (`simpleCheck` and its loop). It is
  parametrised by the word equality; the engine instantiates it with
  `IsEqual` under the document's policy.
- `Tiling`: Phase B of `Compare` (`specialCheck`). It keeps the matched
  pieces as a list, so a rollback drops the first k whole pieces where
  the source drops the first k runes (see Findings).
  `TilingAsWritten` is the same loop with the source's rune accumulators.
- `Engine`: `Compare` (Phase A, then Phase B on failure), `Scan`, and the
  document record (text, words, policy).
- `Options`: `NewDocument` with `applyOptions` and its defaults,
  `WithMinimumMatchScore`, `WithConditionalMatchScore` (nil restores the default),
  `WithSequentialEqualCharsRemoval` (as written and corrected) and the nil
  branch of `WithCustomRegexpTokenizer`.
- `Utf8`: the byte view of the special-run stripping, which the Go code
  does by byte offsets.
- `Text`, `Wrappers`: `strings.Join` / `strings.Split` stand-ins and
  `Option`.
- `Samples`, `CanonSamples`, `MapperSamples`, `TilingSamples`,
  `EngineSamples`, `OptionsSamples`: the repository's test inputs, checked
  against the model.

Roles follow the source. In `CompareRune(a, b)` and `IsEqual(a, b)`, `a` is
the possibly masked candidate and `b` the reference. In `Compare` the
receiver is the query: its words are the references, and the scanned pieces
are the candidates.

## Model

| member | source | states |
|---|---|---|
| Runes.CompareRune | document/document.go:94-108 | A candidate rune stands for a reference rune exactly when the two are equal, or the candidate is special (not a letter, number or numerical info) and the reference is not a number or numerical info. A numeric candidate must be equal. |
| Runes.CompareRuneReflexive | document/document.go:94-108 | Every rune stands for itself. |
| Runes.CompareRuneAsymmetric | document/document.go:94-108 | The comparator is not symmetric: '.' stands for 'a' but 'a' not for '.'; '!' stands for '@' while 'i' does not stand for '!'. |
| Runes.OverlappingCategories | document/document.go:322-329 | 'x', 'ª' and 'º' are letters and numerical info at once, and '%' and '°' are neither letter nor number. Numerical info must match exactly ('1' vs 'x', '.' vs '1' fail). |
| Scorer.GoDiv | options.go:79 | Go's `/` truncates toward zero: the remainder has the dividend's sign and is smaller than the divisor in size. |
| Scorer.IsEqual | document/document.go:117-144 | Equal words have the same length; two one-rune words are compared with `CompareRune` instead of the scorer. |
| Scorer.ScoreFromSpec | document/document.go:124-143 | The scoring loop rejects exactly when a remaining position is fatal (it differs and the reference rune is numeric, or the two runes agree on being letters). Otherwise it counts the positions where the words agree exactly. |
| Scorer.IsEqualSpec | document/document.go:117-144 | Two equal-length words (not one rune each) are equal exactly when no position is fatal and the policy accepts the number of exactly equal positions out of the reference's length. |
| Scorer.NumericMismatchRejects | document/document.go:126-139 | A differing position whose reference rune is a number or numerical info rejects the word, whatever the policy. |
| Scorer.SameKindMismatchRejects | document/document.go:129-134 | A differing position where both runes are letters, or both are not, rejects a word longer than one rune. |
| Scorer.IsEqualReflexive | document/document.go:117-144 | A word is equal to itself whenever the policy accepts a full score. |
| Scorer.ScoreSelf | document/document.go:124-143 | Scoring a word against itself counts every position. |
| Scorer.IsEqualPolicyMonotone | document/document.go:143 | A policy that accepts more makes more words equal. |
| Scorer.OneRuneWordsArePermissive | document/document.go:118-120 | One-rune words use the permissive comparator ("!" equals "@"), but longer words do not ("!!" does not equal "@@"). |
| Scorer.FullScoreMeansExact | options.go:76-82 | The default minimum score of 100 accepts exactly when every position is equal. |
| Scorer.MinScoreMonotone | options.go:76-82 | The minimum-score rule is monotone in the score and accepts 0 of 0. |
| Scorer.MinScoreRoundsDown | options.go:76-82 | At 60, 4 of 7 is accepted because the threshold is divided before the comparison. The percentage rule the tests install rejects it. |
| Scorer.Percent60 | document/document_test.go:222-224 | The tests' rule `matchScore*100/wordLength >= 60`: on seven-rune words it accepts exactly five or more equal positions. |
| Scorer.MaskedWordExamples | document/document_test.go:222-257 | "coc4ina" equals "cocaina" but not the reverse; "at4" equals "ata"; "pia" does not equal "pi1"; "c0c@in@" does not equal "cocaina". |
| Scorer.DigitMasksLetter | document/document_test.go:228-251 | A digit in the candidate masks a letter in the reference ("coc4ina", "at4"). |
| Scorer.TooManyMasks | document/document_test.go:240-245 | Three masked positions out of seven fall below 60 percent. |
| Canon.StartSpecialSpec | tokens.go:53-62 | The leading run is the word's maximal prefix with no letter or number. It is followed by a letter or number, and it is empty when the word has none. |
| Canon.EndSpecialSpec | tokens.go:64-73 | The trailing run is the word's maximal suffix with no letter or number, read backwards. It is preceded by a letter or number, and it is empty when the word has none. |
| Canon.StripStartSplits | tokens.go:35 | The word is its leading run followed by the word with that run removed. |
| Canon.CoreSpec | tokens.go:45-47 | The core of a word with a letter or number starts and ends with one; a word with none is its own core. |
| Canon.PiecesSpec | tokens.go:23-51 | A word contributes 1 + (leading run) + (trailing run) positions. Its core is at the position after the leading run, every other piece is one special rune, and a word with no letter or number is one piece, the word itself. |
| Canon.PiecesFlatten | tokens.go:23-51 | Joining a word's pieces gives the word back, except that its trailing run comes out reversed. |
| Canon.PiecesRoundTrip | tokens.go:23-51 | A word whose trailing run reads the same both ways is rebuilt exactly by joining its pieces. |
| Canon.TrailingRunReversed | tokens.go:64-73 | "amigo.," has pieces "amigo", ",", "." and joins back to "amigo,.". |
| Canon.AmigoSpecials | tokens.go:53-73 | "amigo.," has no leading run, the trailing run ",." and the core "amigo". |
| Canon.PlainWordIsOnePiece | tokens.go:23-51 | A word that starts and ends with a letter or number is one piece. |
| Canon.PlainPositions | tokens.go:23-51 | Words that all start and end with a letter or number keep one position each. |
| CanonSamples.StartSpecialExamples | tokens_test.go:159-162 | "amigo", ".amigo", "...amigo" and ".a.migo" have the leading runes "", ".", "..." and ".". |
| CanonSamples.EndSpecialExamples | tokens_test.go:136-139 | "amigo", "amigo.", "amigo..." and "amig.o." have the trailing runes "", ".", "..." and ".". |
| Mapper.MappingOfSpec | mapper.go:13-41 | The reference table records, for every piece, exactly the positions holding it. |
| Mapper.MappingSnoc | mapper.go:76-83 | Adding a new last position with `AddIndex` extends the table of a sequence to the table of the sequence plus one piece. |
| Mapper.AddRunMapping | mapper.go:21-24 | Recording a special run rune by rune at consecutive positions gives the table of the sequence plus one piece per rune. |
| Mapper.WordMapping | mapper.go:17-38 | One loop iteration records exactly the word's pieces, at the positions after those already handed out. |
| Mapper.CoreIsNoSpecial | mapper.go:28-37 | A word's core is never one of its trailing special pieces, so recording the core after the trailing run changes nothing. |
| Mapper.MapWordsMapping | mapper.go:17-39 | The loop from any word on adds the table of the remaining words' pieces, numbered on from the counter. |
| Mapper.NewMappingFromTokensTable | mapper.go:13-41 | `NewMappingFromTokens` is the reference table of the words' pieces laid out densely, word after word. |
| MapperSamples.RepeatedWordsAccumulate | tokens_test.go:85-88 | `boa comida boa comida` gives boa at 0 and 2, comida at 1 and 3. |
| MapperSamples.SpecialsBetweenWords | tokens_test.go:99-104 | `comida: .gostosa` gives comida at 0, ':' at 1, '.' at 2 and gostosa at 3. |
| MapperSamples.SharedSpecial | tokens_test.go:105-110 | `:comida: .gostosa` gives ':' at 0 and 2, comida at 1, '.' at 3 and gostosa at 4. |
| Ids.OwnerSpec | mapper.go:51-65 | The inner search finds a key whose list holds the wanted position, and finds none exactly when no key's list holds it. |
| Ids.MapFromSpec | mapper.go:49-68 | From any consistent state, the rest of the loop gives one id per position: the position of the piece's first occurrence, with values holding exactly the first occurrences. |
| Ids.MapCompacts | mapper.go:43-70 | `Map` of a dense table gives one id per position, each the first occurrence of its piece, and values keyed by those first occurrences. |
| Ids.CompactedUnique | mapper.go:43-70 | Only one token structure meets that promise for a given position sequence. |
| Ids.MapOrderIndependent | mapper.go:51-53 | The result of `Map` does not depend on the map iteration order. |
| Ids.CompactedResolves | mapper.go:53-63 | Looking up each id's piece gives back the position sequence. |
| Ids.MakeTokensSpec | tokens.go:75-82 | `MakeTokens` compacts the words' pieces, and resolving its ids gives exactly those pieces. |
| Samples.RepeatedWordsShareIds | tokens_test.go:57-60 | `a b a c c a b d` gives the ids 0 1 0 3 3 0 1 7, whatever the map iteration order. |
| Positional.FirstMatchSpec | document/document.go:209-216 | The first query word binds to the earliest piece equal to it. Nothing is found exactly when no piece is equal. |
| Positional.SimpleCheckFirstWord | document/document.go:209-216 | With the cursor at 0, `simpleCheck` finds the earliest equal piece, and finds one exactly when one exists. |
| Positional.SimpleCheckLaterWord | document/document.go:217-226 | With the cursor past 0, only the piece at the cursor is tried. Past the end, nothing is found. |
| Positional.AlignedSpec | document/document.go:167-186 | `Aligned` counts how many query words, from the first, equal consecutive pieces from a position, stopping at the first that does not. |
| Positional.PhaseAMoves | document/document.go:172-178 | After a match the cursor is one past the matched piece, and the next word is tried there. |
| Positional.PhaseAStops | document/document.go:167-171 | A word that does not equal the piece at the cursor ends Phase A, which fails unless no word remains. |
| Positional.PhaseAFrom | document/document.go:167-186 | From a matched cursor, Phase A succeeds exactly when every remaining word is aligned, and collects the aligned pieces. |
| Positional.PhaseASpec | document/document.go:167-186 | Phase A fails with nothing collected when the first word has no equal piece. Otherwise it succeeds exactly when all words align from the first word's earliest piece, and it collects those pieces. |
| Positional.PhaseAFound | document/document.go:167-186 | When the first word is found, the collected pieces are the consecutive aligned run from its earliest equal piece. |
| Positional.PhaseAOutcome | document/document.go:167-186 | Phase A succeeds exactly when there are words and the whole aligned run is collected; it always collects the run it reached. |
| Tiling.Grow | document/document.go:262-277 | The window grows from its size up to the piece's length, and stays inside the text. |
| Tiling.GrowSpec | document/document.go:262-277 | The window is compared exactly when the piece fits between the offset and the end of the text, and then at the piece's length. |
| Tiling.ProbeAtSpec | document/document.go:262-291 | A piece runs past the end exactly when it is empty or does not fit. It matches exactly when it fits and is equal to the window of its length. |
| Tiling.ExhaustedStep | document/document.go:268-276 | A piece that runs past the end resets the offset, keeps the matched pieces and the pending run, and moves on. |
| Tiling.ClearStep | document/document.go:278-281 | A mismatch with no pending special run clears everything and moves on without retrying the piece. |
| Tiling.RollbackStep | document/document.go:282-287 | A mismatch with a pending run of k special pieces drops the first k pieces of the accumulator and retries the same piece from offset 0. These are the pending run unless pieces kept across an offset reset come before it, and then the tiling fails either way (`NoStalePieces`). |
| Tiling.MatchStep | document/document.go:292-307 | A match that does not reach the end appends the piece, moves the offset past it and updates the pending special run. |
| Tiling.FinalStep | document/document.go:308-313 | A match that reaches the end succeeds exactly when the unspaced join of the pieces is equal to the text. |
| Tiling.WindowsLength | document/document.go:292-307 | Pieces on consecutive windows from offset 0 to an offset join to a text of that length. |
| Tiling.WindowsPieces | document/document.go:292-307 | Each piece on consecutive windows is equal to the text between the lengths of the joins before and after it. |
| Tiling.NoStalePieces | document/document.go:268-276 | Pieces kept across an offset reset are non-empty, so when the pieces matched since the reset reach the end of the text and the whole join is as long as the text, no piece from before the reset is left. |
| Tiling.FinalPiece | document/document.go:308-313 | A match that ends at the text's end and passes the final check leaves pieces that tile the text. |
| Tiling.Step | document/document.go:262-316 | One loop step keeps the invariant: the pieces are picked in scanned order from before the current one, and those matched since the last reset sit on consecutive windows up to the offset. Either the step decides the result, which then tiles the text, or it moves to a state nearer the end with the same result. |
| Tiling.TileSound | document/document.go:257-320 | A successful tiling returns at least one piece. The pieces are scanned pieces in their scanned order, they sit on consecutive windows from the start to the end of the text, each equal to its window, and their unspaced join is equal to the text. |
| Tiling.SpecialCheckSound | document/document.go:257-320 | A successful `specialCheck` returns the spaced join of pieces that tile the text in that sense. |
| Tiling.NoPiecesNoTiling | document/document.go:319 | With no scanned pieces Phase B fails. |
| TilingSamples.UnBangLever | document/document_test.go:363-369 | At 60 percent, "un", "!", "lever" tile "unilever" as "un ! lever". |
| TilingSamples.SpecialBefore | document/document_test.go:377-383 | A leading '.' is rolled back when "uni" clashes, giving "uni lever". |
| TilingSamples.Pera | document/document_test.go:384-390 | "pera" does not tile "unilever". |
| TilingSamples.RollbackAfterReset | document/document.go:268-291 | On "ab" with pieces "a", "xyz", ".", "q", the piece "a" survives the reset caused by "xyz", so the rollback on "q" drops "a" and keeps the pending "."; the tiling still fails. |
| TilingSamples.ProbeExact | document/document.go:262-291 | A piece longer than one rune that is exactly the window matches when the policy accepts a full score. |
| TilingSamples.ProbeSpecial | document/document.go:262-291 | A one-rune special piece matches any window that is not numeric. |
| TilingSamples.ProbeLetterClash | document/document.go:262-291 | A piece whose first letter differs from the window's first letter does not match. |
| TilingAsWritten.AsWrittenRollbackStep | document/document.go:282-287 | As written, the rollback cuts k runes off both rune accumulators. |
| TilingAsWritten.AsWrittenMatchStep | document/document.go:292-307 | As written, a match appends the piece to both accumulators, after a space in the spaced one unless it is empty. |
| TilingAsWritten.AsWrittenFinalStep | document/document.go:308-313 | As written, the end of the text returns the spaced accumulator when the unspaced one is equal to the text. |
| TilingAsWritten.RollbackKeepsSeparator | document/document.go:282-287 | On "unilever" with pieces ".", ",", "uni", "lever", the code as written returns ", uni lever"; the corrected loop returns "uni lever". |
| TilingAsWritten.RollbackLosesMatch | document/document.go:282-287 | At a minimum score of 40, on "unilever" with pieces ".", "!!", "uni", "lever", the code as written keeps a '!' in the unspaced accumulator and fails; the corrected loop returns "uni lever". |
| Engine.CompareSpec | document/document.go:164-200 | When Phase A aligns every word, `Compare` returns the aligned pieces joined with spaces. Otherwise it returns the tiling's answer, after the partial run and a space when Phase A collected any, and nothing when the tiling fails. |
| Engine.PhaseAAnswer | document/document.go:164-186 | A Phase A answer is a consecutive run of scanned pieces, one per query word, each equal to its word, joined with spaces. |
| Engine.ScannedPieces | document/document.go:148 | The receiver's words scan to their pieces in position order, whatever the map iteration order. |
| Engine.Scan | document/document.go:146-155 | Index i is in the result exactly when document i's `Compare` succeeds, and then it maps to that span. |
| Engine.CompareAll | document/document.go:149-153 | The loop over the query documents keeps exactly the successful comparisons. |
| EngineSamples.UnileverDocument | document/document_test.go:363-369 | The query "unilever" against the pieces "un", "!", "lever": Phase A finds nothing, and `Compare` returns "un ! lever". |
| Options.NewDocumentDefaults | document/document.go:76-81 | Without options the words are the text split on single spaces, so they join back to it, and the policy demands every position. |
| Options.ApplyAllSnoc | document/document.go:68-75 | Options apply in the order given. |
| Options.MinimumScoreInstalled | options.go:76-82 | `WithMinimumMatchScore(s)` accepts `matchScore` out of `wordLength` when it reaches `s*wordLength/100` with Go's division. |
| Options.ConditionalScoreInstalled | options.go:84-88 | `WithConditionalMatchScore(f)` with a function f installs f unchanged and leaves the text and words alone. |
| Options.ConditionalNilRestoresDefault | document/document.go:76-81 | `WithConditionalMatchScore(nil)` unsets the policy, whatever an earlier option installed, so the default minimum score of 100 applies. |
| Options.WhitespaceTokenizerOneWord | options.go:92-95 | `WithCustomRegexpTokenizer(nil)` makes the text with every whitespace run removed the only word. |
| Options.RemovalLoopSpec | options.go:41-53 | From any rune on, the loop appends exactly the runes that differ from their predecessor or are numbers. |
| Options.RemovalAsWrittenDoublesLeadingNumber | options.go:41-53 | As written, the option gives the collapsed text, with the first rune written a second time when it is a number. |
| Options.RemovalDoublesOne | options.go:41-53 | As written "1a" becomes "11a"; the collapsed text is "1a". |
| Options.RemoveSequentialRepeats | options.go:37-56 | The corrected loop returns the collapsed text. |
| Options.CollapseNoRepeats | options.go:46-52 | The collapsed text has no two neighbouring equal runes other than numbers. |
| Options.CollapseFixed | options.go:46-52 | The removal leaves a text unchanged exactly when it has no two neighbouring equal runes other than numbers. |
| Options.CollapseIdempotent | options.go:46-52 | Removing repeats twice is removing them once. |
| OptionsSamples.RemovalExamples | doc_test.go:48-65 | "cocaiiiina" becomes "cocaina" and "iphone 11" is unchanged, both as written and corrected. |
| OptionsSamples.RemovalDocuments | doc_test.go:48-65 | With the option, the documents' words are ["cocaina"] and ["iphone", "11"]. |
| Text.SplitJoin | document/document.go:77 | Splitting the space-join of space-free words gives the words back. |
| Text.Split | document/document.go:77 | The split pieces contain no separator and join back to the text. |
| Text.RemoveSpaces | options.go:93 | The result has no whitespace, and a text without whitespace is unchanged. One whitespace rune is removed, and any other rune is kept. |
| Text.RemoveSpacesAppend | options.go:93 | Removal works piece by piece: the result for a joined text is the joined results. With the one-rune case this fixes the result as the non-whitespace runes in order. |
| Utf8.StripStartAgrees | tokens.go:35 | When the leading run is ASCII, the byte cut is the encoding of the word without its leading run. |
| Utf8.StripEndAgrees | tokens.go:45 | When the trailing run is ASCII, the byte cut is the encoding of the word without its trailing run. |
| Utf8.InvertedQuestionLeavesByte | tokens.go:35 | "¿hola": cutting one byte for one special rune leaves the byte 0xBF in front of "hola". |
| Utf8.InvertedExclamationLeavesByte | tokens.go:45 | "hola¡": cutting one byte leaves the byte 0xC2 after "hola". |

## Left out

- `unicode.IsLetter` and `unicode.IsNumber` are exact on Latin-1 (U+0000 to U+00FF). Every code point above is treated as neither, because the Unicode category tables are data, not logic.
- Reading input (`NewDocumentFromReader`, `ioutil.ReadAll`) is I/O.
- HTML parsing, accent folding (`transformer.go`), `WithSetLower` / `WithSetUpper`, `WithReplacer` and the prose tokenizer branch of `WithCustomRegexpTokenizer` call foreign libraries.
- The option error (`optError`) is set only by the HTML and transform options, which are left out, so `NewDocument` never fails here.
- `String()`, the `Documenter` and `Mapper` interfaces and the example programs hold no logic.
- `doc.go` is the same engine as `document/document.go` on the root package's `Doc`; it is not modelled separately. The `mapper` package that `document/document.go` imports is represented by the root `mapper.go`, with `GetRunesByID(id)` as the value stored under `id`, or the empty string when there is none.
- Go `int` overflow in the scorer and the option thresholds is not modelled; integers are unbounded.
- Go map iteration order in `Map` is the parameter `order`. The result is proved independent of it for every order that lists all keys.
- Slice aliasing between `completeWord`, `completeWordSpaced`, `ce.sequence` and the token storage is not modelled; all values are immutable sequences.
- `lastFound` in `specialCheck` is written but never read, and is not modelled.
- Engine.Compare: `specialCheck` loops forever when the joined query is empty and there is a scanned piece. The model requires `Settles` (Phase A succeeds, the joined query is not empty, or there are no pieces) instead of modelling divergence.
- Tiling.SpecialCheck: requires a non-empty text or no pieces, for the same non-termination.
- Engine.Compare: Phase B is the corrected `Tiling.SpecialCheck`, which drops the first k whole pieces of the accumulator on a rollback (the pending run, unless pieces kept across an offset reset come before it, in which case the tiling fails either way). The source's rune-slicing rollback is `TilingAsWritten.SpecialCheckAsWritten`; the two differ in the returned text (`RollbackKeepsSeparator`) and in whether a match is found at all (`RollbackLosesMatch`), see Findings.
- Options.ApplyOption: the `buf` and `pc` that one `WithSequentialEqualCharsRemoval` value keeps between applications are not modelled; every application is a fresh call.
- Options.ApplyOption: the document uses the corrected removal (`Collapse`); the loop as written is `Options.RemovalAsWritten` (see Findings).
- Canon.StripStart: removes runes, while the code cuts bytes; the byte view is in `Utf8` (see Findings). `Utf8.StripEndAsWritten` is stated for words whose leading run is already removed.
- Canon.PiecesFlatten: joining a word's pieces does not give the word back when its trailing run holds two different runes, because `getEndSpecial` collects the run backwards ("amigo.," gives "amigo,."). The model follows the code.
- Scorer.Percent60: the tests' function divides by the word length; the model rejects empty words instead of dividing by zero.
- `Map`'s quadratic running time is not modelled.

## Findings

| source | as written | input that shows it | evidently intended | confidence | as-written member | corrected member |
|---|---|---|---|---|---|---|
| document/document.go:282-287 | The rollback cuts `matchOnOneSpecial` runes off the spaced accumulator, but that accumulator also holds a space between the pending pieces. | Query "unilever", pieces ".", ",", "uni", "lever", minimum score 100: the result is ", uni lever". At minimum score 40 with pieces ".", "!!", "uni", "lever" the unspaced accumulator keeps a '!' and no match is found. | Drop the pending pieces with their separators: "uni lever" in both cases. | not executed | TilingAsWritten.RollbackKeepsSeparator and TilingAsWritten.RollbackLosesMatch | Tiling.SpecialCheck, proved by Tiling.SpecialCheckSound |
| options.go:42-52 | The first rune is written before the repeat test, and then compared with itself. A number is always written, so a leading number is written twice. | "1a" becomes "11a". | Write the first rune once: "1a". | not executed | Options.RemovalDoublesOne | Options.RemoveSequentialRepeats, with Options.CollapseNoRepeats and Options.CollapseIdempotent |
| tokens.go:35 | The word is sliced at a byte offset equal to the number of leading special runes. | "¿hola" (the '¿' is two bytes) leaves the byte 0xBF before "hola". | Remove the leading special runes: "hola". | not executed | Utf8.InvertedQuestionLeavesByte | Canon.StripStart, proved by Canon.StripStartSplits |
| tokens.go:45 | The word is cut at a byte offset from its end equal to the number of trailing special runes. | "hola¡" leaves the byte 0xC2 after "hola". | Remove the trailing special runes: "hola". | not executed | Utf8.InvertedExclamationLeavesByte | Canon.Core, proved by Canon.CoreSpec |
