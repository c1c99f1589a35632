/** The compaction of a position table into the token structure the
    aligner reads (`Map` / `mapTokens`, `Tokens`, `GetRunesByID`). */
module Ids {
  import opened Wrappers
  import opened Canon
  import opened Mapper

  /** The token structure: one id per position, and the piece behind each
      id. An id is the position where its piece first occurs. */
  datatype Tokens = Tokens(ids: seq<nat>, values: map<nat, string>)

  /** `GetRunesByID`: the piece behind an id; a Go map read of a missing key
      gives the empty slice. */
  function RunesById(t: Tokens, id: nat): string
  {
    if id in t.values then t.values[id] else []
  }

  /** The pieces the aligner walks: the piece behind every id, in id order. */
  function Resolve(t: Tokens): (r: seq<string>)
    ensures |r| == |t.ids|
  {
    seq(|t.ids|, i requires 0 <= i < |t.ids| => RunesById(t, t.ids[i]))
  }

  /** The Go map iteration order is not fixed; `order(n)` is the key order of
      the pass that looks for position `n`. */
  ghost predicate Covers(m: Mapping, order: nat -> seq<string>)
  {
    forall n: nat, w :: w in m ==> w in order(n)
  }

  /** The first key, in the pass's iteration order, whose list holds
      position `next`. */
  function Owner(m: Mapping, keys: seq<string>, next: nat): Option<string>
  {
    if |keys| == 0 then None
    else if keys[0] in m && next in m[keys[0]] then Some(keys[0])
    else Owner(m, keys[1..], next)
  }

  lemma {:induction false} OwnerSpec(m: Mapping, keys: seq<string>, next: nat)
    ensures Owner(m, keys, next).Some? ==> Owner(m, keys, next).value in m && next in m[Owner(m, keys, next).value]
    ensures Owner(m, keys, next).None? <==> forall k :: k in keys && k in m ==> next !in m[k]
  {
    if |keys| > 0 {
      OwnerSpec(m, keys[1..], next);
      assert forall k :: k in keys <==> k == keys[0] || k in keys[1..];
    }
  }

  /** The positions at or after `next` still to be visited. */
  ghost function Remaining(m: Mapping, next: nat): set<nat>
  {
    set w, p: nat | w in m && p in m[w] && p >= next :: p
  }

  lemma RemainingShrinks(m: Mapping, w: string, next: nat)
    requires w in m && next in m[w]
    ensures Remaining(m, next + 1) < Remaining(m, next)
  {
    assert next in Remaining(m, next);
  }

  /** The loop of `Map` from position `next` on: `ref` remembers each
      piece's id, `acc` is the structure built so far. A pass stops the
      loop when no piece holds `next`. */
  function MapFrom(m: Mapping, order: nat -> seq<string>, next: nat, ref: map<string, nat>, acc: Tokens): Tokens
    decreases Remaining(m, next)
  {
    match Owner(m, order(next), next)
    case None => acc
    case Some(w) =>
      OwnerSpec(m, order(next), next);
      RemainingShrinks(m, w, next);
      if w in ref then
        MapFrom(m, order, next + 1, ref, acc.(ids := acc.ids + [ref[w]]))
      else
        MapFrom(m, order, next + 1, ref[w := next], Tokens(acc.ids + [next], acc.values[next := w]))
  }

  /** `Map` / `mapTokens`. */
  function Map(m: Mapping, order: nat -> seq<string>): Tokens
  {
    MapFrom(m, order, 0, map[], Tokens([], map[]))
  }

  /** `MakeTokens`: the token structure of a word list. */
  function MakeTokens(words: seq<string>, order: nat -> seq<string>): Tokens
  {
    Map(NewMappingFromTokens(words), order)
  }

  /** The position where `w` first occurs in `ps`, or `|ps|`. */
  function FirstOcc(ps: seq<string>, w: string): nat
  {
    if |ps| == 0 then 0 else if ps[0] == w then 0 else 1 + FirstOcc(ps[1..], w)
  }

  lemma {:induction false} FirstOccSpec(ps: seq<string>, w: string)
    ensures FirstOcc(ps, w) <= |ps|
    ensures FirstOcc(ps, w) < |ps| <==> w in ps
    ensures FirstOcc(ps, w) < |ps| ==> ps[FirstOcc(ps, w)] == w
    ensures forall p :: 0 <= p < FirstOcc(ps, w) ==> ps[p] != w
  {
    if |ps| > 0 && ps[0] != w {
      FirstOccSpec(ps[1..], w);
      assert forall p :: 0 < p < |ps| ==> ps[p] == ps[1..][p - 1];
      assert w in ps <==> w in ps[1..];
    }
  }

  /** The state of `Map` after the positions below `n`: every visited
      position has the id of its piece's first occurrence, `ref` knows the
      pieces seen, and `values` holds exactly the first occurrences seen. */
  ghost predicate Visited(ps: seq<string>, n: nat, ref: map<string, nat>, acc: Tokens)
  {
    && n <= |ps|
    && |acc.ids| == n
    && (forall p :: 0 <= p < n ==> acc.ids[p] == FirstOcc(ps, ps[p]))
    && (forall w :: w in ref <==> FirstOcc(ps, w) < n)
    && (forall w :: w in ref ==> ref[w] == FirstOcc(ps, w))
    && (forall id: nat :: id in acc.values <==> id < n && FirstOcc(ps, ps[id]) == id)
    && (forall id: nat :: id in acc.values ==> id < |ps| && acc.values[id] == ps[id])
  }

  /** What `Map` promises for a dense position table: one id per position,
      the id of a position is where its piece first occurs, and the
      values hold exactly the first occurrences with their pieces. */
  ghost predicate Compacted(ps: seq<string>, t: Tokens)
  {
    && |t.ids| == |ps|
    && (forall p :: 0 <= p < |ps| ==> t.ids[p] == FirstOcc(ps, ps[p]))
    && (forall id: nat :: id in t.values <==> id < |ps| && FirstOcc(ps, ps[id]) == id)
    && (forall id: nat :: id in t.values ==> id < |ps| && t.values[id] == ps[id])
  }

  lemma VisitedStep(ps: seq<string>, n: nat, ref: map<string, nat>, acc: Tokens)
    requires Visited(ps, n, ref, acc) && n < |ps|
    ensures ps[n] in ref ==> Visited(ps, n + 1, ref, acc.(ids := acc.ids + [ref[ps[n]]]))
    ensures ps[n] !in ref ==> Visited(ps, n + 1, ref[ps[n] := n], Tokens(acc.ids + [n], acc.values[n := ps[n]]))
  {
    var w := ps[n];
    FirstOccSpec(ps, w);
    forall v
      ensures FirstOcc(ps, v) < n + 1 <==> FirstOcc(ps, v) < n || v == w
    {
      FirstOccSpec(ps, v);
    }
  }

  lemma {:induction false} MapFromSpec(ps: seq<string>, order: nat -> seq<string>, n: nat, ref: map<string, nat>, acc: Tokens)
    requires Covers(MappingOf(ps), order)
    requires Visited(ps, n, ref, acc)
    ensures Compacted(ps, MapFrom(MappingOf(ps), order, n, ref, acc))
    decreases |ps| - n
  {
    var m := MappingOf(ps);
    MappingOfSpec(ps);
    OwnerSpec(m, order(n), n);
    if n == |ps| {
      assert Owner(m, order(n), n).None?;
    } else {
      var w := ps[n];
      assert w in m && n in m[w];
      assert w in order(n);
      var o := Owner(m, order(n), n);
      assert o == Some(w);
      VisitedStep(ps, n, ref, acc);
      if w in ref {
        MapFromSpec(ps, order, n + 1, ref, acc.(ids := acc.ids + [ref[w]]));
      } else {
        MapFromSpec(ps, order, n + 1, ref[w := n], Tokens(acc.ids + [n], acc.values[n := w]));
      }
    }
  }

  /** `Map` on the table of a position sequence, in any iteration order,
      gives each position the id of its piece's first occurrence. */
  lemma MapCompacts(ps: seq<string>, order: nat -> seq<string>)
    requires Covers(MappingOf(ps), order)
    ensures Compacted(ps, Map(MappingOf(ps), order))
  {
    MapFromSpec(ps, order, 0, map[], Tokens([], map[]));
  }

  /** Two structures that meet the promise for the same positions are equal. */
  lemma CompactedUnique(ps: seq<string>, t: Tokens, u: Tokens)
    requires Compacted(ps, t) && Compacted(ps, u)
    ensures t == u
  {
    assert t.ids == u.ids;
    assert t.values.Keys == u.values.Keys;
  }

  /** Because positions are disjoint, `Map` does not depend on the map
      iteration order. */
  lemma MapOrderIndependent(ps: seq<string>, o1: nat -> seq<string>, o2: nat -> seq<string>)
    requires Covers(MappingOf(ps), o1) && Covers(MappingOf(ps), o2)
    ensures Map(MappingOf(ps), o1) == Map(MappingOf(ps), o2)
  {
    MapCompacts(ps, o1);
    MapCompacts(ps, o2);
    CompactedUnique(ps, Map(MappingOf(ps), o1), Map(MappingOf(ps), o2));
  }

  /** Decoding round trip: the piece behind the id of every position is the
      piece at that position. */
  lemma CompactedResolves(ps: seq<string>, t: Tokens)
    requires Compacted(ps, t)
    ensures Resolve(t) == ps
  {
    forall p | 0 <= p < |ps|
      ensures Resolve(t)[p] == ps[p]
    {
      FirstOccSpec(ps, ps[p]);
      var id := t.ids[p];
      assert id in t.values;
    }
  }

  /** `MakeTokens` in any iteration order: ids are first occurrences of the
      words' pieces, and resolving them gives back the pieces in position
      order. */
  lemma MakeTokensSpec(words: seq<string>, order: nat -> seq<string>)
    requires Covers(NewMappingFromTokens(words), order)
    ensures Compacted(Positions(words), MakeTokens(words, order))
    ensures Resolve(MakeTokens(words, order)) == Positions(words)
  {
    NewMappingFromTokensTable(words);
    MapCompacts(Positions(words), order);
    CompactedResolves(Positions(words), MakeTokens(words, order));
  }
}
