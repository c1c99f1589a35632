/** String helpers standing in for Go's `strings.Join`, `strings.Split` and
    the whitespace-removing regular expression. Strings are rune sequences. */
module Text {

  /** `strings.Join(ws, "")`. */
  function Concat(ws: seq<string>): (r: string)
    ensures |ws| == 1 ==> r == ws[0]
  {
    if |ws| == 0 then [] else Concat(ws[..|ws| - 1]) + ws[|ws| - 1]
  }

  /** `strings.Join(ws, string(sep))`. */
  function JoinWith(ws: seq<string>, sep: char): (r: string)
    ensures |ws| == 1 ==> r == ws[0]
  {
    if |ws| == 0 then []
    else if |ws| == 1 then ws[0]
    else JoinWith(ws[..|ws| - 1], sep) + [sep] + ws[|ws| - 1]
  }

  /** Pieces joined with single spaces: the shape of every match span. */
  function JoinSpaced(ws: seq<string>): string {
    JoinWith(ws, ' ')
  }

  lemma {:induction false} ConcatAppend(ws: seq<string>, w: string)
    ensures Concat(ws + [w]) == Concat(ws) + w
  {
    assert (ws + [w])[..|ws|] == ws;
  }

  lemma {:induction false} ConcatSplit(a: seq<string>, b: seq<string>)
    ensures Concat(a + b) == Concat(a) + Concat(b)
    decreases |b|
  {
    if |b| == 0 {
      assert a + b == a;
    } else {
      var b' := b[..|b| - 1];
      assert a + b == (a + b') + [b[|b| - 1]];
      assert b == b' + [b[|b| - 1]];
      ConcatAppend(a + b', b[|b| - 1]);
      ConcatAppend(b', b[|b| - 1]);
      ConcatSplit(a, b');
    }
  }

  lemma {:induction false} JoinWithAppend(ws: seq<string>, w: string, sep: char)
    requires |ws| > 0
    ensures JoinWith(ws + [w], sep) == JoinWith(ws, sep) + [sep] + w
  {
    assert (ws + [w])[..|ws|] == ws;
  }

  /** The length of a spaced join: the pieces plus one separator between
      each neighbouring pair. */
  lemma {:induction false} JoinWithLength(ws: seq<string>, sep: char)
    requires |ws| > 0
    ensures |JoinWith(ws, sep)| == |Concat(ws)| + |ws| - 1
  {
    if |ws| > 1 {
      JoinWithLength(ws[..|ws| - 1], sep);
    }
  }

  /** `strings.Split(s, string(sep))`: the maximal separator-free pieces
      between separators, in order. */
  function Split(s: string, sep: char): (r: seq<string>)
    ensures |r| >= 1
    ensures forall i :: 0 <= i < |r| ==> sep !in r[i]
    ensures JoinWith(r, sep) == s
    decreases |s|
  {
    if sep !in s then [s]
    else
      var i := FirstIndex(s, sep);
      var rest := Split(s[i + 1..], sep);
      var r := [s[..i]] + rest;
      JoinPrepend(s[..i], rest, sep);
      assert s == s[..i] + [sep] + s[i + 1..];
      r
  }

  function FirstIndex(s: string, c: char): (i: nat)
    requires c in s
    ensures i < |s| && s[i] == c && c !in s[..i]
  {
    if s[0] == c then 0 else 1 + FirstIndex(s[1..], c)
  }

  lemma {:induction false} JoinPrepend(w: string, ws: seq<string>, sep: char)
    requires |ws| > 0
    ensures JoinWith([w] + ws, sep) == w + [sep] + JoinWith(ws, sep)
    decreases |ws|
  {
    if |ws| > 1 {
      var ws' := ws[..|ws| - 1];
      assert ([w] + ws)[..|ws|] == [w] + ws';
      JoinPrepend(w, ws', sep);
    } else {
      assert [w] + ws == [w, ws[0]];
    }
  }

  /** Split is the inverse of joining separator-free pieces. */
  lemma {:induction false} SplitJoin(ws: seq<string>, sep: char)
    requires |ws| > 0
    requires forall i :: 0 <= i < |ws| ==> sep !in ws[i]
    ensures Split(JoinWith(ws, sep), sep) == ws
    decreases |ws|
  {
    if |ws| == 1 {
      assert JoinWith(ws, sep) == ws[0];
    } else {
      var rest := ws[1..];
      assert ws == [ws[0]] + rest;
      JoinPrepend(ws[0], rest, sep);
      var s := JoinWith(ws, sep);
      assert s == ws[0] + [sep] + JoinWith(rest, sep);
      assert s[|ws[0]|] == sep;
      assert s[..|ws[0]|] == ws[0];
      assert FirstIndex(s, sep) == |ws[0]| by {
        FirstIndexOf(s, sep, |ws[0]|);
      }
      assert s[|ws[0]| + 1..] == JoinWith(rest, sep);
      SplitJoin(rest, sep);
    }
  }

  lemma {:induction false} FirstIndexOf(s: string, c: char, k: nat)
    requires k < |s| && s[k] == c && c !in s[..k]
    ensures FirstIndex(s, c) == k
  {
    if k > 0 {
      assert s[..k][0] == s[0];
      assert s[1..][..k - 1] == s[..k][1..];
      FirstIndexOf(s[1..], c, k - 1);
    }
  }

  /** The whitespace class `\s` of Go's regular expressions. */
  predicate IsSpace(c: char) {
    c == '\t' || c == '\n' || c == '\U{000C}' || c == '\r' || c == ' '
  }

  /** Replacing every run of `\s` with nothing. */
  function RemoveSpaces(s: string): (r: string)
    ensures forall i :: 0 <= i < |r| ==> !IsSpace(r[i])
    ensures |r| <= |s|
    ensures (forall i :: 0 <= i < |s| ==> !IsSpace(s[i])) ==> r == s
    ensures |s| == 1 ==> r == (if IsSpace(s[0]) then [] else s)
  {
    if |s| == 0 then []
    else if IsSpace(s[0]) then RemoveSpaces(s[1..])
    else [s[0]] + RemoveSpaces(s[1..])
  }

  /** Removal works piecewise: the text's runes that are not whitespace are
      kept, in order. With the one-rune case this determines the result. */
  lemma {:induction false} RemoveSpacesAppend(a: string, b: string)
    ensures RemoveSpaces(a + b) == RemoveSpaces(a) + RemoveSpaces(b)
    decreases |a|
  {
    if |a| > 0 {
      assert (a + b)[0] == a[0] && (a + b)[1..] == a[1..] + b;
      RemoveSpacesAppend(a[1..], b);
    } else {
      assert a + b == b;
    }
  }
}
