/** The byte view of the special-rune stripping in `makeMapping`. The Go
    code counts the special runes as runes but cuts them off the word's
    UTF-8 bytes, so the cut is right only when every special rune is one
    byte long. */
module Utf8 {
  import opened Canon

  newtype byte = x: int | 0 <= x < 256

  /** The UTF-8 encoding of one rune. */
  function EncodeRune(c: char): (r: seq<byte>)
    ensures 1 <= |r| <= 4
    ensures |r| == 1 <==> (c as int) < 0x80
  {
    var n := c as int;
    if n < 0x80 then [n as byte]
    else if n < 0x800 then [(0xC0 + n / 0x40) as byte, (0x80 + n % 0x40) as byte]
    else if n < 0x1_0000 then
      [(0xE0 + n / 0x1000) as byte, (0x80 + (n / 0x40) % 0x40) as byte, (0x80 + n % 0x40) as byte]
    else
      [(0xF0 + n / 0x4_0000) as byte, (0x80 + (n / 0x1000) % 0x40) as byte,
       (0x80 + (n / 0x40) % 0x40) as byte, (0x80 + n % 0x40) as byte]
  }

  /** The UTF-8 encoding of a string: never shorter than its runes. */
  function Encode(s: string): (r: seq<byte>)
    ensures |r| >= |s|
  {
    if |s| == 0 then [] else EncodeRune(s[0]) + Encode(s[1..])
  }

  lemma {:induction false} EncodeAppend(a: string, b: string)
    ensures Encode(a + b) == Encode(a) + Encode(b)
  {
    if |a| > 0 {
      assert (a + b)[0] == a[0] && (a + b)[1..] == a[1..] + b;
      EncodeAppend(a[1..], b);
    } else {
      assert a + b == b;
    }
  }

  predicate IsAscii(s: string)
  {
    forall i :: 0 <= i < |s| ==> (s[i] as int) < 0x80
  }

  /** An ASCII string is one byte per rune. */
  lemma {:induction false} EncodeAscii(s: string)
    requires IsAscii(s)
    ensures |Encode(s)| == |s|
  {
    if |s| > 0 {
      EncodeAscii(s[1..]);
    }
  }

  /** `t = t[len(startSpecial):]` as written: the word's bytes, with as many
      bytes cut off the front as there are leading special runes. */
  function StripStartAsWritten(t: string): seq<byte>
  {
    Encode(t)[|StartSpecial(t)|..]
  }

  /** `t = t[:len(t)-len(endSpecial)]` as written, on a word whose leading
      specials are already gone: as many bytes cut off the back as there are
      trailing special runes. */
  function StripEndAsWritten(t: string): seq<byte>
  {
    Encode(t)[..|Encode(t)| - |EndSpecial(t)|]
  }

  /** When the leading specials are ASCII, the byte cut is the encoding of
      the word with its leading special runes removed. */
  lemma StripStartAgrees(t: string)
    requires IsAscii(StartSpecial(t))
    ensures StripStartAsWritten(t) == Encode(StripStart(t))
  {
    StripStartSplits(t);
    EncodeAppend(StartSpecial(t), StripStart(t));
    EncodeAscii(StartSpecial(t));
  }

  /** When the trailing specials are ASCII, the byte cut is the encoding of
      the word with its trailing special runes removed. */
  lemma StripEndAgrees(t: string)
    requires IsAscii(EndSpecial(t))
    ensures StripEndAsWritten(t) == Encode(t[..|t| - |EndSpecial(t)|])
  {
    var n := |EndSpecial(t)|;
    EndSpecialSpec(t);
    assert t == t[..|t| - n] + t[|t| - n..];
    EncodeAppend(t[..|t| - n], t[|t| - n..]);
    var tail := t[|t| - n..];
    assert IsAscii(tail) by {
      ReverseIndex(tail);
      forall i | 0 <= i < |tail|
        ensures (tail[i] as int) < 0x80
      {
        if HasAlnum(t) {
          assert EndSpecial(t)[n - 1 - i] == tail[i];
        }
      }
    }
    EncodeAscii(tail);
  }

  /** "¿hola": the leading special is two bytes long, so cutting one byte
      leaves its continuation byte 0xBF in front of "hola". */
  lemma InvertedQuestionLeavesByte()
    ensures StripStartAsWritten("¿hola") == [0xBF] + Encode("hola")
    ensures Encode(StripStart("¿hola")) == Encode("hola")
  {
    StartSpecialFromSpec("¿hola", 0);
    assert Runes.IsLetter('h');
    assert StartSpecial("¿hola") == "¿";
    assert "¿hola" == "¿" + "hola";
    EncodeAppend("¿", "hola");
    assert Encode("¿") == [0xC2, 0xBF];
  }

  /** "hola¡": the trailing special is two bytes long, so cutting one byte
      leaves its lead byte 0xC2 after "hola". */
  lemma InvertedExclamationLeavesByte()
    ensures StripEndAsWritten("hola¡") == Encode("hola") + [0xC2]
  {
    assert Runes.IsLetter('a') && !IsAlnum('¡');
    assert "hola¡"[4..] == "¡";
    assert Reverse("¡") == "¡";
    assert EndSpecialFrom("hola¡", 4) == "¡";
    assert EndSpecial("hola¡") == "¡";
    assert "hola¡" == "hola" + "¡";
    EncodeAppend("hola", "¡");
    assert Encode("¡") == [0xC2, 0xA1];
  }
}
