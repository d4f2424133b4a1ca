/**
 Alphabets (the generator's `baseEncoding`): the named presets, spelling a digit sequence with
 an alphabet, reading a token back into a number, and the lowercase hexadecimal rendering of a
 byte buffer that the 16-character preset uses.
 */
module Alphabet {
  import opened Wrappers
  import opened Numeral

  const BASE16: string := "0123456789abcdef"
  const BASE36: string := "0123456789ABCDEFGHIJKLMNOPQRSTUVWXYZ"
  const BASE58: string := "123456789ABCDEFGHJKLMNPQRSTUVWXYZabcdefghijkmnopqrstuvwxyz"
  const BASE62: string := "0123456789ABCDEFGHIJKLMNOPQRSTUVWXYZabcdefghijklmnopqrstuvwxyz"
  const BASE66: string := "0123456789ABCDEFGHIJKLMNOPQRSTUVWXYZabcdefghijklmnopqrstuvwxyz-._~"
  const BASE71: string := "0123456789ABCDEFGHIJKLMNOPQRSTUVWXYZabcdefghijklmnopqrstuvwxyz!'()*-._~"

  /** No character occurs twice, so every character names exactly one digit. */
  predicate Distinct(enc: string)
  {
    forall i, j :: 0 <= i < j < |enc| ==> enc[i] != enc[j]
  }

  /** Each preset's size is the radix in its name. */
  lemma Presets()
    ensures |BASE16| == 16 && |BASE36| == 36 && |BASE58| == 58
    ensures |BASE62| == 62 && |BASE66| == 66 && |BASE71| == 71
  {
  }

  /** Writes each digit as the alphabet character at that index. */
  function Spell(enc: string, ds: seq<nat>): (token: string)
    requires AllBelow(ds, |enc|)
    ensures |token| == |ds|
  {
    seq(|ds|, k requires 0 <= k < |ds| => enc[ds[k]])
  }

  lemma SpellAppend(enc: string, a: seq<nat>, b: seq<nat>)
    requires AllBelow(a, |enc|) && AllBelow(b, |enc|)
    ensures AllBelow(a + b, |enc|)
    ensures Spell(enc, a + b) == Spell(enc, a) + Spell(enc, b)
  {
    assert AllBelow(a + b, |enc|) by {
      forall k | 0 <= k < |a + b| ensures (a + b)[k] < |enc| {
        if k >= |a| { assert (a + b)[k] == b[k - |a|]; }
      }
    }
  }

  /** The digit a character stands for: its first position in the alphabet. */
  function IndexOf(enc: string, c: char): (d: Option<nat>)
    ensures d.Some? ==> d.value < |enc| && enc[d.value] == c
    ensures d.Some? ==> forall k :: 0 <= k < d.value ==> enc[k] != c
    ensures d.None? <==> c !in enc
  {
    if enc == [] then None
    else if enc[0] == c then Some(0)
    else
      match IndexOf(enc[1..], c)
      case None => None
      case Some(d) => Some(d + 1)
  }

  /**
   Reads a token back into the number it denotes: each character becomes its index in the
   alphabet, accumulated most significant first. `None` when a character is not in the alphabet.
   */
  function Decode(enc: string, token: string): Option<nat>
  {
    if token == [] then Some(0)
    else
      match (Decode(enc, token[..|token| - 1]), IndexOf(enc, token[|token| - 1]))
      case (Some(v), Some(d)) => Some(v * |enc| + d)
      case _ => None
  }

  /** With distinct characters, decoding a spelled digit sequence recovers its value. */
  lemma {:induction false} DecodeSpell(enc: string, ds: seq<nat>)
    requires Distinct(enc) && AllBelow(ds, |enc|)
    ensures Decode(enc, Spell(enc, ds)) == Some(BigEndian(ds, |enc|))
  {
    if ds != [] {
      var init := ds[..|ds| - 1];
      var token := Spell(enc, ds);
      assert token[..|token| - 1] == Spell(enc, init);
      DecodeSpell(enc, init);
      var d := ds[|ds| - 1];
      assert token[|token| - 1] == enc[d];
      assert IndexOf(enc, enc[d]) == Some(d);
    }
  }

  /** Two lowercase hexadecimal characters for one byte, high nibble first. */
  function HexByte(x: Byte): (h: string)
    ensures h == Spell(BASE16, FixedWidth(x, 16, 2))
  {
    assert FixedWidth(x, 16, 2) == [x / 16, x % 16] by {
      DivModUnique(0, 16, x / 16);
    }
    [BASE16[x / 16], BASE16[x % 16]]
  }

  /** The lowercase hexadecimal rendering of a byte buffer, first byte first. */
  function Hex(bytes: seq<Byte>): (s: string)
    ensures |s| == 2 * |bytes|
    ensures forall k :: 0 <= k < |s| ==> s[k] in BASE16
  {
    if bytes == [] then "" else Hex(bytes[..|bytes| - 1]) + HexByte(bytes[|bytes| - 1])
  }

  /** Appending a byte to a number appends its two base-16 digits to the expansion. */
  lemma FixedWidthByteStep(v: nat, x: Byte, w: nat)
    ensures FixedWidth(v * 256 + x, 16, w + 2) == FixedWidth(v, 16, w) + [x / 16, x % 16]
  {
    var n, hi := v * 256 + x, v * 16 + x / 16;
    assert n == hi * 16 + x % 16;
    DivModUnique(hi, 16, x % 16);
    DivModUnique(v, 16, x / 16);
    assert FixedWidth(hi, 16, w + 1) == FixedWidth(v, 16, w) + [x / 16];
    assert FixedWidth(n, 16, w + 2) == FixedWidth(hi, 16, w + 1) + [x % 16];
  }

  /**
   Hex-encoding a buffer spells, in the 16-character preset, the `2n`-digit base-16 expansion
   of the buffer's big-endian value.
   */
  lemma {:induction false} HexIsFixedWidth(bytes: seq<Byte>)
    ensures Hex(bytes) == Spell(BASE16, FixedWidth(BigEndian(bytes, 256), 16, 2 * |bytes|))
  {
    if bytes != [] {
      var init, x := bytes[..|bytes| - 1], bytes[|bytes| - 1];
      var v, w := BigEndian(init, 256), 2 * |init|;
      var high, low := FixedWidth(v, 16, w), [x / 16, x % 16];
      assert FixedWidth(BigEndian(bytes, 256), 16, 2 * |bytes|) == high + low by {
        assert BigEndian(bytes, 256) == v * 256 + x;
        assert 2 * |bytes| == w + 2;
        FixedWidthByteStep(v, x, w);
      }
      assert Spell(BASE16, low) == HexByte(x);
      assert Hex(bytes) == Hex(init) + HexByte(x);
      HexIsFixedWidth(init);
      SpellAppend(BASE16, high, low);
    }
  }
}
