/**
 The token generator: a class holding the parameters the constructor derives, and `Generate`,
 which turns an entropy buffer into a fixed-width token. The buffer, which the source fills
 from a random UUID generator 16 bytes at a time, is a parameter here.
 */
module Generator {
  import opened Wrappers
  import opened Numeral
  import opened Alphabet
  import opened Config

  /**
   The token for a buffer: the `width`-digit radix-`|enc|` expansion of the buffer's big-endian
   value, spelled in the alphabet.
   */
  function Encode(enc: string, width: nat, buffer: seq<Byte>): (token: string)
    requires |enc| >= 2
    ensures |token| == width
    ensures forall k :: 0 <= k < width ==> token[k] in enc
  {
    Spell(enc, FixedWidth(BigEndian(buffer, 256), |enc|, width))
  }

  class TokenGenerator {
    const bitSize: nat
    const baseEncoding: string
    const base: nat
    const tokenLength: TokenWidth
    /** The entropy size in bytes. */
    const bytes: nat

    function Fields(): Params
    {
      Params(bitSize, baseEncoding, base, tokenLength, bytes)
    }

    ghost predicate Valid()
    {
      WellFormed(Fields())
    }

    constructor (p: Params)
      requires WellFormed(p)
      ensures Valid() && Fields() == p
    {
      bitSize := p.bitSize;
      baseEncoding := p.baseEncoding;
      base := p.base;
      tokenLength := p.tokenLength;
      bytes := p.bytes;
    }

    /** `new TokenGenerator(bitSize, baseEncoding)`: a generator, or the error the constructor throws. */
    static method Create(bitSizeArg: Arg, encodingArg: Arg) returns (r: Result<TokenGenerator, ConfigError>)
      ensures r.Err? <==> Configure(bitSizeArg, encodingArg).Err?
      ensures r.Err? ==> r.error == Configure(bitSizeArg, encodingArg).error
      ensures r.Ok? ==> fresh(r.value) && r.value.Valid()
      ensures r.Ok? ==> r.value.Fields() == Configure(bitSizeArg, encodingArg).value
    {
      match Configure(bitSizeArg, encodingArg)
      case Err(e) =>
        r := Err(e);
      case Ok(p) =>
        var g := new TokenGenerator(p);
        r := Ok(g);
    }

    /**
     The conversion loop of `generate()`: reads the buffer as a big-endian number and builds its
     little-endian digit array in radix `base`, starting from `[0]` and taking one byte at a time.
     */
    method ConvertBytes(buffer: seq<Byte>) returns (digits: seq<nat>)
      requires base >= 2
      ensures AllBelow(digits, base) && Canonical(digits)
      ensures LittleEndian(digits, base) == BigEndian(buffer, 256)
    {
      digits := [0];
      var i := 0;
      while i < |buffer|
        invariant 0 <= i <= |buffer|
        invariant AllBelow(digits, base) && Canonical(digits)
        invariant LittleEndian(digits, base) == BigEndian(buffer[..i], 256)
      {
        digits := AddByte(digits, buffer[i]);
        assert buffer[..i + 1] == buffer[..i] + [buffer[i]];
        i := i + 1;
      }
      assert buffer[..|buffer|] == buffer;
    }

    /**
     One pass of the conversion loop: multiplies the digit array by 256 and adds the byte `x`,
     carrying through the existing digits and then pushing the remaining carry as new digits.
     */
    method AddByte(digits: seq<nat>, x: Byte) returns (next: seq<nat>)
      requires base >= 2 && AllBelow(digits, base) && Canonical(digits)
      ensures AllBelow(next, base) && Canonical(next)
      ensures LittleEndian(next, base) == LittleEndian(digits, base) * 256 + x
    {
      var carry;
      next, carry := CarryThrough(digits, x);
      if carry == 0 && |next| >= 2 {
        CanonicalLowerBound(digits, base);
        TopDigitNonZero(next, base);
      }
      next := PushCarry(next, carry);
    }

    /**
     The inner loop of one pass: each digit times 256 plus the incoming carry is replaced by its
     remainder modulo `base`, and the quotient is carried to the next digit. The digits already
     rewritten are `next`; those still to visit are `digits[j..]`.
     */
    method CarryThrough(digits: seq<nat>, x: Byte) returns (next: seq<nat>, carry: nat)
      requires base >= 2 && AllBelow(digits, base)
      ensures |next| == |digits| && AllBelow(next, base) && carry < 256
      ensures LittleEndian(next, base) + carry * Pow(base, |next|) == LittleEndian(digits, base) * 256 + x
    {
      carry := x;
      next := [];
      var j := 0;
      assert digits[..0] == [];
      while j < |digits|
        invariant 0 <= j <= |digits|
        invariant Carried(next, digits, j, carry, x, base)
      {
        CarryStep(next, digits, j, carry, x, base);
        next := next + [(carry + digits[j] * 256) % base];
        carry := (carry + digits[j] * 256) / base;
        j := j + 1;
      }
      assert digits[..|digits|] == digits;
    }

    /**
     The loop that ends one pass of the conversion: while a carry remains, pushes its lowest
     radix-`base` digit as a new most significant digit.
     */
    method PushCarry(digits: seq<nat>, carry: nat) returns (next: seq<nat>)
      requires base >= 2 && AllBelow(digits, base) && |digits| >= 1
      requires carry == 0 ==> Canonical(digits)
      ensures AllBelow(next, base) && Canonical(next)
      ensures |digits| <= |next| && next[..|digits|] == digits
      ensures LittleEndian(next, base) == LittleEndian(digits, base) + carry * Pow(base, |digits|)
    {
      ghost var target := LittleEndian(digits, base) + carry * Pow(base, |digits|);
      next := digits;
      var c: nat := carry;
      while c > 0
        invariant AllBelow(next, base) && |digits| <= |next| && next[..|digits|] == digits
        invariant LittleEndian(next, base) + c * Pow(base, |next|) == target
        invariant c == 0 ==> Canonical(next)
        decreases c
      {
        PushStep(next, c, target, base);
        var d: nat, q: nat := c % base, c / base;
        assert AllBelow(next + [d], base);
        assert (next + [d])[..|digits|] == next[..|digits|];
        next := next + [d];
        c := q;
      }
    }

    /**
     The formatter of `generate()`: pads with the alphabet's first character up to `width`
     characters, then spells the digits from the most significant down.
     */
    method Render(digits: seq<nat>, width: nat) returns (token: string)
      requires base == |baseEncoding| && base >= 2
      requires AllBelow(digits, base) && |digits| <= width
      ensures token == Spell(baseEncoding, FixedWidth(LittleEndian(digits, base), base, width))
    {
      ghost var pad := Zeros(width - |digits|);
      token := if |digits| < width then seq(width - |digits|, _ => baseEncoding[0]) else "";
      assert token == Spell(baseEncoding, pad);
      var i := |digits|;
      while i > 0
        invariant 0 <= i <= |digits|
        invariant token == Spell(baseEncoding, pad) + Spell(baseEncoding, Reverse(digits[i..]))
      {
        i := i - 1;
        assert digits[i..][1..] == digits[i + 1..];
        SpellAppend(baseEncoding, Reverse(digits[i + 1..]), [digits[i]]);
        token := token + [baseEncoding[digits[i]]];
      }
      assert digits[0..] == digits;
      SpellAppend(baseEncoding, pad, Reverse(digits));
      FixedWidthOfLittleEndian(digits, base, width);
    }

    /**
     `generate()` on a given entropy buffer: the token of exactly `tokenLength` alphabet
     characters that spells the buffer's value, most significant digit first and padded with
     the alphabet's first character; the 16-character preset hex-encodes the buffer directly.
     */
    method Generate(buffer: seq<Byte>) returns (token: string)
      requires Valid() && base >= 2 && |buffer| == bytes
      ensures tokenLength.Digits? && |token| == tokenLength.n
      ensures forall k :: 0 <= k < |token| ==> token[k] in baseEncoding
      ensures token == Encode(baseEncoding, tokenLength.n, buffer)
    {
      if baseEncoding == BASE16 {
        HexShortcut(buffer);
        return Hex(buffer);
      }
      var digits := ConvertBytes(buffer);
      BufferBound(buffer);
      FitsInTokenLength(digits, base, bitSize);
      token := Render(digits, tokenLength.n);
    }
  }

  /** A carry below 256 plus a digit times 256 leaves, after division by the radix, a carry below 256. */
  lemma CarryBelow256(carry: nat, d: nat, b: nat)
    requires b >= 1 && carry < 256 && d < b
    ensures (carry + d * 256) / b < 256
  {
    MulLeft(256, d + 1, b);
    QuotientBelow(carry + d * 256, b, 256);
  }

  /**
   The invariant of the inner carry loop after `j` digits: `low` holds the `j` rewritten digits,
   the carry is below 256, and `low` plus the carry scaled past it denotes the first `j` digits of
   the previous pass times 256 plus the byte.
   */
  ghost predicate Carried(low: seq<nat>, digits: seq<nat>, j: nat, carry: nat, x: nat, b: nat)
  {
    && j <= |digits| && |low| == j && carry < 256 && AllBelow(low, b)
    && LittleEndian(low, b) + carry * Pow(b, j) == LittleEndian(digits[..j], b) * 256 + x
  }

  /**
   One step of the inner carry loop: digit `j` times 256 plus the incoming carry becomes a digit
   below `b` and an outgoing carry below 256, and the represented value is kept.
   */
  lemma CarryStep(low: seq<nat>, digits: seq<nat>, j: nat, carry: nat, x: nat, b: nat)
    requires b >= 2 && j < |digits| && AllBelow(digits, b) && Carried(low, digits, j, carry, x, b)
    ensures 0 <= (carry + digits[j] * 256) / b
    ensures Carried(low + [(carry + digits[j] * 256) % b], digits, j + 1, (carry + digits[j] * 256) / b, x, b)
  {
    var pj, prevLow := digits[j], digits[..j];
    assert digits[..j + 1] == prevLow + [pj];
    var t := carry + pj * 256;
    var d, q := t % b, t / b;
    var p, wider := Pow(b, j), Pow(b, j + 1);
    var lowV, prevV := LittleEndian(low, b), LittleEndian(prevLow, b);
    var next, prev := LittleEndian(low + [d], b), LittleEndian(prevLow + [pj], b);
    assert next == lowV + d * p by { LittleEndianAppend(low, d, b); }
    assert prev == prevV + pj * p by { LittleEndianAppend(prevLow, pj, b); }
    assert wider == b * p by { PowSucc(b, j); }
    CarryArith(lowV, prevV, carry, pj, x, b, p, next, prev, wider);
    CarryBelow256(carry, pj, b);
    QuotientBelow(t, b, 0);
    assert AllBelow(low + [d], b);
  }

  /** The arithmetic of one carry step, on plain numbers. */
  lemma CarryArith(lowV: nat, prevV: nat, carry: nat, pj: nat, x: nat, b: nat, p: nat, next: nat, prev: nat, wider: nat)
    requires b >= 1 && lowV + carry * p == prevV * 256 + x
    requires next == lowV + ((carry + pj * 256) % b) * p && prev == prevV + pj * p && wider == b * p
    ensures next + ((carry + pj * 256) / b) * wider == prev * 256 + x
  {
    ScaleSplit(carry + pj * 256, b, p);
    assert (carry + pj * 256) * p == carry * p + (pj * p) * 256;
  }

  /** One step of the loop that pushes the remaining carry as new top digits. */
  lemma PushStep(ds: seq<nat>, carry: nat, target: nat, b: nat)
    requires b >= 2 && carry > 0
    requires LittleEndian(ds, b) + carry * Pow(b, |ds|) == target
    ensures LittleEndian(ds + [carry % b], b) + (carry / b) * Pow(b, |ds| + 1) == target
    ensures 0 <= carry / b < carry
    ensures carry / b == 0 ==> carry % b != 0
  {
    LittleEndianAppend(ds, carry % b, b);
    PowSucc(b, |ds|);
    PushArith(LittleEndian(ds, b), carry, b, Pow(b, |ds|), target,
      LittleEndian(ds + [carry % b], b), Pow(b, |ds| + 1));
    QuotientShrinks(carry, b);
  }

  /** The arithmetic of one push step, on plain numbers. */
  lemma PushArith(lowV: nat, carry: nat, b: nat, p: nat, target: nat, next: nat, wider: nat)
    requires b >= 1 && lowV + carry * p == target
    requires next == lowV + (carry % b) * p && wider == b * p
    ensures next + (carry / b) * wider == target
  {
    ScaleSplit(carry, b, p);
  }

  /**
   JavaScript's conversion of an integer to a signed 32-bit integer, as `<<` and `|` apply it:
   the value in [-2^31, 2^31) that agrees with `v` modulo 2^32.
   */
  function ToInt32(v: int): (r: int)
    ensures -0x8000_0000 <= r < 0x8000_0000
    ensures (v - r) % 0x1_0000_0000 == 0
  {
    var m := v % 0x1_0000_0000;
    if m >= 0x8000_0000 then m - 0x1_0000_0000 else m
  }

  lemma Int32Identity(v: int)
    requires 0 <= v < 0x8000_0000
    ensures ToInt32(v) == v
  {
    DivModUnique(0, 0x1_0000_0000, v);
  }

  /**
   For alphabets of at most 2^23 characters the carry loop's 32-bit operations are exact:
   `digit << 8` is `digit * 256`, the running carry stays below 2^31, and `(carry / base) | 0`
   is the integer quotient. The source divides in floating point before `| 0` truncates; the
   floating-point quotient is taken as exact here. It is, under these bounds: a quotient below
   256 of integers below 2^31 is never rounded up to the next integer.
   */
  lemma CarryFitsInt32(carry: nat, d: nat, b: nat)
    requires 2 <= b <= 0x80_0000 && carry < 256 && d < b
    ensures ToInt32(d * 256) == d * 256
    ensures carry + d * 256 < 0x8000_0000
    ensures ToInt32((carry + d * 256) / b) == (carry + d * 256) / b
  {
    MulLeft(256, d, 0x7F_FFFF);
    Int32Identity(d * 256);
    CarryBelow256(carry, d, b);
    QuotientBelow(carry + d * 256, b, 0);
    Int32Identity((carry + d * 256) / b);
  }

  /** An `n`-byte buffer denotes a number below `2^(8n)`. */
  lemma BufferBound(buffer: seq<Byte>)
    ensures BigEndian(buffer, 256) < Pow(2, 8 * |buffer|)
  {
    BigEndianBound(buffer, 256);
    PowMul(2, 8, |buffer|);
    assert Pow(2, 8) == 256;
  }

  /** A canonical digit array of a number below `2^bitSize` fits in the token length. */
  lemma FitsInTokenLength(ds: seq<nat>, b: nat, bitSize: nat)
    requires b >= 2 && bitSize > 0 && Canonical(ds) && LittleEndian(ds, b) < Pow(2, bitSize)
    ensures |ds| <= TokenLength(bitSize, b)
  {
    var w := TokenLength(bitSize, b);
    if |ds| >= 2 {
      CanonicalLowerBound(ds, b);
      if w < |ds| - 1 {
        PowStrictlyIncreasing(b, w, |ds| - 1);
      }
    } else {
      PowStrictlyIncreasing(2, 0, bitSize);
    }
  }

  /** In the 16-character preset every four bits are one character. */
  lemma HexTokenLength(k: nat)
    ensures TokenLength(4 * k, 16) == k
  {
    assert Pow(2, 4) == 16;
    PowMul(2, 4, k);
    if k > 0 {
      PowMul(2, 4, k - 1);
      PowStrictlyIncreasing(2, 4 * (k - 1), 4 * k);
    }
    TokenLengthUnique(4 * k, 16, k);
  }

  /**
   The 16-character shortcut agrees with the general path: hex-encoding the buffer gives the
   token of `2n` characters that the carry loop and formatter would produce.
   */
  lemma HexShortcut(buffer: seq<Byte>)
    ensures TokenLength(8 * |buffer|, 16) == 2 * |buffer|
    ensures Hex(buffer) == Encode(BASE16, TokenLength(8 * |buffer|, 16), buffer)
  {
    var n := |buffer|;
    HexTokenLength(2 * n);
    assert 4 * (2 * n) == 8 * n;
    HexIsFixedWidth(buffer);
  }

  /**
   With distinct alphabet characters a token decodes back to the buffer's value, and that value
   written as `n` big-endian bytes is the buffer itself.
   */
  lemma RoundTrip(enc: string, buffer: seq<Byte>)
    requires |enc| >= 2 && Distinct(enc)
    ensures Decode(enc, Encode(enc, TokenLength(8 * |buffer|, |enc|), buffer)) == Some(BigEndian(buffer, 256))
    ensures FixedWidth(BigEndian(buffer, 256), 256, |buffer|) == buffer
  {
    var v, w := BigEndian(buffer, 256), TokenLength(8 * |buffer|, |enc|);
    BufferBound(buffer);
    FixedWidthValue(v, |enc|, w);
    DecodeSpell(enc, FixedWidth(v, |enc|, w));
    FixedWidthOfBigEndian(buffer, 256);
  }

  /** An all-zero buffer gives the alphabet's first character `width` times. */
  lemma ZeroBuffer(enc: string, width: nat, n: nat)
    requires |enc| >= 2
    ensures Encode(enc, width, seq(n, _ => 0)) == seq(width, _ => enc[0])
  {
    BigEndianOfZeros(n, 256);
    assert seq(n, _ => 0) == Zeros(n);
    FixedWidthOfZero(|enc|, width);
  }

  /** Leading zero bytes change no character of the token. */
  lemma LeadingZeroByte(enc: string, width: nat, buffer: seq<Byte>)
    requires |enc| >= 2
    ensures Encode(enc, width, [0] + buffer) == Encode(enc, width, buffer)
  {
    BigEndianLeadingZero(buffer, 256);
  }

  /**
   Padding only adds the alphabet's first character on the most significant side and leaves
   every computed digit in place.
   */
  lemma PaddingOnTheLeft(enc: string, width: nat, extra: nat, buffer: seq<Byte>)
    requires |enc| >= 2 && BigEndian(buffer, 256) < Pow(|enc|, width)
    ensures Encode(enc, width + extra, buffer) == seq(extra, _ => enc[0]) + Encode(enc, width, buffer)
  {
    var v := BigEndian(buffer, 256);
    FixedWidthPad(v, |enc|, width, extra);
    SpellAppend(enc, Zeros(extra), FixedWidth(v, |enc|, width));
  }
}
