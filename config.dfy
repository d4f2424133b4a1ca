/**
 The token generator's constructor: how it shuffles and defaults its two arguments, how it
 validates them, and the parameters it derives (`base`, `tokenLength`, the byte count).
 JavaScript's dynamically typed arguments are modelled by the `Arg` datatype.
 */
module Config {
  import opened Wrappers
  import opened Numeral
  import opened Alphabet

  /**
   A constructor argument as JavaScript sees it. `Num` holds an integral number; `NonFinite` is
   `Infinity` or `-Infinity`; `Obj` is an object whose numeric value is NaN (a plain object,
   a regular expression, a function).
   */
  datatype Arg = Undefined | Null | Bool(b: bool) | Num(n: int) | NonFinite | Str(s: string) | Obj

  datatype ConfigError = InvalidBitSize | InvalidEncoding

  /** The token width: a digit count, or JavaScript's `Infinity` for a one-character alphabet. */
  datatype TokenWidth = Digits(n: nat) | Unbounded

  /** The fields the constructor assigns. */
  datatype Params = Params(bitSize: nat, baseEncoding: string, base: nat, tokenLength: TokenWidth, bytes: nat)

  /** JavaScript truthiness, as `||` uses it to pick a default. */
  predicate Truthy(a: Arg): (t: bool)
    ensures !t <==> a == Undefined || a == Null || a == Bool(false) || a == Num(0) || a == Str("")
  {
    match a
    case Undefined => false
    case Null => false
    case Bool(b) => b
    case Num(n) => n != 0
    case NonFinite => true
    case Str(s) => s != ""
    case Obj => true
  }

  /**
   JavaScript's numeric coercion of a bit size, `None` where it gives NaN or an infinity. A string
   never reaches the bit-size test, because the constructor first moves it to the alphabet.
   */
  function ToNumber(a: Arg): (n: Option<int>)
    requires !a.Str?
    ensures a.Num? ==> n == Some(a.n)
    ensures a.Null? ==> n == Some(0)
    ensures a.Bool? ==> n == Some(if a.b then 1 else 0)
    ensures n.Some? ==> (n.value == 0 <==> !Truthy(a))
    ensures a.Undefined? || a.Obj? || a.NonFinite? ==> n.None?
  {
    match a
    case Undefined => None
    case Null => Some(0)
    case Bool(b) => Some(if b then 1 else 0)
    case Num(n) => Some(n)
    case NonFinite => None
    case Obj => None
  }

  /**
   The arguments after shuffling and defaulting: a string first argument is the alphabet (the
   second is then ignored), a falsy bit size becomes 128 and a falsy alphabet the 58-character
   preset.
   */
  function Defaulted(bitSizeArg: Arg, encodingArg: Arg): (r: (Arg, Arg))
    ensures Truthy(r.0) && !r.0.Str? && Truthy(r.1)
    ensures bitSizeArg.Str? ==> r.0 == Num(128)
    ensures bitSizeArg.Str? && Truthy(bitSizeArg) ==> r.1 == bitSizeArg
    ensures bitSizeArg.Str? && !Truthy(bitSizeArg) ==> r.1 == Str(BASE58)
    ensures !bitSizeArg.Str? && Truthy(bitSizeArg) ==> r.0 == bitSizeArg
    ensures !bitSizeArg.Str? && !Truthy(bitSizeArg) ==> r.0 == Num(128)
    ensures !bitSizeArg.Str? && Truthy(encodingArg) ==> r.1 == encodingArg
    ensures !bitSizeArg.Str? && !Truthy(encodingArg) ==> r.1 == Str(BASE58)
  {
    var (bitSize, encoding) := if bitSizeArg.Str? then (Null, bitSizeArg) else (bitSizeArg, encodingArg);
    (if Truthy(bitSize) then bitSize else Num(128),
     if Truthy(encoding) then encoding else Str(BASE58))
  }

  /** The constructor's bit-size test: `bitSize % 128 !== 0 || bitSize < 0`, with NaN failing it. */
  predicate BitSizeRejected(a: Arg): (rejected: bool)
    requires !a.Str?
    ensures Truthy(a) ==> (rejected <==> !ValidBitSize(a))
  {
    match ToNumber(a)
    case None => true
    case Some(n) => n % 128 != 0 || n < 0
  }

  /** A positive multiple of 128, the only bit sizes a generator is built with. */
  predicate ValidBitSize(a: Arg)
  {
    a.Num? && a.n > 0 && a.n % 128 == 0
  }

  // ---------------------------------------------------------------------------
  // Token length

  /**
   The least number of digits in radix `base` that can hold every `bitSize`-bit number:
   the integer meaning of `ceil(bitSize / log2(base))`.
   */
  function TokenLength(bitSize: nat, base: nat): (n: nat)
    requires base >= 2
    ensures Pow(2, bitSize) <= Pow(base, n)
  {
    PowPositive(2, bitSize);
    NumDigits(Pow(2, bitSize) - 1, base)
  }

  /** No fewer digits hold every `bitSize`-bit number: the token length is the least such width. */
  lemma TokenLengthLeast(bitSize: nat, base: nat, m: nat)
    requires base >= 2 && Pow(2, bitSize) <= Pow(base, m)
    ensures TokenLength(bitSize, base) <= m
  {
    PowPositive(2, bitSize);
    var v: nat := Pow(2, bitSize) - 1;
    assert TokenLength(bitSize, base) == NumDigits(v, base);
    EnoughDigits(v, base, m);
  }

  /** Any width that holds `v` is at least `NumDigits(v, b)`. */
  lemma EnoughDigits(v: nat, b: nat, m: nat)
    requires b >= 2 && v < Pow(b, m)
    ensures NumDigits(v, b) <= m
  {
    var n := NumDigits(v, b);
    if m + 1 < n {
      PowStrictlyIncreasing(b, m, n - 1);
    }
  }

  /** Any width that holds every `bitSize`-bit number while one digit fewer does not is the token length. */
  lemma TokenLengthUnique(bitSize: nat, base: nat, n: nat)
    requires base >= 2
    requires Pow(2, bitSize) <= Pow(base, n)
    requires n == 0 || Pow(base, n - 1) < Pow(2, bitSize)
    ensures TokenLength(bitSize, base) == n
  {
    var t := TokenLength(bitSize, base);
    TokenLengthLeast(bitSize, base, n);
    if t < n {
      if t < n - 1 {
        PowStrictlyIncreasing(base, t, n - 1);
      }
    }
  }

  /** `tokenLength` as the constructor computes it; `log2(1) == 0` makes it infinite for base 1. */
  function WidthFor(bitSize: nat, base: nat): (w: TokenWidth)
    requires base >= 1
    ensures w.Unbounded? <==> base == 1
    ensures w.Digits? ==> Pow(2, bitSize) <= Pow(base, w.n)
  {
    if base == 1 then Unbounded else Digits(TokenLength(bitSize, base))
  }

  /** What holds of every generator the constructor returns. */
  predicate WellFormed(p: Params)
  {
    && p.bitSize > 0 && p.bitSize % 128 == 0
    && p.base == |p.baseEncoding| && p.base >= 1
    && p.bytes * 8 == p.bitSize
    && p.tokenLength == WidthFor(p.bitSize, p.base)
  }

  // ---------------------------------------------------------------------------
  // The constructor

  /**
   The constructor's outcome: the assigned fields, or the error it throws. The bit size is
   checked first, so a call with both arguments wrong reports the bit size.
   */
  function Configure(bitSizeArg: Arg, encodingArg: Arg): (r: Result<Params, ConfigError>)
    ensures r == Err(InvalidBitSize) <==> !ValidBitSize(Defaulted(bitSizeArg, encodingArg).0)
    ensures r == Err(InvalidEncoding) <==>
      ValidBitSize(Defaulted(bitSizeArg, encodingArg).0) && !Defaulted(bitSizeArg, encodingArg).1.Str?
    ensures r.Ok? ==> WellFormed(r.value)
    ensures r.Ok? ==> r.value.bitSize == Defaulted(bitSizeArg, encodingArg).0.n
    ensures r.Ok? ==> r.value.baseEncoding == Defaulted(bitSizeArg, encodingArg).1.s
  {
    var (bitSize, encoding) := Defaulted(bitSizeArg, encodingArg);
    if BitSizeRejected(bitSize) then Err(InvalidBitSize)
    else if !encoding.Str? then Err(InvalidEncoding)
    else
      var n: nat := ToNumber(bitSize).value;
      var base := |encoding.s|;
      WholeBytes(n);
      Ok(Params(n, encoding.s, base, WidthFor(n, base), n / 8))
  }

  /** A multiple of 128 bits is a whole number of bytes. */
  lemma WholeBytes(n: nat)
    requires n % 128 == 0
    ensures (n / 8) * 8 == n
  {
    var k := n / 128;
    assert n == 128 * k;
    DivModUnique(16 * k, 8, 0);
  }

  /** Entropy is drawn in 16-byte blocks; a generator's byte count is a positive number of whole blocks. */
  lemma WholeBlocks(p: Params)
    requires WellFormed(p)
    ensures p.bytes > 0 && p.bytes % 16 == 0
  {
    var k := p.bitSize / 128;
    DivMod(p.bitSize, 128);
    assert p.bytes == k * 16;
    DivModUnique(k, 16, 0);
  }

  /** A positive multiple of 128 and a non-empty alphabet give the generator built from them. */
  lemma Accepted(bitSize: nat, enc: string)
    requires bitSize > 0 && bitSize % 128 == 0 && enc != ""
    ensures Configure(Num(bitSize), Str(enc)) == Ok(Params(bitSize, enc, |enc|, WidthFor(bitSize, |enc|), bitSize / 8))
  {
  }

  /**
   The constructor accepts a one-character alphabet and gives it an unbounded width, although
   no token can be generated from it.
   */
  lemma OneCharacterAlphabet(bitSize: nat, c: char)
    requires bitSize > 0 && bitSize % 128 == 0
    ensures Configure(Num(bitSize), Str([c])) == Ok(Params(bitSize, [c], 1, Unbounded, bitSize / 8))
  {
    Accepted(bitSize, [c]);
  }

  /** A string first argument is the alphabet and the second argument is ignored. */
  lemma AlphabetOnly(s: string, ignored: Arg)
    ensures Configure(Str(s), ignored) == Configure(Undefined, Str(s))
  {
  }

  /** A falsy bit size, 0 included, means 128. */
  lemma FalsyBitSizeIs128(bitSizeArg: Arg, encodingArg: Arg)
    requires !bitSizeArg.Str? && !Truthy(bitSizeArg)
    ensures Configure(bitSizeArg, encodingArg) == Configure(Num(128), encodingArg)
  {
  }

  /** A falsy alphabet, the empty string included, means the 58-character preset. */
  lemma FalsyAlphabetIsBase58(bitSizeArg: Arg, encodingArg: Arg)
    requires !Truthy(encodingArg)
    ensures Configure(bitSizeArg, encodingArg) == Configure(bitSizeArg, Str(BASE58))
  {
  }

  // ---------------------------------------------------------------------------
  // The constructor calls the test suite makes

  lemma PowersOfTwo()
    ensures Pow(2, 128) == 340282366920938463463374607431768211456
    ensures Pow(2, 256) == 340282366920938463463374607431768211456 * 340282366920938463463374607431768211456
  {
    assert Pow(2, 1) == 2;
    PowAdd(2, 1, 1);
    PowAdd(2, 2, 2);
    PowAdd(2, 4, 4);
    assert Pow(2, 8) == 256;
    PowAdd(2, 8, 8);
    PowAdd(2, 16, 16);
    assert Pow(2, 32) == 4294967296;
    PowAdd(2, 32, 32);
    PowAdd(2, 64, 64);
    PowAdd(2, 128, 128);
  }

  lemma PowersOf58()
    ensures Pow(58, 21) == 10764351351569111513009094806216900608
    ensures Pow(58, 22) == 58 * 10764351351569111513009094806216900608
  {
    assert Pow(58, 1) == 58;
    PowAdd(58, 1, 1);
    PowAdd(58, 2, 2);
    assert Pow(58, 4) == 11316496;
    PowAdd(58, 4, 4);
    PowAdd(58, 8, 8);
    assert Pow(58, 16) == 16400152899115243850138976256;
    PowAdd(58, 16, 4);
    PowAdd(58, 20, 1);
    PowAdd(58, 21, 1);
  }

  lemma PowersOf62()
    ensures Pow(62, 42) == 1907440321293807005218825134272276737461586370979700379485518568438569631744
    ensures Pow(62, 43) == 62 * 1907440321293807005218825134272276737461586370979700379485518568438569631744
  {
    assert Pow(62, 1) == 62;
    PowAdd(62, 1, 1);
    PowAdd(62, 2, 2);
    assert Pow(62, 4) == 14776336;
    PowAdd(62, 4, 4);
    PowAdd(62, 8, 8);
    assert Pow(62, 16) == 47672401706823533450263330816;
    PowAdd(62, 16, 16);
    PowAdd(62, 32, 8);
    PowAdd(62, 40, 2);
    PowAdd(62, 42, 1);
  }

  lemma TokenLength128Base58()
    ensures TokenLength(128, 58) == 22
  {
    PowersOfTwo();
    PowersOf58();
    TokenLengthUnique(128, 58, 22);
  }

  lemma TokenLength256Base62()
    ensures TokenLength(256, 62) == 43
  {
    PowersOfTwo();
    PowersOf62();
    TokenLengthUnique(256, 62, 43);
  }

  /** In the two-character alphabet every bit is one character. */
  lemma BinaryTokenLength(bitSize: nat)
    ensures TokenLength(bitSize, 2) == bitSize
  {
    if bitSize > 0 {
      PowStrictlyIncreasing(2, bitSize - 1, bitSize);
    }
    TokenLengthUnique(bitSize, 2, bitSize);
  }

  /**
   With no arguments, or any falsy ones: 128 bits in the 58-character preset, 22 characters
   from 16 bytes.
   */
  lemma DefaultConfiguration(bitSizeArg: Arg, encodingArg: Arg)
    requires !Truthy(bitSizeArg) && !Truthy(encodingArg)
    ensures Configure(bitSizeArg, encodingArg) == Ok(Params(128, BASE58, 58, Digits(22), 16))
  {
    var r := Configure(bitSizeArg, encodingArg);
    assert r.Ok? && r.value.bitSize == 128 && r.value.baseEncoding == BASE58 && r.value.base == 58;
    assert r.value.tokenLength == WidthFor(128, 58);
    TokenLength128Base58();
    assert r.value.bytes == 16;
  }

  lemma BitSizeOnly()
    ensures Configure(Num(256), Undefined).Ok?
    ensures Configure(Num(256), Undefined).value.bitSize == 256
    ensures Configure(Num(256), Undefined).value.baseEncoding == BASE58
  {
  }

  /** The two-character alphabet gives one character per bit, 512 for 512 bits. */
  lemma BinaryAlphabet(bitSize: nat)
    requires bitSize > 0 && bitSize % 128 == 0
    ensures Configure(Num(bitSize), Str("01")) == Ok(Params(bitSize, "01", 2, Digits(bitSize), bitSize / 8))
  {
    Accepted(bitSize, "01");
    assert |"01"| == 2;
    BinaryTokenLength(bitSize);
  }

  /** Any non-empty string given alone is the alphabet of a 128-bit generator. */
  lemma CustomAlphabet(s: string, ignored: Arg)
    requires s != ""
    ensures Configure(Str(s), ignored) == Ok(Params(128, s, |s|, WidthFor(128, |s|), 16))
  {
  }

  /** Negative, fractional-width, infinite and boolean bit sizes are refused. */
  lemma RejectedBitSizes()
    ensures Configure(Num(-128), Undefined) == Err(InvalidBitSize)
    ensures Configure(Num(127), Undefined) == Err(InvalidBitSize)
    ensures Configure(NonFinite, Undefined) == Err(InvalidBitSize)
    ensures Configure(Bool(true), Undefined) == Err(InvalidBitSize)
  {
  }

  /** An alphabet that is not a string is refused. */
  lemma RejectedAlphabets()
    ensures Configure(Num(128), Bool(true)) == Err(InvalidEncoding)
    ensures Configure(Num(128), Num(256)) == Err(InvalidEncoding)
    ensures Configure(Num(128), Obj) == Err(InvalidEncoding)
  {
  }
}
