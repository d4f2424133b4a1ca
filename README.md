# uuid-token-generator in Dafny

A model of `TokenGenerator`, the single class of the uuid-token-generator package. A generator is
built from a bit size (a positive multiple of 128, default 128) and an alphabet (any string, default
the 58-character Bitcoin-style alphabet). Each call to `generate()` fills a buffer of `bitSize / 8`
bytes with version-4 UUIDs, 16 bytes at a time (so 122 of every 128 bits are random), reads them as one big-endian number and writes that number in radix `|alphabet|`, most significant
digit first. The token is padded on the left with the alphabet's first character to exactly
`tokenLength` characters, the fewest that can hold every `bitSize`-bit number. The 16-character
preset instead hex-encodes the buffer directly.

The model has five modules:

- `Wrappers`: `Option` and `Result`.
- `Numeral`: the arithmetic of positional numerals.
  - Big-endian and little-endian digit sequences, and fixed-width expansions (`FixedWidth`).
  - The digit count of a number (`NumDigits`), and the canonical form of a digit array (no
    leading zero digit except the lone `0`).
  - Lemmas about powers, division and these sequences.
- `Alphabet`: the six preset alphabets and spelling digits as characters (`Spell`).
  - A reference decoder (`Decode`), the inverse used to state the round trip.
  - The lowercase hex rendering of a buffer (`Hex`), which stands for Node's `buffer.toString('hex')`.
- `Config`: the constructor as a pure function, `Configure`, from two JavaScript arguments to the
  assigned fields or the error thrown. The arguments' dynamic types are the `Arg` datatype.
  - `TokenLength` is the integer meaning of `Math.ceil(bitSize / Math.log2(base))`: the least `n`
    with `base^n >= 2^bitSize`.
- `Generator`: the `TokenGenerator` class. Its fields are those the constructor assigns.
  - `Generate` takes the entropy buffer as a parameter.
  - The conversion loop (a digit array multiplied by 256 and increased by each byte in turn) and
    the formatter are methods with loop invariants. They are proved against `Encode`, the
    fixed-width radix expansion of the buffer's value, spelled in the alphabet.
  - `Encode`'s properties are lemmas: its length and characters, the round trip, the zero buffer,
    leading zero bytes and left padding.

## Model

| member | source | states |
|---|---|---|
| Config.Defaulted | index.js:7-13 | A string first argument becomes the alphabet: kept if non-empty, otherwise the 58-character preset, with bit size 128. Otherwise a truthy bit size is kept and a falsy one becomes 128, and a truthy alphabet is kept and a falsy one becomes the 58-character preset. Afterwards both arguments are truthy and the bit size is not a string. |
| Config.Truthy | index.js:12-13 | An argument is falsy exactly when it is `undefined`, `null`, `false`, `0` or the empty string, the values for which the logical-or default applies. |
| Config.ToNumber | index.js:15 | The numeric coercion of a bit size keeps a number, turns `null` into 0 and `false` and `true` into 0 and 1, gives 0 exactly for the falsy arguments, and gives no finite number for `undefined`, objects and infinities. A string never reaches this test, because index.js:7-10 moves it to the alphabet. |
| Config.BitSizeRejected | index.js:15-17 | After defaulting, the `% 128` and `< 0` test rejects a non-string bit size exactly when it is not a positive multiple of 128. |
| Config.WidthFor | index.js:25 | The width is infinite exactly for a one-character alphabet. Otherwise every `bitSize`-bit number fits in it. |
| Config.OneCharacterAlphabet | index.js:18-25 | The constructor accepts a one-character alphabet and gives it an infinite token length. |
| Config.Configure | index.js:6-28 | The constructor throws the bit-size error exactly when the defaulted bit size is not a positive multiple of 128. It throws the alphabet error exactly when the bit size is valid and the defaulted alphabet is not a string. Otherwise its fields are well formed and hold the defaulted bit size and alphabet. |
| Config.TokenLength | index.js:25 | `base^tokenLength` is at least `2^bitSize`, so every `bitSize`-bit number fits in `tokenLength` digits. |
| Config.TokenLengthLeast | index.js:25 | No width smaller than `tokenLength` holds every `bitSize`-bit number. |
| Config.TokenLengthUnique | index.js:25 | A width that holds `2^bitSize` values while one digit fewer does not is the token length. This is the characterisation of the ceiling of `bitSize / log2(base)`. |
| Config.WholeBytes | index.js:27 | A multiple of 128 bits divides into whole bytes, so `_bytes` is exact. |
| Config.WholeBlocks | index.js:27-36 | Every generator's byte count is positive and a multiple of 16, so the 16-byte fill loop covers the buffer exactly. |
| Config.Accepted | index.js:22-27 | A positive multiple of 128 and a non-empty string give the fields `bitSize`, `baseEncoding`, `base = length`, the token length and `bitSize / 8`. |
| Config.AlphabetOnly | index.js:7-10 | A string first argument is the alphabet, and the second argument is ignored whatever it is. |
| Config.FalsyBitSizeIs128 | index.js:12 | Any falsy bit size (undefined, null, false, 0) behaves as 128. |
| Config.FalsyAlphabetIsBase58 | index.js:13 | Any falsy alphabet (undefined, null, false, 0, the empty string) behaves as the 58-character preset. |
| Config.TokenLength128Base58 | index.js:25 | 128 bits in the 58-character alphabet take 22 characters. |
| Config.TokenLength256Base62 | index.js:25 | 256 bits in the 62-character alphabet take 43 characters. |
| Config.BinaryTokenLength | index.js:25 | In a two-character alphabet the token length equals the bit size. |
| Config.DefaultConfiguration | index.js:6-28 | With no or falsy arguments the generator has 128 bits, the 58-character alphabet, base 58, 22 characters and 16 bytes. |
| Config.BitSizeOnly | index.js:12-13 | `new TokenGenerator(256)` has 256 bits and the 58-character alphabet. |
| Config.BinaryAlphabet | index.js:22-27 | A generator with alphabet `"01"` has base 2 and one character per bit, for example 512 characters for 512 bits. |
| Config.CustomAlphabet | index.js:7-13 | A non-empty string given alone is the alphabet of a 128-bit, 16-byte generator. |
| Config.RejectedBitSizes | index.js:15-17 | -128, 127, an infinity and `true` are refused as bit sizes. |
| Config.RejectedAlphabets | index.js:18-20 | `true`, a number and an object are refused as alphabets. |
| Alphabet.Presets | index.js:73-78 | Each of the six preset alphabets has as many characters as the radix in its name. |
| Alphabet.HexByte | index.js:39 | The two hex characters of a byte are its two-digit base-16 expansion, spelled in the 16-character preset. |
| Alphabet.Hex | index.js:39 | The hex rendering of `n` bytes has `2n` characters, all from the 16-character preset. |
| Alphabet.HexIsFixedWidth | index.js:38-40 | The hex rendering of `n` bytes is the `2n`-digit base-16 expansion of their big-endian value, spelled in the 16-character preset. |
| Alphabet.DecodeSpell | index.js:63-67 | When an alphabet's characters are distinct, reading back each character's index recovers the value of the spelled digits. |
| Generator.Encode | index.js:42-69 | A token has exactly the requested width, and every character comes from the alphabet. |
| Generator.TokenGenerator.constructor | index.js:22-27 | The new generator's fields are the given well-formed parameters. |
| Generator.TokenGenerator.Create | index.js:6-28 | `new TokenGenerator(a, b)` fails exactly when `Configure` does, with the same error. Otherwise it returns a fresh generator whose fields are `Configure`'s. |
| Generator.TokenGenerator.ConvertBytes | index.js:42-57 | The digit array starts as `[0]`. After all bytes it is canonical, every digit is below `base`, and read little-endian it equals the buffer's big-endian value. |
| Generator.TokenGenerator.AddByte | index.js:44-57 | One pass of the conversion multiplies the array's value by 256 and adds the byte. It keeps every digit below `base` and the array canonical. |
| Generator.TokenGenerator.CarryThrough | index.js:45-51 | The inner loop rewrites every existing digit below `base` and leaves a carry below 256. The new digits plus the carry times `base^length` equal the old value times 256 plus the byte. |
| Generator.TokenGenerator.PushCarry | index.js:53-56 | The push loop keeps the existing digits as a prefix, adds the carry's digits on top and leaves the array canonical. The new value is the old value plus `carry * base^length`. |
| Generator.TokenGenerator.Render | index.js:59-67 | The padded, reversed spelling of the digit array is the `width`-digit expansion of its value, spelled in the alphabet. |
| Generator.TokenGenerator.Generate | index.js:30-70 | The token has exactly `tokenLength` characters, all from the alphabet. It is the fixed-width radix expansion of the buffer's value, on both the hex shortcut and the general path. |
| Generator.CarryBelow256 | index.js:48-50 | A carry below 256 plus a digit times 256, divided by the base, is again below 256. |
| Generator.CarryStep | index.js:47-51 | One inner-loop step keeps the represented value and bounds the new digit and carry. |
| Generator.PushStep | index.js:53-56 | One push step keeps the represented value. The carry strictly decreases, and the last pushed digit is non-zero. |
| Generator.ToInt32 | index.js:48-50 | JavaScript's signed 32-bit conversion gives a value in [-2^31, 2^31) congruent to its input modulo 2^32. |
| Generator.CarryFitsInt32 | index.js:48-50 | For alphabets of at most 2^23 characters, `digit << 8`, the running carry and the bitwise-or truncation of `carry / base` never leave the signed 32-bit range, so they agree with exact arithmetic. |
| Generator.BufferBound | index.js:31 | An `n`-byte buffer's value is below `2^(8n)`. |
| Generator.FitsInTokenLength | index.js:59-61 | The canonical digit array of a `bitSize`-bit value never has more than `tokenLength` digits, so the padding count is never negative. |
| Generator.HexTokenLength | index.js:25 | In the 16-character alphabet the token length of `4k` bits is `k`. |
| Generator.HexShortcut | index.js:38-40 | For the 16-character preset, hex-encoding the buffer gives the same token as the general conversion, with `2n` characters. |
| Generator.RoundTrip | index.js:42-69 | With a distinct alphabet, decoding a token gives back the buffer's value, and that value written as `n` bytes is the buffer. |
| Generator.ZeroBuffer | index.js:42-61 | An all-zero buffer gives the alphabet's first character repeated `tokenLength` times. |
| Generator.LeadingZeroByte | index.js:44-57 | A leading zero byte changes no character of the token. |
| Generator.PaddingOnTheLeft | index.js:59-61 | Widening a token only prepends copies of the alphabet's first character. |

## Left out

- The entropy source, `uuid.v4` filling the buffer 16 bytes at a time (index.js:31-36), is not modelled. The buffer is a parameter of `Generate`. `WholeBlocks` shows that the fill loop covers it exactly.
- The fixed bits of version-4 UUIDs are not modelled. `uuid.v4` sets the version nibble of byte 6 and the variant bits of byte 8 in every 16-byte block, so 6 of every 128 bits are constant and a 128-bit token carries 122 random bits. Every proved property holds for every buffer, these included.
- A Dafny `char` stands for one UTF-16 code unit of a JavaScript string. Alphabets with characters outside the Basic Multilingual Plane are not modelled: there `length` (index.js:24) counts surrogate halves, and the source indexes and emits those halves.
- The float arithmetic of `Math.ceil(bitSize / Math.log2(base))` is not modelled. `TokenLength` is its exact integer meaning, so IEEE rounding is not captured. For the widths computed here (22, 43, one character per bit in base 2, one per four bits in base 16) the float formula gives the same numbers.
- Generator.TokenGenerator.CarryThrough: uses exact integer arithmetic for `<< 8`, `+=` and `| 0`. The floating-point division before `| 0` (index.js:50, 55) is taken as exact; a quotient below 256 of integers below 2^31 is never rounded up to the next integer. `CarryFitsInt32` proves this equals JavaScript's 32-bit arithmetic whenever the alphabet has at most 2^23 characters. Longer alphabets, where the source would wrap around, are not modelled.
- Generator.TokenGenerator.CarryThrough: writes the rewritten digits into a new sequence instead of overwriting the same array slots. The array is local to `generate()`, so no caller can observe the difference.
- Generator.TokenGenerator.Generate: requires `base >= 2`. The constructor still accepts a one-character alphabet (`OneCharacterAlphabet`, `TokenWidth.Unbounded`), but `generate()` never returns a token for it. On a non-zero byte the push loop (index.js:53-56) never ends, because dividing by 1 does not shrink the carry. On an all-zero buffer the padding at index.js:60 calls `repeat` with an infinite count and throws a RangeError. There is no result to model. `PushCarry`'s termination measure relies on `base >= 2` for this reason.
- JavaScript coercion is not modelled beyond the `Arg` datatype. That covers NaN, fractional numbers, arrays and dates. The numeric value of a string is not modelled either: index.js:7-10 moves a string first argument to the alphabet, so no string reaches the bit-size test at index.js:15. A fractional bit size is always refused by the `% 128` test, so `Num` holds integers only.
- The source never checks alphabet distinctness. Distinctness is not proved for the presets, because evaluating it on the literal strings is beyond the verifier's resource budget. `RoundTrip` requires it. With repeated characters the token is still produced but cannot be decoded uniquely.
- The BASE36, BASE66 and BASE71 presets are defined, but no property specific to them is proved. Every general property applies to them.
- test/test.js and Gruntfile.js are not part of this model. The test file exercises an older interface.
