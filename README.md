# CxObfuscator, modelled in Dafny

CxObfuscator is a one-header C++ library that hides string literals from a
binary's static data. At compile time it derives a 32-bit key from the
`__TIME__` string with `cx::generate_seed` and builds a
`cx::container<CharT, N, Key>` holding the literal XORed with a keystream
cut from that key. At run time the first `decrypt()` XORs the same
keystream back in place, sets a one-shot `decrypted` flag and returns the
buffer. Later calls return the buffer untouched.

The model has three modules:

- `Seed` (`seed.dfy`) models `generate_seed`.
  - `SeedOf` is the pure left fold. It starts from the array length `S`, which counts the terminating NUL, converted to `unsigned int`.
  - Each step is `(acc ^ c) * 16777619` modulo 2^32.
  - `GenerateSeed` is the source's loop, proved equal to `SeedOf`.
  - A `char` is promoted before the XOR. The model sign-extends it when `char` is signed (`CharSignedness`), because the source leaves that platform-dependent.
- `Cipher` (`cipher.dfy`) models the keystream `Key >> ((i % 4) * 8)` and the XOR transform.
  - The keystream is narrowed to the element type: a byte for `char` (`KeyByte`) and 16 bits for a 2-byte `wchar_t` (`KeyUnit16`).
  - `Encode` XORs every element of a narrow literal with the keystream. `Encode16` does the same for a wide literal.
- `Obfuscation` (`container.dfy`) models `container<char, N, Key>`.
  - It is a class with the constant key, the constant size, the buffer as an `array<bv8>` and the mutable `decrypted` flag.
  - A ghost `plain` holds the literal. `Valid()` states the object invariant: the buffer holds `Encode(plain, Key)` while the flag is clear, and `plain` once it is set.
  - `ObfuscatedLiteral` is what the `sk` macro evaluates to: seed, construct, decrypt.

Three facts about the code are easy to miss:

- The fold looks like FNV-1a, but it starts from the array length rather than the FNV offset basis, and it XORs the promoted `char`. A byte of 0x80 or more is therefore sign-extended on platforms with a signed `char`. `SeedSevenBit` shows that this never matters for an all-ASCII timestamp.
- The keystream element is not masked to a byte. It is `Key >> ((i % 4) * 8)` narrowed to the element type, so for a 2-byte `wchar_t` it also carries the next key byte in its high half (`KeyUnit16Bytes`).
- A zero-length input would give seed 0 (`SeedOfEmpty`). In C++ none reaches `generate_seed`, because a string literal always holds its NUL.

## Model

| member | source | states |
|---|---|---|
| `Seed.Promote` | cxobfuscator.h:12 | the promoted `char` keeps its byte in the low 8 bits; its high bits are zero unless `char` is signed and the byte is 0x80 or more, in which case they are all ones |
| `Seed.PromoteAll` | cxobfuscator.h:11-12 | every element of the array promoted as the loop promotes it; the length is kept |
| `Seed.Length32` | cxobfuscator.h:10 | the array length `S` converted to `unsigned int`, that is taken modulo 2^32 |
| `Seed.Step` | cxobfuscator.h:12 | one loop iteration: XOR the promoted character into the key, multiply by 16777619 modulo 2^32 |
| `Seed.Fold` | cxobfuscator.h:11-13 | the loop's accumulation: the steps applied to the elements in order, first to last |
| `Seed.SeedOf` | cxobfuscator.h:10-14 | the seed of an array: the fold of its promoted elements from its length; an empty array gives 0 |
| `Seed.GenerateSeed` | cxobfuscator.h:8-15 | the loop returns the left fold of the XOR-then-multiply step over all `S` elements, starting from `S`; an empty array gives 0 |
| `Seed.FoldSnoc` | cxobfuscator.h:11-13 | after `i + 1` iterations the key is one step applied to the key after `i` iterations and element `i` |
| `Seed.FoldAppend` | cxobfuscator.h:11-13 | folding over `a + b` equals folding over `b` from the result of folding over `a` |
| `Seed.SeedOfEmpty` | cxobfuscator.h:10-14 | a zero-length array yields the starting value 0 |
| `Seed.SeedSevenBit` | cxobfuscator.h:12 | for an array of 7-bit characters the seed is the same whether `char` is signed or unsigned |
| `Seed.SampleTimeSeed` | cxobfuscator.h:45 | the timestamp "12:34:56" with its NUL yields the key 0x715DE634 |
| `Cipher.KeyWord` | cxobfuscator.h:22 | the key shifted right by 0, 8, 16 or 24 bits by `i % 4`; never above the key, and below 2^24, 2^16 or 2^8 at cycle positions 1, 2 and 3 as the shift fills with zeros |
| `Cipher.KeyByte` | cxobfuscator.h:22 | the shifted key narrowed to an 8-bit `char`, the element each narrow position is XORed with |
| `Cipher.KeyUnit16` | cxobfuscator.h:22 | the shifted key narrowed to a 2-byte `wchar_t`, the element each wide position is XORed with |
| `Cipher.Encode` | cxobfuscator.h:21-23 | each element of a narrow literal XORed with its keystream byte; the length is kept |
| `Cipher.Encode16` | cxobfuscator.h:21-23 | each element of a 2-byte `wchar_t` literal XORed with its wide keystream element; the length is kept |
| `Cipher.KeyWordIsShift` | cxobfuscator.h:22 | the per-position key word is exactly `Key >> ((i % 4) * 8)` |
| `Cipher.KeyBytePeriodic` | cxobfuscator.h:22 | the narrow keystream has period 4 and depends on `i` only through `i % 4` |
| `Cipher.KeyBytesLittleEndian` | cxobfuscator.h:22 | keystream bytes 0 to 3 reassemble the key, lowest byte first |
| `Cipher.KeyBytesDetermineKey` | cxobfuscator.h:22 | two keys agree on keystream bytes 0 to 3 if and only if they are equal |
| `Cipher.NarrowingDropsPromotion` | cxobfuscator.h:22 | promoting `str[i]`, XORing with the shifted key and narrowing to `char` gives `str[i]` XOR the keystream byte, for either signedness |
| `Cipher.KeyUnit16Bytes` | cxobfuscator.h:22 | for a 2-byte `wchar_t` the keystream element's low byte is the narrow keystream byte at `i`; its high byte is the byte at `i + 1`, or 0 at position 3 of the cycle; the element has period 4 |
| `Cipher.EncodeAt` | cxobfuscator.h:21-23 | ciphertext element `i` is literal element `i` XOR keystream `i`, so it depends on nothing else |
| `Cipher.EncodeInvolution` | cxobfuscator.h:30-32 | applying the transform a second time with the same key restores the literal |
| `Cipher.Encode16Involution` | cxobfuscator.h:31 | the same round trip for a 2-byte `wchar_t` literal under the wide keystream |
| `Cipher.EncodeSameCiphertext` | cxobfuscator.h:21-23 | one literal under two keys gives the same ciphertext if and only if the keystreams agree on the first min(length, 4) positions |
| `Cipher.DifferentKeysDifferentCiphertexts` | cxobfuscator.h:21-23 | for a literal of at least four elements the ciphertexts under two keys are equal if and only if the keys are; both decode to the same literal |
| `Cipher.HelloUnderSampleKey` | cxobfuscator.h:43-49 | "Hello" with its NUL under the key from "12:34:56" encodes to 7C 83 31 1D 5B E6, and decoding that gives "Hello" back |
| `Obfuscation.Container.Valid` | cxobfuscator.h:37-39 | the object invariant: the buffer has `N` elements and holds the literal XORed with the keystream while `decrypted` is false, and the literal itself once it is true |
| `Obfuscation.Container.constructor` | cxobfuscator.h:20-24 | every buffer element `i < N` is `str[i]` XOR keystream `i`, the flag is clear, and the invariant holds with the literal being the first `N` elements of `str` |
| `Obfuscation.Container.Decrypt` | cxobfuscator.h:26-35 | afterwards the flag is set and the returned buffer holds the literal; a first call XORs each element with its own keystream element; a later call leaves the buffer unchanged; only the buffer and the flag may change |
| `Obfuscation.ObfuscatedLiteral` | cxobfuscator.h:43-49 | seeding from any timestamp, constructing over the whole literal and decrypting yields the literal, terminator included |
| `Obfuscation.DecryptTwice` | cxobfuscator.h:27-29 | the buffer contents after a second `decrypt()` equal those after the first, and both are the literal |

## Left out

- The `sk_w` macro and `container<wchar_t, …>` are not modelled as a class. Only the wide keystream (`KeyUnit16`) and the wide transform (`Encode16`) are modelled. `sk_w`'s `sizeof(str) / 2` assumes a 2-byte `wchar_t`; with a 4-byte `wchar_t` the element count is doubled, and `sk_w` does not compile, because the constant evaluation of the constructor would read past the literal. That is platform-dependent, so it is not modelled.
- The lifetime of the pointer returned by `decrypt()` on a temporary is not modelled. In C++ it dangles after the full expression. `Decrypt` returns the buffer itself, and no lifetime is modelled.
- `constexpr` evaluation is not modelled. Whether construction runs at compile time or at run time does not change the result.
- The value `__TIME__` takes in a build is not modelled. The timestamp is a parameter of `ObfuscatedLiteral`.
- Concurrent calls to `decrypt()` on one container are not modelled. The source has no synchronisation.
- The literal passed to the constructor is a sequence value, not a raw pointer. The source's demand that `str` point to at least `N` elements becomes the precondition `n <= |str|`.
- Injectivity of the seed step is not proved: 16777619 is odd, so each step is a bijection of the accumulator, but that bit-vector multiplication argument is beyond what the solver proves within its budget here.
