/**
 * The keystream and the XOR transform of `cx::container`.  Element `i` of a
 * literal is XORed with `Key >> ((i % 4) * 8)`, narrowed to the element
 * type: for an 8-bit `char` that is byte `i % 4` of the key, lowest byte
 * first, so the 32-bit key is applied as a repeating 4-byte cycle.  The
 * constructor and `decrypt()` apply the same transform, which is its own
 * inverse.
 */
module Cipher {
  import Seed

  /** Narrowing an `unsigned int` to an 8-bit `char`: keep the low byte. */
  function Low8(x: bv32): bv8 {
    (x & 0xFF) as bv8
  }

  /** Narrowing an `unsigned int` to a 2-byte `wchar_t`: keep the low 16 bits. */
  function Low16(x: bv32): bv16 {
    (x & 0xFFFF) as bv16
  }

  /**
   * `Key >> ((i % 4) * 8)`, before it is narrowed to the element type,
   * written out for each position of the 4-element cycle.
   */
  function KeyWord(key: bv32, i: nat): (w: bv32)
    ensures w <= key
    ensures i % 4 == 1 ==> w < 0x100_0000
    ensures i % 4 == 2 ==> w < 0x1_0000
    ensures i % 4 == 3 ==> w < 0x100
  {
    if i % 4 == 0 then key
    else if i % 4 == 1 then key >> 8
    else if i % 4 == 2 then key >> 16
    else key >> 24
  }

  /** `KeyWord` is the shift the source writes. */
  lemma KeyWordIsShift(key: bv32, i: nat)
    ensures KeyWord(key, i) == key >> ((i % 4) * 8)
  {
    if i % 4 == 0 {
      assert (i % 4) * 8 == 0;
    } else if i % 4 == 1 {
      assert (i % 4) * 8 == 8;
    } else if i % 4 == 2 {
      assert (i % 4) * 8 == 16;
    } else {
      assert (i % 4) * 8 == 24;
    }
  }

  /** The keystream element for an 8-bit `char` buffer. */
  function KeyByte(key: bv32, i: nat): bv8 {
    Low8(KeyWord(key, i))
  }

  /** The keystream element for a 2-byte `wchar_t` buffer. */
  function KeyUnit16(key: bv32, i: nat): bv16 {
    Low16(KeyWord(key, i))
  }

  /** The keystream depends on the position only through `i % 4`. */
  lemma KeyBytePeriodic(key: bv32, i: nat)
    ensures KeyByte(key, i + 4) == KeyByte(key, i)
    ensures KeyByte(key, i) == KeyByte(key, i % 4)
  {
  }

  /** The first four keystream bytes are the key's bytes, lowest byte first. */
  lemma KeyBytesLittleEndian(key: bv32)
    ensures key == KeyByte(key, 0) as bv32
                 | (KeyByte(key, 1) as bv32 << 8)
                 | (KeyByte(key, 2) as bv32 << 16)
                 | (KeyByte(key, 3) as bv32 << 24)
  {
  }

  /**
   * Two keys give the same keystream bytes at positions 0 to 3 exactly when
   * they are the same key.
   */
  lemma KeyBytesDetermineKey(k1: bv32, k2: bv32)
    ensures (forall i :: 0 <= i < 4 ==> KeyByte(k1, i) == KeyByte(k2, i)) <==> k1 == k2
  {
    if forall i :: 0 <= i < 4 ==> KeyByte(k1, i) == KeyByte(k2, i) {
      assert KeyByte(k1, 0) == KeyByte(k2, 0) && KeyByte(k1, 1) == KeyByte(k2, 1);
      assert KeyByte(k1, 2) == KeyByte(k2, 2) && KeyByte(k1, 3) == KeyByte(k2, 3);
      KeyBytesLittleEndian(k1);
      KeyBytesLittleEndian(k2);
    }
  }

  /**
   * In `str[i] ^ (Key >> ...)` the character is promoted to `int` (perhaps
   * sign-extended) before the XOR, and the result narrowed back to `char`.
   * The promotion only adds high bits that the narrowing drops, so the
   * stored byte is the character XOR the keystream byte, whatever the
   * signedness of `char`.
   */
  lemma NarrowingDropsPromotion(c: bv8, sign: Seed.CharSignedness, key: bv32, i: nat)
    ensures Low8(Seed.Promote(c, sign) ^ KeyWord(key, i)) == c ^ KeyByte(key, i)
  {
    var w := KeyWord(key, i);
    assert Low8(Seed.Promote(c, sign) ^ w) == c ^ Low8(w);
  }

  /**
   * For a 2-byte `wchar_t` the keystream element is not a single key byte:
   * its low byte is the narrow keystream byte at `i`, and its high byte is
   * the next key byte up, or zero at the top byte of the key.
   */
  lemma KeyUnit16Bytes(key: bv32, i: nat)
    ensures (KeyUnit16(key, i) & 0xFF) as bv8 == KeyByte(key, i)
    ensures (KeyUnit16(key, i) >> 8) as bv8 == if i % 4 < 3 then KeyByte(key, i + 1) else 0
    ensures KeyUnit16(key, i + 4) == KeyUnit16(key, i)
  {
    if i % 4 == 0 {
      assert KeyUnit16(key, i) == Low16(key);
    } else if i % 4 == 1 {
      assert KeyUnit16(key, i) == Low16(key >> 8);
    } else if i % 4 == 2 {
      assert KeyUnit16(key, i) == Low16(key >> 16);
    } else {
      assert KeyUnit16(key, i) == Low16(key >> 24);
    }
  }

  /** XOR every element of `s` with the narrow keystream of `key`. */
  function Encode(s: seq<bv8>, key: bv32): (r: seq<bv8>)
    ensures |r| == |s|
  {
    seq(|s|, i requires 0 <= i < |s| => s[i] ^ KeyByte(key, i))
  }

  /** Each output element depends only on the input element at the same position. */
  lemma EncodeAt(s: seq<bv8>, key: bv32, i: nat)
    requires i < |s|
    ensures Encode(s, key)[i] == s[i] ^ KeyByte(key, i)
    ensures Encode(s, key)[i] ^ s[i] == KeyByte(key, i)
  {
  }

  /** Applying the transform twice with the same key restores the input. */
  lemma EncodeInvolution(s: seq<bv8>, key: bv32)
    ensures Encode(Encode(s, key), key) == s
  {
    forall i | 0 <= i < |s|
      ensures Encode(Encode(s, key), key)[i] == s[i]
    {
      var k := KeyByte(key, i);
      assert Encode(s, key)[i] == s[i] ^ k;
      assert Encode(Encode(s, key), key)[i] == (s[i] ^ k) ^ k;
    }
  }

  /**
   * One literal under two keys gives the same ciphertext exactly when the
   * keystreams agree on the first `min(|s|, 4)` positions.
   */
  lemma EncodeSameCiphertext(s: seq<bv8>, k1: bv32, k2: bv32)
    ensures Encode(s, k1) == Encode(s, k2)
        <==> forall i :: 0 <= i < |s| && i < 4 ==> KeyByte(k1, i) == KeyByte(k2, i)
  {
    if Encode(s, k1) == Encode(s, k2) {
      forall i | 0 <= i < |s| && i < 4
        ensures KeyByte(k1, i) == KeyByte(k2, i)
      {
        EncodeAt(s, k1, i);
        EncodeAt(s, k2, i);
      }
    }
    if forall i :: 0 <= i < |s| && i < 4 ==> KeyByte(k1, i) == KeyByte(k2, i) {
      forall i | 0 <= i < |s|
        ensures Encode(s, k1)[i] == Encode(s, k2)[i]
      {
        KeyBytePeriodic(k1, i);
        KeyBytePeriodic(k2, i);
      }
    }
  }

  /**
   * A literal of four or more elements encoded under two different keys
   * gives two different ciphertexts; both decode to the same literal.
   */
  lemma DifferentKeysDifferentCiphertexts(s: seq<bv8>, k1: bv32, k2: bv32)
    requires |s| >= 4
    ensures Encode(s, k1) == Encode(s, k2) <==> k1 == k2
    ensures Encode(Encode(s, k1), k1) == Encode(Encode(s, k2), k2)
  {
    EncodeSameCiphertext(s, k1, k2);
    KeyBytesDetermineKey(k1, k2);
    EncodeInvolution(s, k1);
    EncodeInvolution(s, k2);
  }

  /** XOR every element of a 2-byte `wchar_t` literal with the wide keystream of `key`. */
  function Encode16(s: seq<bv16>, key: bv32): (r: seq<bv16>)
    ensures |r| == |s|
  {
    seq(|s|, i requires 0 <= i < |s| => s[i] ^ KeyUnit16(key, i))
  }

  /** The wide transform is its own inverse as well. */
  lemma Encode16Involution(s: seq<bv16>, key: bv32)
    ensures Encode16(Encode16(s, key), key) == s
  {
    forall i | 0 <= i < |s|
      ensures Encode16(Encode16(s, key), key)[i] == s[i]
    {
      Encode16TwiceAt(s, key, i);
    }
  }

  /** One element of the wide transform applied twice. */
  lemma Encode16TwiceAt(s: seq<bv16>, key: bv32, i: nat)
    requires i < |s|
    ensures Encode16(Encode16(s, key), key)[i] == s[i]
  {
    var k := KeyUnit16(key, i);
    assert Encode16(s, key)[i] == s[i] ^ k;
  }

  /** "Hello" with its terminating NUL. */
  const Hello: seq<bv8> := [0x48, 0x65, 0x6C, 0x6C, 0x6F, 0x00]

  /** The ciphertext of "Hello" under the key 0x715DE634. */
  lemma HelloCiphertext()
    ensures Encode(Hello, 0x715D_E634) == [0x7C, 0x83, 0x31, 0x1D, 0x5B, 0xE6]
  {
    var key: bv32 := 0x715D_E634;
    assert KeyByte(key, 0) == 0x34 && KeyByte(key, 1) == 0xE6;
    assert KeyByte(key, 2) == 0x5D && KeyByte(key, 3) == 0x71;
    assert KeyByte(key, 4) == 0x34 && KeyByte(key, 5) == 0xE6;
  }

  /**
   * "Hello" under the key that the seed generator derives from "12:34:56":
   * the ciphertext bytes, and the decode that restores the literal.
   */
  lemma HelloUnderSampleKey()
    ensures Encode(Hello, Seed.SeedOf(Seed.SampleTime, Seed.SignedChar)) == [0x7C, 0x83, 0x31, 0x1D, 0x5B, 0xE6]
    ensures Encode([0x7C, 0x83, 0x31, 0x1D, 0x5B, 0xE6], Seed.SeedOf(Seed.SampleTime, Seed.SignedChar)) == Hello
  {
    Seed.SampleTimeSeed(Seed.SignedChar);
    HelloCiphertext();
    EncodeInvolution(Hello, 0x715D_E634);
  }
}
