/**
 * `cx::container<char, N, Key>`: a fixed-size buffer that holds a literal
 * XOR-encoded from construction on, and a one-shot `decrypted` flag.  The
 * first `decrypt()` applies the keystream again, which restores the
 * literal, and sets the flag; every later call returns the buffer as it is.
 */
module Obfuscation {
  import Seed
  import opened Cipher

  class Container {
    /** The key, a template parameter of the source type. */
    const Key: bv32
    /** The element count, a template parameter of the source type. */
    const N: nat
    /** The `std::array<char, N>`: its identity never changes, its elements do. */
    const buffer: array<bv8>
    var decrypted: bool
    /** The literal the container was built from. */
    ghost const plain: seq<bv8>

    /** Ciphertext while the flag is clear, the literal once it is set. */
    ghost predicate Valid()
      reads this, buffer
    {
      buffer.Length == N && |plain| == N &&
      buffer[..] == if decrypted then plain else Encode(plain, Key)
    }

    /**
     * `container(const char* str)`: reads the first `n` elements of `str`
     * and stores each XORed with the keystream.  The flag starts clear.
     */
    constructor (str: seq<bv8>, n: nat, key: bv32)
      requires n <= |str|
      ensures Valid() && fresh(buffer)
      ensures Key == key && N == n && plain == str[..n] && !decrypted
      ensures forall i :: 0 <= i < n ==> buffer[i] == str[i] ^ KeyByte(key, i)
    {
      var b := new bv8[n];
      for i := 0 to n
        invariant forall k :: 0 <= k < i ==> b[k] == str[k] ^ KeyByte(key, k)
      {
        b[i] := str[i] ^ KeyByte(key, i);
      }
      Key, N, buffer, decrypted, plain := key, n, b, false, str[..n];
      assert b[..] == Encode(str[..n], key);
    }

    /**
     * `decrypt()`: on the first call XOR every element with the keystream in
     * place and set the flag; on later calls change nothing.  Either way the
     * buffer returned holds the literal.
     */
    method Decrypt() returns (r: array<bv8>)
      requires Valid()
      modifies this`decrypted, buffer
      ensures Valid() && decrypted
      ensures r == buffer && r[..] == plain
      ensures buffer[..] == if old(decrypted) then old(buffer[..]) else Encode(old(buffer[..]), Key)
    {
      if decrypted {
        return buffer;
      }
      for i := 0 to N
        invariant forall k :: 0 <= k < i ==> buffer[k] == old(buffer[k]) ^ KeyByte(Key, k)
        invariant forall k :: i <= k < N ==> buffer[k] == old(buffer[k])
      {
        buffer[i] := buffer[i] ^ KeyByte(Key, i);
      }
      decrypted := true;
      assert buffer[..] == Encode(old(buffer[..]), Key);
      EncodeInvolution(plain, Key);
      return buffer;
    }
  }

  /**
   * What `sk(str)` evaluates to: the key from the seed generator run over
   * the compile-time timestamp, a container over the whole literal
   * (terminator included), and its first `decrypt()`.
   */
  method ObfuscatedLiteral(literal: seq<bv8>, time: seq<bv8>, sign: Seed.CharSignedness)
    returns (r: array<bv8>)
    ensures r[..] == literal
  {
    var key := Seed.GenerateSeed(time, sign);
    var data := new Container(literal, |literal|, key);
    assert literal[..|literal|] == literal;
    r := data.Decrypt();
  }

  /**
   * Decrypting one container twice, taking the buffer's contents after each
   * call: both are the literal, the second call having changed nothing.
   */
  method DecryptTwice(literal: seq<bv8>, key: bv32) returns (first: seq<bv8>, second: seq<bv8>)
    ensures first == literal && second == literal
  {
    var data := new Container(literal, |literal|, key);
    assert literal[..|literal|] == literal;
    var r := data.Decrypt();
    first := r[..];
    r := data.Decrypt();
    second := r[..];
  }
}
