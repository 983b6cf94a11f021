/**
 * The seed generator `cx::generate_seed`: a fold of a character array into
 * a 32-bit key.  The accumulator starts at the array length `S` (which
 * counts the terminating NUL of a string literal) and every element, in
 * order, is XORed in and the result multiplied by the 32-bit FNV prime,
 * wrapping modulo 2^32.  The starting value is the length rather than the
 * FNV offset basis, so the fold is FNV-like but not FNV-1a.
 */
module Seed {

  /** Plain `char` is signed on some platforms and unsigned on others. */
  datatype CharSignedness = SignedChar | UnsignedChar

  /**
   * The value of a `char` after the usual arithmetic conversions in
   * `key ^ str[i]`: promoted to `int` (sign-extended when `char` is signed)
   * and then converted to `unsigned int`.
   */
  function Promote(c: bv8, sign: CharSignedness): (w: bv32)
    ensures (w & 0xFF) as bv8 == c
    ensures sign == UnsignedChar || c < 0x80 ==> w == c as bv32
    ensures sign == SignedChar && c >= 0x80 ==> w >> 8 == 0xFF_FFFF
  {
    if sign == SignedChar && c >= 0x80 then c as bv32 | 0xFFFF_FF00 else c as bv32
  }

  /** Every element of the array, promoted as the loop promotes it. */
  function PromoteAll(s: seq<bv8>, sign: CharSignedness): (ws: seq<bv32>)
    ensures |ws| == |s|
  {
    seq(|s|, i requires 0 <= i < |s| => Promote(s[i], sign))
  }

  /** `size_t S` converted to `unsigned int`. */
  function Length32(n: nat): bv32 {
    (n % 0x1_0000_0000) as bv32
  }

  /**
   * One iteration of the loop on a promoted character `w`: XOR it in, then
   * multiply by the 32-bit FNV prime 16777619, wrapping modulo 2^32.
   */
  function Step(acc: bv32, w: bv32): bv32 {
    (acc ^ w) * 16777619
  }

  /** The left fold of `Step` over `ws`, starting from `acc`. */
  function Fold(acc: bv32, ws: seq<bv32>): bv32
    decreases |ws|
  {
    if ws == [] then acc else Fold(Step(acc, ws[0]), ws[1..])
  }

  /** What `generate_seed` computes for the `S`-element array `s`. */
  function SeedOf(s: seq<bv8>, sign: CharSignedness): (key: bv32)
    ensures s == [] ==> key == 0
  {
    Fold(Length32(|s|), PromoteAll(s, sign))
  }

  /** `generate_seed`: the loop over all `S` elements, proved to compute `SeedOf`. */
  method GenerateSeed(str: seq<bv8>, sign: CharSignedness) returns (key: bv32)
    ensures key == SeedOf(str, sign)
    ensures str == [] ==> key == 0
  {
    ghost var ws := PromoteAll(str, sign);
    key := Length32(|str|);
    var i := 0;
    while i < |str|
      invariant 0 <= i <= |str|
      invariant key == Fold(Length32(|str|), ws[..i])
    {
      assert ws[..i + 1] == ws[..i] + [ws[i]];
      FoldSnoc(Length32(|str|), ws[..i], ws[i]);
      key := Step(key, Promote(str[i], sign));
      i := i + 1;
    }
    assert ws[..i] == ws;
  }

  /** Folding over a concatenation folds over the first part, then the second. */
  lemma {:induction false} FoldAppend(acc: bv32, a: seq<bv32>, b: seq<bv32>)
    ensures Fold(acc, a + b) == Fold(Fold(acc, a), b)
    decreases |a|
  {
    if a == [] {
      assert a + b == b;
    } else {
      assert (a + b)[1..] == a[1..] + b;
      FoldAppend(Step(acc, a[0]), a[1..], b);
    }
  }

  /** The last element is folded in last: the loop's accumulator after `i + 1` elements. */
  lemma FoldSnoc(acc: bv32, ws: seq<bv32>, w: bv32)
    ensures Fold(acc, ws + [w]) == Step(Fold(acc, ws), w)
  {
    FoldAppend(acc, ws, [w]);
  }

  /** The empty array leaves the starting value, the length 0. */
  lemma SeedOfEmpty(sign: CharSignedness)
    ensures SeedOf([], sign) == 0
  {
  }

  /** An all-ASCII array, such as a `__TIME__` string, gets the same seed on every platform. */
  lemma SeedSevenBit(s: seq<bv8>)
    requires forall i :: 0 <= i < |s| ==> s[i] < 0x80
    ensures SeedOf(s, SignedChar) == SeedOf(s, UnsignedChar)
  {
    assert PromoteAll(s, SignedChar) == PromoteAll(s, UnsignedChar);
  }

  /** The `__TIME__` string "12:34:56" with its terminating NUL, nine elements. */
  const SampleTime: seq<bv8> := [0x31, 0x32, 0x3A, 0x33, 0x34, 0x3A, 0x35, 0x36, 0x00]

  /** The timestamp's characters are all 7-bit, so promotion only widens them. */
  lemma SampleTimePromoted(sign: CharSignedness)
    ensures PromoteAll(SampleTime, sign) == [0x31, 0x32, 0x3A, 0x33, 0x34, 0x3A, 0x35, 0x36, 0x00]
  {
    ghost var ws := PromoteAll(SampleTime, sign);
    forall i | 0 <= i < 9
      ensures ws[i] == SampleTime[i] as bv32
    {
    }
  }

  /** The fold of the widened timestamp from its length 9. */
  lemma SampleTimeFold()
    ensures Fold(9, [0x31, 0x32, 0x3A, 0x33, 0x34, 0x3A, 0x35, 0x36, 0x00]) == 0x715D_E634
  {
  }

  /** The key the seed generator derives from that timestamp. */
  lemma SampleTimeSeed(sign: CharSignedness)
    ensures SeedOf(SampleTime, sign) == 0x715D_E634
  {
    assert Length32(|SampleTime|) == 9;
    SampleTimePromoted(sign);
    SampleTimeFold();
  }
}
