/** The size bounds of src/envelope_crypto/mod.rs and cbc.rs, with their saturating branches. */
module Sizes {
  import opened Common
  import opened Base64
  import opened Crypto

  function CheckedMul(a: nat, b: nat): Option<nat> {
    if a * b <= USIZE_MAX then Some(a * b) else None
  }

  function OrMax(length: Option<nat>): nat {
    if length.None? then USIZE_MAX else length.value
  }

  /** `base64_len`. */
  function Base64Len(binaryLen: nat): nat {
    var padded := CheckedAdd(binaryLen, 2);
    OrMax(if padded.None? then None else CheckedMul(padded.value / 3, 4))
  }

  /** `padded_cipher_len`. */
  function PaddedCipherLen(limit: nat): nat {
    var blocks := CheckedAdd(limit / SM4_BLOCK_BYTES, 1);
    OrMax(if blocks.None? then None else CheckedMul(blocks.value, SM4_BLOCK_BYTES))
  }

  /** `saturating_add`. */
  function SaturatingAdd(a: nat, b: nat): nat { if a + b <= USIZE_MAX then a + b else USIZE_MAX }

  /** Each bound is the true length, cut off at the largest length there is. */
  lemma BoundsAreCutOffLengths(n: nat)
    ensures Base64Len(n) == if (n + 2) / 3 * 4 <= USIZE_MAX then (n + 2) / 3 * 4 else USIZE_MAX
    ensures PaddedCipherLen(n) == if CbcLength(n) <= USIZE_MAX then CbcLength(n) else USIZE_MAX
  {
    assert n <= USIZE_MAX - 2 || (n + 2) / 3 * 4 > USIZE_MAX;
  }

  /** No text that fits in memory and encodes at most `n` bytes is refused. */
  lemma Base64LenAdmits(b: bytes, n: nat)
    requires |b| <= n && |Encode(b)| <= USIZE_MAX
    ensures |Encode(b)| <= Base64Len(n)
  {
    EncodedLength(b);
  }

  /** When nothing saturates, the text check admits exactly the lengths up to the next multiple of three. */
  lemma Base64LenAdmitsExactly(b: bytes, n: nat)
    requires n + 2 <= USIZE_MAX && (n + 2) / 3 * 4 <= USIZE_MAX
    ensures |Encode(b)| <= Base64Len(n) <==> |b| <= (n + 2) / 3 * 3
    ensures n <= (n + 2) / 3 * 3 <= n + 2
  {
    EncodedLength(b);
  }

  /** Every CBC ciphertext of an admitted plaintext that fits in memory is admitted. */
  lemma PaddedCipherLenAdmits(n: nat, limit: nat)
    requires n <= limit && CbcLength(n) <= USIZE_MAX
    ensures CbcLength(n) <= PaddedCipherLen(limit)
  {
    assert n / SM4_BLOCK_BYTES <= limit / SM4_BLOCK_BYTES;
  }

  /** When nothing saturates, the ciphertext bound is exact: it admits the plaintexts of the limit's last block and no more. */
  lemma PaddedCipherLenAdmitsExactly(n: nat, limit: nat)
    requires CbcLength(limit) <= USIZE_MAX
    ensures CbcLength(n) <= PaddedCipherLen(limit) <==> n < CbcLength(limit)
    ensures limit < CbcLength(limit) <= limit + SM4_BLOCK_BYTES
  {
  }
}
