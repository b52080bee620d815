/**
 * `stringHash`, the 32-bit hash of keys and member names, defined alike in
 * the sorted set and the request handler: start from 0x811C9DC5 and, for
 * each character, add it and multiply by 0x01000193, in unsigned 32-bit
 * arithmetic. The source adds a `char`, which the model takes as signed.
 */
module StringHash {
  import opened Wire

  const HASH_START: nat := 0x811C9DC5
  const HASH_FACTOR: nat := 0x01000193
  /** 2^32: unsigned 32-bit arithmetic is arithmetic modulo this. */
  const U32_RANGE: nat := 0x1_0000_0000

  /** A byte read as a signed `char`. */
  function SignedChar(b: byte): (c: int)
    ensures -128 <= c < 128 && c % 256 == b
  {
    if b < 128 then b else b - 256
  }

  /** One step of the fold, `(hash + letter) * 0x01000193` on a `uint32_t`. */
  function HashStep(hash: nat, letter: byte): (r: nat)
    ensures r < U32_RANGE
  {
    ((hash + SignedChar(letter)) % U32_RANGE * HASH_FACTOR) % U32_RANGE
  }

  /** The hash of s: the fold over its characters from the first to the last. */
  function Hash(s: bytes): (h: nat)
    ensures h < U32_RANGE
  {
    if s == [] then HASH_START else HashStep(Hash(s[..|s| - 1]), s[|s| - 1])
  }

  /** Appending a character is one more step of the fold. */
  lemma HashAppend(s: bytes, b: byte)
    ensures Hash(s + [b]) == HashStep(Hash(s), b)
  {
    assert (s + [b])[..|s|] == s;
  }

  /** The loop of `stringHash`. */
  method ComputeHash(data: bytes) returns (hash: nat)
    ensures hash == Hash(data) && hash < U32_RANGE
  {
    hash := HASH_START;
    for i := 0 to |data|
      invariant hash == Hash(data[..i])
    {
      HashAppend(data[..i], data[i]);
      assert data[..i + 1] == data[..i] + [data[i]];
      hash := (hash + SignedChar(data[i])) % U32_RANGE * HASH_FACTOR % U32_RANGE;
    }
    assert data[..|data|] == data;
  }
}
