/**
 * Byte-level vocabulary shared by the protocol modules: bytes, the
 * little-endian fixed-width integers that the C++ code copies with
 * `memcpy`, and the protocol's size limits.
 *
 * The source copies native integers byte for byte; the model assumes a
 * little-endian machine, so a 32-bit value `n` occupies the bytes
 * `n % 256, (n / 256) % 256, ...` in that order.
 */
module Wire {

  type byte = x: int | 0 <= x < 256
  type bytes = seq<byte>

  /** Largest request or response body, in bytes (`K_MAX_MSG`, `MAX_MESSAGE_SIZE`). */
  const MAX_MESSAGE_SIZE: nat := 4096
  /** Largest argument count a request may declare (`MAX_NUM_ARGS`). */
  const MAX_NUM_ARGS: nat := 1024

  datatype Option<+T> = None | Some(value: T)

  /** 256^k: the number of values that fit in k bytes. */
  function Pow256(k: nat): (r: nat)
    ensures r >= 1
  {
    if k == 0 then 1 else 256 * Pow256(k - 1)
  }

  /** The k-byte little-endian image of n. */
  function LittleEndian(n: nat, k: nat): (r: bytes)
    requires n < Pow256(k)
    ensures |r| == k
  {
    if k == 0 then [] else [n % 256] + LittleEndian(n / 256, k - 1)
  }

  /** The number whose little-endian image is s. */
  function FromLittleEndian(s: bytes): (n: nat)
    ensures n < Pow256(|s|)
  {
    if s == [] then 0 else s[0] + 256 * FromLittleEndian(s[1..])
  }

  lemma {:induction false} FromLittleEndianOfLittleEndian(n: nat, k: nat)
    requires n < Pow256(k)
    ensures FromLittleEndian(LittleEndian(n, k)) == n
  {
    if k > 0 {
      var s := LittleEndian(n, k);
      assert s[1..] == LittleEndian(n / 256, k - 1);
      FromLittleEndianOfLittleEndian(n / 256, k - 1);
    }
  }

  lemma {:induction false} LittleEndianOfFromLittleEndian(s: bytes)
    ensures LittleEndian(FromLittleEndian(s), |s|) == s
  {
    if s != [] {
      LittleEndianOfFromLittleEndian(s[1..]);
      var n := FromLittleEndian(s);
      assert n % 256 == s[0] && n / 256 == FromLittleEndian(s[1..]);
    }
  }

  /** The 4-byte image of a `uint32_t`. */
  function U32(n: nat): (r: bytes)
    requires n < 0x1_0000_0000
    ensures |r| == 4
    ensures FromLittleEndian(r) == n
  {
    FromLittleEndianOfLittleEndian(n, 4);
    LittleEndian(n, 4)
  }

  /** The `uint32_t` read from the first four bytes of s. */
  function ReadU32(s: bytes): (n: nat)
    requires |s| >= 4
    ensures n < 0x1_0000_0000
  {
    FromLittleEndian(s[..4])
  }

  /** The first four bytes of s are the image of the number read from them. */
  lemma U32OfReadU32(s: bytes)
    requires |s| >= 4
    ensures U32(ReadU32(s)) == s[..4]
  {
    LittleEndianOfFromLittleEndian(s[..4]);
  }

  /** Reading back the image of a 32-bit number gives the number. */
  lemma ReadU32OfU32(n: nat, rest: bytes)
    requires n < 0x1_0000_0000
    ensures ReadU32(U32(n) + rest) == n
  {
    assert (U32(n) + rest)[..4] == U32(n);
  }

  /** The bytes of an ASCII text, one per character. */
  function Ascii(s: string): (r: bytes)
    requires forall i :: 0 <= i < |s| ==> s[i] as int < 128
    ensures |r| == |s| && forall i :: 0 <= i < |s| ==> r[i] == s[i] as int
  {
    seq(|s|, i requires 0 <= i < |s| => s[i] as int)
  }

  /** Two's-complement image of a signed integer of `k` bytes. */
  function Signed(v: int, k: nat): (r: bytes)
    requires -(Pow256(k) as int) <= 2 * v < Pow256(k)
    ensures |r| == k
  {
    LittleEndian(if v < 0 then v + Pow256(k) else v, k)
  }

  /** The signed integer whose two's-complement image is s. */
  function ReadSigned(s: bytes): (v: int)
    ensures -(Pow256(|s|) as int) <= 2 * v < Pow256(|s|)
  {
    var n := FromLittleEndian(s);
    if 2 * n >= Pow256(|s|) then n - Pow256(|s|) else n
  }

  lemma ReadSignedOfSigned(v: int, k: nat)
    requires -(Pow256(k) as int) <= 2 * v < Pow256(k)
    ensures ReadSigned(Signed(v, k)) == v
  {
    FromLittleEndianOfLittleEndian(if v < 0 then v + Pow256(k) else v, k);
  }
}
