/** Byte strings, and the four-byte big-endian unsigned integer that
    `struct.pack('>I', n)` writes. */
module Bytes {
  import opened Wrappers

  type Byte = b: int | 0 <= b < 256

  const Uint32Limit: nat := 0x1_0000_0000

  /** `struct.pack('>I', n)`: None when `n` does not fit in 32 bits (the
      call raises `struct.error`). */
  function PackUint32(n: nat): (r: Option<seq<Byte>>)
    ensures r.Some? <==> n < Uint32Limit
    ensures r.Some? ==> |r.value| == 4
  {
    if n >= Uint32Limit then None
    else Some([n / 0x100_0000, n / 0x1_0000 % 256, n / 0x100 % 256, n % 256])
  }

  /** `struct.unpack('>I', b)[0]`. */
  function UnpackUint32(b: seq<Byte>): (r: nat)
    requires |b| == 4
    ensures r < Uint32Limit
  {
    ((b[0] as int * 256 + b[1] as int) * 256 + b[2] as int) * 256 + b[3] as int
  }

  /** Unpacking reads back what was packed. */
  lemma UnpackPack(n: nat)
    requires n < Uint32Limit
    ensures UnpackUint32(PackUint32(n).value) == n
  {
    assert n / 0x100 == (n / 0x1_0000) * 256 + n / 0x100 % 256;
    assert n / 0x1_0000 == (n / 0x100_0000) * 256 + n / 0x1_0000 % 256;
    assert n == (n / 0x100) * 256 + n % 256;
  }
}
