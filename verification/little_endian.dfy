/** The two `byteorder::LittleEndian` operations the rscrypt format uses:
    writing a `u32` as four bytes, least significant first, and reading it back. */
module LittleEndian {
  import opened Types

  /** `LittleEndian::write_u32`: byte `i` holds bits `8i .. 8i + 7` of `x`. */
  function WriteU32(x: uint32): (b: seq<uint8>)
    ensures |b| == 4
    ensures ReadU32(b) == x
  {
    var q1 := x / 0x100;
    var q2 := q1 / 0x100;
    var q3 := q2 / 0x100;
    assert q2 == q3 * 0x100 + q2 % 0x100;
    assert q1 == q2 * 0x100 + q1 % 0x100;
    assert x == q1 * 0x100 + x % 0x100;
    [x % 0x100, q1 % 0x100, q2 % 0x100, q3]
  }

  /** `LittleEndian::read_u32` on a four-byte slice. */
  function ReadU32(b: seq<uint8>): (x: uint32)
    requires |b| == 4
    ensures x % 0x100 == b[0]
    ensures x / 0x100_0000 == b[3]
  {
    b[0] as int + 0x100 * (b[1] as int + 0x100 * (b[2] as int + 0x100 * b[3] as int))
  }

  /** Every four-byte sequence is the encoding of the value read from it, so
      `WriteU32` and `ReadU32` are mutually inverse bijections. */
  lemma WriteReadU32(b: seq<uint8>)
    requires |b| == 4
    ensures WriteU32(ReadU32(b)) == b
  {
    var x := ReadU32(b);
    assert x / 0x100 == b[1] as int + 0x100 * (b[2] as int + 0x100 * b[3] as int);
    assert x / 0x100 / 0x100 == b[2] as int + 0x100 * b[3] as int;
  }
}
