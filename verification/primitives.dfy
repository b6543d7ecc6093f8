/** The collaborators `scrypt` calls but does not define: PBKDF2-HMAC-SHA256,
    the ROMix mixing function, and the base64 codec. Each is a function value
    supplied by the caller; the one property the driver code relies on is its
    type's constraint. */
module Primitives {
  import opened Types

  /** PBKDF2-HMAC-SHA256 with one iteration, `(password, salt, len)`: it fills
      an output buffer of `len` bytes, so its result has exactly that length. */
  type Kdf = f: (seq<uint8>, seq<uint8>, nat) -> seq<uint8>
    | forall password, salt, len :: |f(password, salt, len)| == len
    witness (password: seq<uint8>, salt: seq<uint8>, len: nat) => seq(len, _ => 0 as uint8)

  /** ROMix on one `r * 128`-byte chunk with cost `n`. It mixes the chunk in
      place, so the result has the chunk's length. */
  type RoMix = f: (seq<uint8>, nat) -> seq<uint8>
    | forall chunk, n :: |f(chunk, n)| == |chunk|
    witness (chunk: seq<uint8>, n: nat) => chunk

  datatype Base64Codec = Base64Codec(encode: seq<uint8> -> string, decode: string -> Option<seq<uint8>>)

  /** A base64 codec whose decoder inverts its encoder and whose output never
      contains the `$` that separates the fields of an rscrypt hash. */
  type Base64 = c: Base64Codec
    | forall x :: c.decode(c.encode(x)) == Some(x) && '$' !in c.encode(x)
    witness Base64Codec(ShiftEncode, ShiftDecode)

  /** Maps byte `b` to the character `U+0100 + b`. Used only to show that a
      codec with the assumed properties exists. */
  function ShiftEncode(x: seq<uint8>): (s: string)
    ensures ShiftDecode(s) == Some(x)
    ensures '$' !in s
  {
    var s := seq(|x|, i requires 0 <= i < |x| => (x[i] as int + 0x100) as char);
    assert forall i :: 0 <= i < |s| ==> 0x100 <= s[i] as int < 0x200;
    assert ShiftDecode(s).value == x;
    assert '$' !in s by {
      forall i | 0 <= i < |s| ensures s[i] != '$' {
        assert s[i] as int >= 0x100;
      }
    }
    s
  }

  /** The inverse of `ShiftEncode`; anything else is rejected. */
  function ShiftDecode(s: string): (r: Option<seq<uint8>>)
    ensures r.Some? ==> |r.value| == |s|
  {
    if forall i :: 0 <= i < |s| ==> 0x100 <= s[i] as int < 0x200 then
      Some(seq(|s|, i requires 0 <= i < |s| => (s[i] as int - 0x100) as uint8))
    else
      None
  }
}
