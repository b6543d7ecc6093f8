/** The `scrypt` entry point of lib.rs:82-110: the output-length gate, the
    buffer sizes derived from the parameters, PBKDF2 expansion into `p` chunks,
    ROMix on each chunk, and PBKDF2 again into the caller's output. */
module Derivation {
  import opened Types
  import opened Params
  import opened Primitives
  import opened Chunks

  /** The gate at lib.rs:87, as written: a positive length whose quotient by
      32 fits in a `u32`. It admits exactly the lengths 1 .. (2^32 - 1) * 32 + 31. */
  predicate OutputLenAccepted(len: nat): (ok: bool)
    ensures ok <==> 1 <= len <= U32_MAX * 32 + 31
  {
    len > 0 && len / 32 <= U32_MAX
  }

  /** The bound the doc comment at lib.rs:81 and section 5.2 of RFC 8018
      (via section 6 of RFC 7914) give: `0 < len <= (2^32 - 1) * 32`. */
  predicate RfcOutputLenAccepted(len: nat)
  {
    0 < len <= U32_MAX * 32
  }

  /** Every length the documented bound admits passes the gate, and the gate
      admits 31 lengths beyond it: the check is weaker than its comment. */
  lemma OutputLenGateWiderThanRfc()
    ensures forall len: nat :: RfcOutputLenAccepted(len) ==> OutputLenAccepted(len)
    ensures OutputLenAccepted(U32_MAX * 32 + 1) && !RfcOutputLenAccepted(U32_MAX * 32 + 1)
    ensures forall len: nat :: OutputLenAccepted(len) && !RfcOutputLenAccepted(len) ==>
      U32_MAX * 32 < len <= U32_MAX * 32 + 31
  {
  }

  /** A 32-byte output always passes the gate, which is why `scrypt_simple`
      can `expect` success (lib.rs:146-149). */
  lemma Len32Accepted()
    ensures OutputLenAccepted(32) && RfcOutputLenAccepted(32)
  {
  }

  /** The sizes computed at lib.rs:93-96: `n = 1 << log_n` blocks, `r128`
      bytes per chunk, `pr128` bytes in `b` and `nr128` bytes in `v`. */
  datatype Sizes = Sizes(n: nat, r128: nat, pr128: nat, nr128: nat)

  function BufferSizes(params: ValidParams): (s: Sizes)
    ensures s.r128 == 2 * params.r * 64 && s.r128 > 0
    ensures s.pr128 == params.p * s.r128 && s.pr128 > 0
    ensures s.nr128 == s.n * s.r128 && s.nr128 >= s.r128
    ensures s.n == Pow2(params.logN) && s.n >= 1
  {
    var n := Pow2(params.logN);
    var r128 := params.r * 128;
    Sizes(n, r128, params.p * r128, n * r128)
  }

  /** `b` after ROMix has mixed each of its `p` chunks (lib.rs:98-106). */
  function MixedBlock(password: seq<uint8>, salt: seq<uint8>, params: ValidParams, kdf: Kdf, romix: RoMix): (b: seq<uint8>)
    ensures |b| == params.p * (params.r * 128)
  {
    var s := BufferSizes(params);
    OffsetIsProduct(params.p, s.r128);
    MixAll(kdf(password, salt, s.pr128), params.p, s.r128, s.n, romix)
  }

  /** The working buffer holds `p` chunks of `r * 128` bytes, and chunk `k`
      after mixing is ROMix of chunk `k` of the PBKDF2 expansion. */
  lemma MixedBlockChunks(password: seq<uint8>, salt: seq<uint8>, params: ValidParams, kdf: Kdf, romix: RoMix, k: nat)
    requires k < params.p
    ensures |kdf(password, salt, BufferSizes(params).pr128)| == params.p * (params.r * 128)
    ensures |MixedBlock(password, salt, params, kdf, romix)| == params.p * (params.r * 128)
    ensures |kdf(password, salt, BufferSizes(params).pr128)| == Offset(params.p, BufferSizes(params).r128)
    ensures
      var s := BufferSizes(params);
      Chunk(MixedBlock(password, salt, params, kdf, romix), params.p, s.r128, k)
        == romix(Chunk(kdf(password, salt, s.pr128), params.p, s.r128, k), s.n)
  {
    var s := BufferSizes(params);
    OffsetIsProduct(params.p, s.r128);
    MixAllChunk(kdf(password, salt, s.pr128), params.p, s.r128, s.n, romix, k);
  }

  /** `scrypt(password, salt, params, output)` with an output buffer of `len`
      bytes: the filled buffer, or `InvalidOutputLen` from the gate. */
  function Scrypt(password: seq<uint8>, salt: seq<uint8>, params: ValidParams, len: nat, kdf: Kdf, romix: RoMix)
    : (res: Result<seq<uint8>, InvalidOutputLen>)
    ensures res.Err? <==> len == 0 || len / 32 > U32_MAX
    ensures res.Ok? ==> |res.value| == len
  {
    if !OutputLenAccepted(len) then Err(InvalidOutputLen)
    else Ok(kdf(password, MixedBlock(password, salt, params, kdf, romix), len))
  }

  /** The same derivation written as the method the source is, with the
      driver loop in place of its reference definition. */
  method ScryptDerive(password: seq<uint8>, salt: seq<uint8>, params: ValidParams, len: nat, kdf: Kdf, romix: RoMix)
    returns (res: Result<seq<uint8>, InvalidOutputLen>)
    ensures res.Err? <==> !OutputLenAccepted(len)
    ensures res.Ok? ==> |res.value| == len
    ensures res == Scrypt(password, salt, params, len, kdf, romix)
  {
    if !(len > 0 && len / 32 <= U32_MAX) {
      return Err(InvalidOutputLen);
    }
    var s := BufferSizes(params);
    var b := kdf(password, salt, s.pr128);
    OffsetIsProduct(params.p, s.r128);
    b := MixChunksInPlace(b, s.r128, s.n, romix, params.p);
    res := Ok(kdf(password, b, len));
  }
}
