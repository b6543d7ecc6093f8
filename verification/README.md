# scrypt driver and rscrypt format, modelled in Dafny

This project models the Rust crate `scrypt` at the level of its `lib.rs`. That file
implements the scrypt key derivation function of RFC 7914 and the rscrypt password-hash
string format. The model covers four things:

- **The `scrypt` entry point.** It has the output-length gate and the buffer sizes derived
  from `ScryptParams`. It expands the password with PBKDF2 into `p` chunks of `r * 128`
  bytes, mixes each chunk in place with ROMix, and runs PBKDF2 again into the output.
  The chunk loop is a method with loop invariants, and `MixAll` is its reference
  definition. The model proves that each output chunk depends only on its own input chunk.
  It also proves that mixing the chunks in any order that names each chunk once gives the
  same buffer.
- **The parameter bytes of the rscrypt format.** Format `0` uses the compact 3-byte form
  `[log_n, r, p]`. Format `1` uses the 9-byte form `log_n ++ LE32(r) ++ LE32(p)`. The
  decoder's contract names the exact `(log_n, r, p)` it returns for each format. The model
  proves the encode/decode round trip in both directions. Decoding an encoding gives back
  the parameters. Bytes that decode are the encoding of the values they decode to.
- **`scrypt_simple`.** It writes
  `$rscrypt$<format>$<base64(params)>$<base64(salt)>$<base64(hash)>$`.
- **`scrypt_check`.** It splits that string on `$`, validates the fields, re-derives the key
  and compares it with the stored hash. The model proves several things about it:
  - it reports `InvalidFormat` exactly for strings that are not well formed;
  - everything it accepts splits into the seven pieces `["", "rscrypt", f, P, S, H, ""]`;
  - every string `scrypt_simple` produces passes it with the same password;
  - with another password it fails with `HashMismatch` exactly when the derived keys differ.

The collaborators the file calls but does not define are function values in the model.
Their types carry the one property the driver relies on:

- PBKDF2-HMAC-SHA256 (section 5.2 of RFC 8018) returns exactly the requested number of
  bytes.
- ROMix keeps the length of the chunk it rewrites.
- The base64 codec (section 4 of RFC 4648) decodes what it encoded, and its output never
  contains `$`.
- `ScryptParams::new` either keeps `(log_n, r, p)` unchanged or fails, and it never accepts
  `r = 0` or `p = 0`.

Integers are unbounded. Byte strings are `seq<uint8>`, and the rscrypt string is a `string`.

**The output-length gate is weaker than its comment.** The comment at
`scrypt/src/lib.rs:81` and section 6 of RFC 7914 bound the output length by
`(2^32 - 1) * 32`. The code at `scrypt/src/lib.rs:87` tests `len / 32 <= 0xffffffff`
instead, which admits every length up to `(2^32 - 1) * 32 + 31`. The model follows the
code (`Derivation.OutputLenAccepted`):

- The contract of `Derivation.OutputLenAccepted` gives the exact accepted range.
- `Derivation.OutputLenGateWiderThanRfc` proves that the gate accepts every length the
  documented bound admits.
- The same lemma proves that the gate also accepts the 31 lengths above that bound, and
  only those.

## Model

| member | source | states |
|---|---|---|
| LittleEndian.WriteU32 | scrypt/src/lib.rs:165-166 | a `u32` is written as four bytes, and reading them back gives the value |
| LittleEndian.ReadU32 | scrypt/src/lib.rs:216 | the `u32` read from four bytes has the first byte as its lowest byte and the last byte as its highest |
| LittleEndian.WriteReadU32 | scrypt/src/lib.rs:216 | every four-byte slice is the encoding of the `u32` read from it, so read and write are inverse bijections |
| Params.NewParams | scrypt/src/lib.rs:210-218 | the constructor returns the three values unchanged exactly when its check accepts them, and fails for `r = 0` or `p = 0` |
| Params.Pow2 | scrypt/src/lib.rs:93 | `n = 1 << log_n` is at least 1 |
| Split.SplitOn | scrypt/src/lib.rs:192 | `split('$')` yields one piece more than there are `$` characters, and no piece contains `$` |
| Split.JoinSplitOn | scrypt/src/lib.rs:192 | joining the pieces of a split with `$` gives back the original string |
| Split.SplitOnJoin | scrypt/src/lib.rs:192 | splitting pieces free of `$` joined with `$` gives back exactly those pieces |
| Chunks.Chunk | scrypt/src/lib.rs:104 | item `k` of `chunks_mut(size)` lies inside the buffer and has `size` bytes, and its byte `i` is byte `Offset(k, size) + i` of the buffer |
| Chunks.ReplaceChunk | scrypt/src/lib.rs:104-106 | writing through chunk `k` sets chunk `k` and leaves every byte outside it unchanged |
| Chunks.MixChunk | scrypt/src/lib.rs:105 | ROMix on chunk `k` changes only chunk `k`, which becomes ROMix of its old contents, and every other chunk is kept |
| Chunks.MixAllChunk | scrypt/src/lib.rs:104-106 | chunk `k` of the fully mixed buffer is ROMix of chunk `k` of the input, so each output chunk depends on its own chunk only |
| Chunks.MixChunksInPlace | scrypt/src/lib.rs:104-106 | the `chunks_mut` loop, which runs until the buffer is used up, processes exactly `count` full chunks, keeps the length and mixes each chunk independently |
| Chunks.ApplyInOrderChunks | scrypt/src/lib.rs:104-106 | after mixing chunks in a given order (none twice), a chunk is mixed if the order names it and untouched otherwise |
| Chunks.OrderIrrelevant | scrypt/src/lib.rs:104-106 | any order that names every chunk exactly once gives the same buffer as the sequential loop |
| Derivation.OutputLenAccepted | scrypt/src/lib.rs:87 | the gate `len > 0 && len / 32 <= 0xffffffff` accepts exactly the lengths 1 through `(2^32 - 1) * 32 + 31` |
| Derivation.OutputLenGateWiderThanRfc | scrypt/src/lib.rs:81-87 | every length within the documented bound passes, and the only extra lengths that pass are the 31 above it |
| Derivation.Len32Accepted | scrypt/src/lib.rs:146-149 | a 32-byte output always passes the gate, so the `expect` in `scrypt_simple` cannot fire |
| Derivation.BufferSizes | scrypt/src/lib.rs:93-96 | `n = 2^log_n` is at least 1, a chunk is `2r` 64-byte blocks (positive), `b` holds `p` chunks and `v` holds `n` chunks |
| Derivation.MixedBlock | scrypt/src/lib.rs:98-106 | the buffer after the chunk loop still has its `p * r * 128` bytes |
| Derivation.MixedBlockChunks | scrypt/src/lib.rs:98-106 | the PBKDF2 expansion has `p * r * 128` bytes, and chunk `k` after mixing is ROMix of chunk `k` of that expansion |
| Derivation.Scrypt | scrypt/src/lib.rs:82-110 | the result is `InvalidOutputLen` exactly when `len == 0` or `len / 32 > 0xffffffff`, and otherwise an output of exactly `len` bytes |
| Derivation.ScryptDerive | scrypt/src/lib.rs:82-110 | the method form with the chunk loop fails on the same lengths and agrees with the functional derivation |
| Rscrypt.EncodeParams | scrypt/src/lib.rs:154-168 | format `0` with `[log_n, r, p]` exactly when `r < 256` and `p < 256`, otherwise format `1` with 9 bytes holding `log_n` and little-endian `r` and `p` |
| Rscrypt.DecodeParams | scrypt/src/lib.rs:205-221 | an unknown format id, a byte count not matching the id (3 for `0`, 9 for `1`) or a refusing constructor gives `InvalidFormat`. An accepted decode returns `(pvec[0], pvec[1], pvec[2])` for format `0`. For format `1` it returns `pvec[0]` and the little-endian `u32`s in bytes 1-4 and 5-8 |
| Rscrypt.ParamsRoundTrip | scrypt/src/lib.rs:205-219 | decoding the format id and bytes `scrypt_simple` encodes recovers the parameters |
| Rscrypt.ParamsCanonical | scrypt/src/lib.rs:205-219 | bytes that decode re-encode to themselves, except that format `1` holding one-byte values re-encodes as format `0`. Format `1` bytes always equal `log_n` followed by the little-endian encodings of the `r` and `p` decoded from them |
| Rscrypt.DerivedKey | scrypt/src/lib.rs:145-149 | the key `scrypt_simple` stores is 32 bytes, and `scrypt` returns it without error |
| Rscrypt.ScryptSimple | scrypt/src/lib.rs:137-176 | the produced string splits on `$` into exactly the seven fields: empty, `rscrypt`, format id, then base64 of the parameters, salt and key, then empty |
| Rscrypt.Next | scrypt/src/lib.rs:195-235 | the `k`-th `next()` on the split iterator gives piece `k` while pieces remain, and `None` after that |
| Rscrypt.DecodeField | scrypt/src/lib.rs:224-229 | a field gives its bytes exactly when it is present and base64-decodes, and gives `InvalidFormat` otherwise |
| Rscrypt.ParseHash | scrypt/src/lib.rs:192-235 | a non-empty first piece, a tag other than `rscrypt`, a piece count other than 7 or a non-empty last piece is `InvalidFormat`, and an accepted string has the shape `["", "rscrypt", f, P, S, H, ""]` with `f` being `0` or `1` |
| Rscrypt.ParseHashIff | scrypt/src/lib.rs:192-235 | the validator accepts exactly the well-shaped strings whose fields decode, and returns what they decode to |
| Rscrypt.ScryptCheck | scrypt/src/lib.rs:189-250 | a format failure or a hash length refused by the gate is `InvalidFormat`, and `Ok` means the re-derived key equals the stored hash |
| Rscrypt.CheckFormatIff | scrypt/src/lib.rs:189-250 | `InvalidFormat` exactly for strings that are not well formed, and on well-formed ones `Ok` exactly when the re-derived key equals the stored hash |
| Rscrypt.ParseSimple | scrypt/src/lib.rs:153-173 | parsing a `scrypt_simple` string gives back its parameters, salt and derived key |
| Rscrypt.CheckAcceptsSimple | scrypt/src/lib.rs:137-250 | `scrypt_check` accepts what `scrypt_simple` produced for the same password |
| Rscrypt.CheckOtherPassword | scrypt/src/lib.rs:237-249 | with another password the check fails with `HashMismatch` exactly when the two derived keys differ |

## Left out

- ROMix, BlockMix and Salsa20/8 live in the `romix` module, which is not part of this model. ROMix is a caller-supplied function on one chunk and the cost `n`, and it keeps the chunk length. The chunk-independence results rest on two assumptions about it. First, its result depends only on the chunk and `n`. Second, it overwrites the shared scratch buffers `v` and `t` before it reads them, so nothing an earlier chunk left there has any effect. Those buffers are therefore not modelled.
- `ScryptParams::new` lives in the `params` module, which is not part of this model. It is a caller-supplied acceptance predicate, and the model assumes only that this predicate refuses `r = 0` and `p = 0`.
- PBKDF2-HMAC-SHA256 with one iteration is an external crate call. It is a caller-supplied function whose result has the requested length.
- Base64 comes from the `base64` crate. It is a caller-supplied codec that is assumed to round-trip and never to emit `$`.
- The `OsRng` salt generation and its `io::Error` path (lib.rs:140-143) are randomness and I/O. The 16 salt bytes are a parameter of `ScryptSimple`, and the failure path is not modelled.
- Only the result of `constant_time_eq` is modelled, as sequence equality. Its timing behaviour cannot be stated.
- Derivation.BufferSizes: sizes are unbounded integers. The `usize` overflow that `ScryptParams::new` is trusted to exclude, and the `1 << log_n` shift width, are not modelled.
- Heap allocation, allocation failure and the reuse of `v` and `t` across chunks are resource concerns, not functional behaviour.
- Passwords are modelled as their UTF-8 bytes (`str::as_bytes`), and UTF-8 encoding itself is not modelled.
