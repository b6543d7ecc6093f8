/** The rscrypt string format of lib.rs:112-250: `scrypt_simple` writes
    `$rscrypt$<format>$<base64(params)>$<base64(salt)>$<base64(hash)>$` and
    `scrypt_check` parses such a string and compares the hash. */
module Rscrypt {
  import opened Types
  import opened Params
  import opened Primitives
  import opened LittleEndian
  import opened Split
  import opened Derivation

  /** The collaborators the two helpers call: the base64 codec, PBKDF2, ROMix
      and the acceptance test of `ScryptParams::new`. */
  datatype Env = Env(base64: Base64, kdf: Kdf, romix: RoMix, accept: ParamsCheck)

  /** The format id and the parameter bytes `scrypt_simple` writes
      (lib.rs:154-168): format "0" with one byte each when `r` and `p` fit in a
      byte, otherwise format "1" with `r` and `p` as little-endian `u32`s. */
  function EncodeParams(params: ScryptParams): (enc: (string, seq<uint8>))
    ensures enc.0 == "0" <==> params.r < 256 && params.p < 256
    ensures enc.0 == "0" ==> enc.1 == [params.logN, params.r, params.p]
    ensures enc.0 != "0" ==>
      && enc.0 == "1" && |enc.1| == 9 && enc.1[0] == params.logN
      && ReadU32(enc.1[1..5]) == params.r && ReadU32(enc.1[5..9]) == params.p
  {
    if params.r < 256 && params.p < 256 then
      ("0", [params.logN, params.r as uint8, params.p as uint8])
    else
      var b := [params.logN] + WriteU32(params.r) + WriteU32(params.p);
      assert b[1..5] == WriteU32(params.r) && b[5..9] == WriteU32(params.p);
      ("1", b)
  }

  /** The `match fstr` of lib.rs:205-221: parameters from the format id and the
      decoded parameter bytes, through `ScryptParams::new`. */
  function DecodeParams(accept: ParamsCheck, format: string, pvec: seq<uint8>): (res: Result<ValidParams, CheckError>)
    ensures res.Err? ==> res.error == InvalidFormat
    ensures format != "0" && format != "1" ==> res.Err?
    ensures format == "0" && |pvec| != 3 ==> res.Err?
    ensures format == "1" && |pvec| != 9 ==> res.Err?
    ensures format == "0" && |pvec| == 3 ==>
      (res.Ok? <==> accept(pvec[0], pvec[1], pvec[2]))
    ensures format == "1" && |pvec| == 9 ==>
      (res.Ok? <==> accept(pvec[0], ReadU32(pvec[1..5]), ReadU32(pvec[5..9])))
    ensures res.Ok? ==> accept(res.value.logN, res.value.r, res.value.p)
    ensures format == "0" && res.Ok? ==> res.value == ScryptParams(pvec[0], pvec[1], pvec[2])
    ensures format == "1" && res.Ok? ==>
      res.value == ScryptParams(pvec[0], ReadU32(pvec[1..5]), ReadU32(pvec[5..9]))
  {
    var fields: Option<(uint8, uint32, uint32)> :=
      if format == "0" && |pvec| == 3 then Some((pvec[0], pvec[1] as uint32, pvec[2] as uint32))
      else if format == "1" && |pvec| == 9 then Some((pvec[0], ReadU32(pvec[1..5]), ReadU32(pvec[5..9])))
      else None;
    match fields
    case None => Err(InvalidFormat)
    case Some((logN, r, p)) =>
      match NewParams(accept, logN, r, p)
      case None => Err(InvalidFormat)
      case Some(params) => Ok(params)
  }

  /** Decoding what `scrypt_simple` encoded recovers the parameters, provided
      they are ones `ScryptParams::new` hands out. */
  lemma ParamsRoundTrip(accept: ParamsCheck, params: ValidParams)
    requires accept(params.logN, params.r, params.p)
    ensures DecodeParams(accept, EncodeParams(params).0, EncodeParams(params).1) == Ok(params)
  {
  }

  /** The other direction: parameter bytes that decode re-encode to the same
      format id and bytes, except that format "1" holding values that fit a
      byte is re-encoded in the compact format "0". */
  lemma ParamsCanonical(accept: ParamsCheck, format: string, pvec: seq<uint8>)
    requires DecodeParams(accept, format, pvec).Ok?
    ensures
      var params := DecodeParams(accept, format, pvec).value;
      (format == "0" || params.r >= 256 || params.p >= 256) <==> EncodeParams(params) == (format, pvec)
    ensures
      var params := DecodeParams(accept, format, pvec).value;
      format == "1" ==> [params.logN] + WriteU32(params.r) + WriteU32(params.p) == pvec
  {
    var params := DecodeParams(accept, format, pvec).value;
    if format == "1" {
      WriteReadU32(pvec[1..5]);
      WriteReadU32(pvec[5..9]);
      assert pvec == [pvec[0]] + pvec[1..5] + pvec[5..9];
    } else {
      assert pvec == [pvec[0], pvec[1], pvec[2]];
    }
  }

  /** The 256-bit key `scrypt_simple` derives (lib.rs:146-149); the `expect`
      there cannot fire because a 32-byte output passes the length gate. */
  function DerivedKey(password: seq<uint8>, params: ValidParams, salt: seq<uint8>, env: Env): (dk: seq<uint8>)
    ensures |dk| == 32
    ensures Scrypt(password, salt, params, 32, env.kdf, env.romix) == Ok(dk)
  {
    Scrypt(password, salt, params, 32, env.kdf, env.romix).value
  }

  /** The fields of an rscrypt string, in order, as splitting it on `$` finds them. */
  function Fields(password: seq<uint8>, params: ValidParams, salt: seq<uint8>, env: Env): seq<string>
  {
    var enc := EncodeParams(params);
    ["", "rscrypt", enc.0, env.base64.encode(enc.1), env.base64.encode(salt),
     env.base64.encode(DerivedKey(password, params, salt, env)), ""]
  }

  /** Seven pieces joined with `$`, written out left to right. */
  lemma JoinSeven(f: seq<string>)
    requires |f| == 7
    ensures Join(f, '$') == f[0] + "$" + f[1] + "$" + f[2] + "$" + f[3] + "$" + f[4] + "$" + f[5] + "$" + f[6]
  {
    assert Join(f[..1], '$') == f[0];
    forall k | 1 <= k < 7
      ensures Join(f[..k + 1], '$') == Join(f[..k], '$') + "$" + f[k]
    {
      assert f[..k + 1] == f[..k] + [f[k]];
      JoinSnoc(f[..k], f[k], '$');
    }
    assert f[..7] == f;
  }

  /** `scrypt_simple` (lib.rs:137-176) with the 16 salt bytes `OsRng` supplied. */
  function ScryptSimple(password: seq<uint8>, params: ValidParams, salt: seq<uint8>, env: Env): (hashed: string)
    requires |salt| == 16
    ensures SplitOn(hashed, '$') == Fields(password, params, salt, env)
    ensures |SplitOn(hashed, '$')| == 7
  {
    var enc := EncodeParams(params);
    var dk := DerivedKey(password, params, salt, env);
    var hashed := "$rscrypt$" + enc.0 + "$" + env.base64.encode(enc.1) + "$"
      + env.base64.encode(salt) + "$" + env.base64.encode(dk) + "$";
    var fields := Fields(password, params, salt, env);
    JoinSeven(fields);
    assert "$rscrypt$" == fields[0] + "$" + fields[1] + "$";
    assert Join(fields, '$') == hashed;
    assert '$' !in enc.0;
    assert forall i :: 0 <= i < |fields| ==> '$' !in fields[i];
    SplitOnJoin(fields, '$');
    hashed
  }

  /** What the `k`-th call of `next()` on the split iterator returns. */
  function Next(parts: seq<string>, k: nat): (field: Option<string>)
    ensures field.Some? <==> k < |parts|
    ensures field.Some? ==> field.value == parts[k]
  {
    if k < |parts| then Some(parts[k]) else None
  }

  /** A base64 field that must be present and must decode. */
  function DecodeField(env: Env, field: Option<string>): (res: Result<seq<uint8>, CheckError>)
    ensures res.Ok? <==> field.Some? && env.base64.decode(field.value).Some?
    ensures res.Ok? ==> env.base64.decode(field.value) == Some(res.value)
    ensures res.Err? ==> res.error == InvalidFormat
  {
    match field
    case None => Err(InvalidFormat)
    case Some(s) =>
      match env.base64.decode(s)
      case None => Err(InvalidFormat)
      case Some(bytes) => Ok(bytes)
  }

  /** What a well-formed rscrypt string carries. */
  datatype Parsed = Parsed(params: ValidParams, salt: seq<uint8>, hash: seq<uint8>)

  /** The format validation of `scrypt_check` (lib.rs:192-235): walk the `$`
      pieces, decode the three base64 fields and the parameters, and insist
      on an empty last piece with nothing after it. */
  function ParseHash(hashed: string, env: Env): (res: Result<Parsed, CheckError>)
    ensures res.Err? ==> res.error == InvalidFormat
    ensures SplitOn(hashed, '$')[0] != "" ==> res.Err?
    ensures var parts := SplitOn(hashed, '$');
      |parts| < 2 || parts[1] != "rscrypt" ==> res.Err?
    ensures |SplitOn(hashed, '$')| != 7 ==> res.Err?
    ensures var parts := SplitOn(hashed, '$');
      |parts| >= 7 && parts[6] != "" ==> res.Err?
    ensures var parts := SplitOn(hashed, '$');
      res.Ok? ==>
        && parts == ["", "rscrypt", parts[2], parts[3], parts[4], parts[5], ""]
        && (parts[2] == "0" || parts[2] == "1")
        && env.base64.decode(parts[4]) == Some(res.value.salt)
        && env.base64.decode(parts[5]) == Some(res.value.hash)
  {
    var parts := SplitOn(hashed, '$');
    if Next(parts, 0) != Some("") then Err(InvalidFormat)
    else if Next(parts, 1) != Some("rscrypt") then Err(InvalidFormat)
    else if Next(parts, 2).None? then Err(InvalidFormat)
    else
      var format := parts[2];
      var pvec :- DecodeField(env, Next(parts, 3));
      var params :- DecodeParams(env.accept, format, pvec);
      var salt :- DecodeField(env, Next(parts, 4));
      var hash :- DecodeField(env, Next(parts, 5));
      if Next(parts, 6) != Some("") then Err(InvalidFormat)
      else if Next(parts, 7) != None then Err(InvalidFormat)
      else Ok(Parsed(params, salt, hash))
  }

  /** `scrypt_check` (lib.rs:189-250): `Ok(())` when `hashed` is a well-formed
      rscrypt string whose hash is the one `password` derives, `HashMismatch`
      when it is well-formed but the hash differs, `InvalidFormat` otherwise.
      `constant_time_eq` is plain equality here. */
  function ScryptCheck(password: seq<uint8>, hashed: string, env: Env): (res: Result<(), CheckError>)
    ensures ParseHash(hashed, env).Err? ==> res == Err(InvalidFormat)
    ensures res != Err(InvalidFormat) ==> |SplitOn(hashed, '$')| == 7
    ensures res != Err(InvalidFormat) ==> OutputLenAccepted(|ParseHash(hashed, env).value.hash|)
    ensures res == Ok(()) ==>
      var p := ParseHash(hashed, env).value;
      Scrypt(password, p.salt, p.params, |p.hash|, env.kdf, env.romix) == Ok(p.hash)
  {
    var p :- ParseHash(hashed, env);
    match Scrypt(password, p.salt, p.params, |p.hash|, env.kdf, env.romix)
    case Err(_) => Err(InvalidFormat)
    case Ok(output) => if output == p.hash then Ok(()) else Err(HashMismatch)
  }

  /** Seven `$` pieces: empty, the tag `rscrypt`, four fields, empty. */
  ghost predicate WellShaped(parts: seq<string>)
  {
    |parts| == 7 && parts[0] == "" && parts[1] == "rscrypt" && parts[6] == ""
  }

  /** The three base64 fields decode and the parameters are accepted. */
  ghost predicate FieldsDecode(parts: seq<string>, env: Env)
    requires |parts| == 7
  {
    && (forall k :: 3 <= k < 6 ==> env.base64.decode(parts[k]).Some?)
    && DecodeParams(env.accept, parts[2], env.base64.decode(parts[3]).value).Ok?
  }

  /** What those fields decode to. */
  ghost function Decoded(parts: seq<string>, env: Env): Parsed
    requires |parts| == 7 && FieldsDecode(parts, env)
  {
    Parsed(DecodeParams(env.accept, parts[2], env.base64.decode(parts[3]).value).value,
           env.base64.decode(parts[4]).value, env.base64.decode(parts[5]).value)
  }

  /** On a well-shaped string the validator's verdict rests on the fields. */
  lemma ParseWellShaped(hashed: string, env: Env)
    requires WellShaped(SplitOn(hashed, '$'))
    ensures var parts := SplitOn(hashed, '$');
      ParseHash(hashed, env) == if FieldsDecode(parts, env) then Ok(Decoded(parts, env)) else Err(InvalidFormat)
  {
    var parts := SplitOn(hashed, '$');
    assert Next(parts, 0) == Some("") && Next(parts, 1) == Some("rscrypt");
    assert Next(parts, 6) == Some("") && Next(parts, 7) == None;
    assert Next(parts, 3) == Some(parts[3]);
    assert Next(parts, 4) == Some(parts[4]);
    assert Next(parts, 5) == Some(parts[5]);
  }

  /** The validator accepts exactly the well-shaped strings whose fields
      decode, and returns what they decode to. */
  lemma ParseHashIff(hashed: string, env: Env)
    ensures var parts := SplitOn(hashed, '$');
      ParseHash(hashed, env).Ok? <==> WellShaped(parts) && FieldsDecode(parts, env)
    ensures var parts := SplitOn(hashed, '$');
      ParseHash(hashed, env).Ok? ==> ParseHash(hashed, env).value == Decoded(parts, env)
  {
    if WellShaped(SplitOn(hashed, '$')) {
      ParseWellShaped(hashed, env);
    }
  }

  /** A well-formed rscrypt string: well shaped, fields that decode, and a
      hash whose length passes the output-length gate. */
  ghost predicate WellFormed(hashed: string, env: Env)
  {
    var parts := SplitOn(hashed, '$');
    && WellShaped(parts)
    && FieldsDecode(parts, env)
    && OutputLenAccepted(|Decoded(parts, env).hash|)
  }

  /** `scrypt_check` reports `InvalidFormat` exactly for strings that are not
      well-formed; on a well-formed string it accepts exactly when the key
      derived from the stored salt and parameters equals the stored hash. */
  lemma CheckFormatIff(password: seq<uint8>, hashed: string, env: Env)
    ensures ScryptCheck(password, hashed, env) == Err(InvalidFormat) <==> !WellFormed(hashed, env)
    ensures WellFormed(hashed, env) ==>
      var p := Decoded(SplitOn(hashed, '$'), env);
      (ScryptCheck(password, hashed, env) == Ok(()) <==>
        Scrypt(password, p.salt, p.params, |p.hash|, env.kdf, env.romix) == Ok(p.hash))
  {
    ParseHashIff(hashed, env);
  }

  /** Parsing a string `scrypt_simple` produced gives back its parameters,
      its salt and the derived key. */
  lemma ParseSimple(password: seq<uint8>, params: ValidParams, salt: seq<uint8>, env: Env)
    requires |salt| == 16
    requires env.accept(params.logN, params.r, params.p)
    ensures ParseHash(ScryptSimple(password, params, salt, env), env)
      == Ok(Parsed(params, salt, DerivedKey(password, params, salt, env)))
  {
    ParamsRoundTrip(env.accept, params);
    var parts := SplitOn(ScryptSimple(password, params, salt, env), '$');
    assert parts == Fields(password, params, salt, env);
    assert DecodeField(env, Next(parts, 3)) == Ok(EncodeParams(params).1);
    assert DecodeField(env, Next(parts, 4)) == Ok(salt);
    assert DecodeField(env, Next(parts, 5)) == Ok(DerivedKey(password, params, salt, env));
  }

  /** A string `scrypt_simple` produced passes `scrypt_check` with the same
      password: the two helpers agree on the format. */
  lemma CheckAcceptsSimple(password: seq<uint8>, params: ValidParams, salt: seq<uint8>, env: Env)
    requires |salt| == 16
    requires env.accept(params.logN, params.r, params.p)
    ensures ScryptCheck(password, ScryptSimple(password, params, salt, env), env) == Ok(())
  {
    ParseSimple(password, params, salt, env);
  }

  /** With another password the check fails with `HashMismatch` exactly when
      the two passwords derive different keys under the stored salt. */
  lemma CheckOtherPassword(password: seq<uint8>, other: seq<uint8>, params: ValidParams, salt: seq<uint8>, env: Env)
    requires |salt| == 16
    requires env.accept(params.logN, params.r, params.p)
    ensures ScryptCheck(other, ScryptSimple(password, params, salt, env), env)
      == if DerivedKey(other, params, salt, env) == DerivedKey(password, params, salt, env)
         then Ok(()) else Err(HashMismatch)
  {
    ParseSimple(password, params, salt, env);
  }
}
