/** The `OTP` façade: creation by type, verification of a candidate code
    against the code regenerated for a time step, and random secret strings.

    The HOTP and TOTP generators (`HOTP.create`, `TOTP.create`) are not part
    of this model: they are parameters that may fail. So is the Base32 decoder
    of the secret. The time step `t` is a parameter in place of the clock. */
module Otp {
  import opened JavaTypes
  import opened Wrappers
  import Hex
  import opened MovingFactor

  /** `OTP.Type`; a `null` type is `None` where the façade takes an `Option<OtpType>`. */
  datatype OtpType = HOTP | TOTP

  /** The exceptions that surface from the façade. */
  datatype OtpError =
    | BadOperation     // `BadOperationException`: the type is not recognised
    | IllegalArgument  // `IllegalArgumentException` from `nextInt(0)`
    | GeneratorFailure // any exception the HOTP or TOTP generator throws

  /** A code generator: `create(key, base, digits)` with the key and the
      moving factor both as hexadecimal text. */
  type Generator = (string, string, int32) -> Result<string, OtpError>

  datatype Generators = Generators(hotp: Generator, totp: Generator)

  /** `new Base32().decode(secret)`; `None` when decoding yields nothing usable. */
  type Base32Decoder = string -> Option<seq<byte>>

  /** `OTP.BYTES`: the default length of a random string, 160 bits' worth. */
  const BYTES: nat := 20

  function CreateHOTP(g: Generators, key: string, base: string, digits: int32): (r: Result<string, OtpError>) {
    g.hotp(key, base, digits)
  }

  function CreateTOTP(g: Generators, key: string, base: string, digits: int32): (r: Result<string, OtpError>) {
    g.totp(key, base, digits)
  }

  /** `OTP.create`: dispatch on the type; an unrecognised type is an error. */
  function Create(g: Generators, key: string, base: string, digits: int32, otpType: Option<OtpType>)
    : (r: Result<string, OtpError>)
    ensures otpType == Some(HOTP) ==> r == CreateHOTP(g, key, base, digits)
    ensures otpType == Some(TOTP) ==> r == CreateTOTP(g, key, base, digits)
    ensures otpType.None? ==> r == Failure(BadOperation)
  {
    if otpType == Some(HOTP) then CreateHOTP(g, key, base, digits)
    else if otpType == Some(TOTP) then CreateTOTP(g, key, base, digits)
    else Failure(BadOperation)
  }

  /** The verification decision: the candidate is not `null`, the secret
      decodes, the generator succeeds on the hexadecimal key and the moving
      factor `base`, and its code equals the candidate. */
  predicate Accepts(gen: Generator, decode: Base32Decoder, secret: string, code: Option<string>,
                    digits: int32, base: string)
  {
    code.Some? && decode(secret).Some? &&
    gen(Hex.Encode(decode(secret).value), base, digits) == Success(code.value)
  }

  /** The body the two verify methods share: serialise the step, bridge the
      secret from Base32 to hexadecimal, regenerate, compare. Every failure
      along the way, a `null` candidate included, is answered with `false`. */
  method VerifyAt(gen: Generator, decode: Base32Decoder, secret: string, code: Option<string>,
                  digits: int32, t: int64) returns (valid: bool)
    ensures valid <==> Accepts(gen, decode, secret, code, digits, MovingFactorHex(t))
  {
    var longBytes := WriteLong(t);
    var base := Hex.Encode(longBytes);
    var bytes := decode(secret);
    if bytes.None? {
      return false;
    }
    var key := Hex.Encode(bytes.value);
    var ncode := gen(key, base, digits);
    if ncode.Failure? {
      return false;
    }
    if code.None? {
      return false;  // `code.equals(ncode)` on a null `code`
    }
    valid := code.value == ncode.value;
  }

  /** `OTP.verifyHOTP`: like `verifyTOTP` it derives the moving factor from
      the time step `t`; it takes no counter from its caller. */
  method VerifyHOTP(g: Generators, decode: Base32Decoder, secret: string, code: Option<string>,
                    digits: int32, t: int64) returns (valid: bool)
    ensures valid <==> Accepts(g.hotp, decode, secret, code, digits, MovingFactorHex(t))
  {
    valid := VerifyAt(g.hotp, decode, secret, code, digits, t);
  }

  /** `OTP.verifyTOTP`. */
  method VerifyTOTP(g: Generators, decode: Base32Decoder, secret: string, code: Option<string>,
                    digits: int32, t: int64) returns (valid: bool)
    ensures valid <==> Accepts(g.totp, decode, secret, code, digits, MovingFactorHex(t))
  {
    valid := VerifyAt(g.totp, decode, secret, code, digits, t);
  }

  /** A code is accepted exactly when it is the code `createTOTP` produces
      from the hexadecimal key and the serialised step. */
  lemma AcceptsIffCreateTOTP(g: Generators, decode: Base32Decoder, secret: string, code: string,
                             digits: int32, t: int64)
    ensures Accepts(g.totp, decode, secret, Some(code), digits, MovingFactorHex(t)) <==>
            exists bytes :: decode(secret) == Some(bytes) &&
              CreateTOTP(g, Hex.Encode(bytes), Hex.Encode(LongBytes(t)), digits) == Success(code)
  {
  }

  /** The same for `verifyHOTP` and `createHOTP`. */
  lemma AcceptsIffCreateHOTP(g: Generators, decode: Base32Decoder, secret: string, code: string,
                             digits: int32, t: int64)
    ensures Accepts(g.hotp, decode, secret, Some(code), digits, MovingFactorHex(t)) <==>
            exists bytes :: decode(secret) == Some(bytes) &&
              CreateHOTP(g, Hex.Encode(bytes), Hex.Encode(LongBytes(t)), digits) == Success(code)
  {
  }

  /** Verification never fails loudly: a `null` candidate, a secret that does
      not decode, or a failing generator all give `false`. */
  lemma FailuresReject(gen: Generator, decode: Base32Decoder, secret: string, code: Option<string>,
                       digits: int32, base: string)
    requires code.None? || decode(secret).None? ||
             gen(Hex.Encode(decode(secret).value), base, digits).Failure?
    ensures !Accepts(gen, decode, secret, code, digits, base)
  {
  }

  /** At most one candidate is accepted for a given secret, step and length,
      so any change to an accepted code, one digit or more, is rejected. */
  lemma AcceptsAtMostOne(gen: Generator, decode: Base32Decoder, secret: string,
                         code1: string, code2: string, digits: int32, base: string)
    requires Accepts(gen, decode, secret, Some(code1), digits, base)
    requires code1 != code2
    ensures !Accepts(gen, decode, secret, Some(code2), digits, base)
  {
  }

  /** The key and the moving factor the generator receives carry the decoded
      secret and the step `t` without loss. */
  lemma GeneratorInputsLossless(decode: Base32Decoder, secret: string, t: int64)
    requires decode(secret).Some?
    ensures Hex.Decode(Hex.Encode(decode(secret).value)) == decode(secret)
    ensures Hex.Decode(MovingFactorHex(t)).Some? && |Hex.Decode(MovingFactorHex(t)).value| == 8
    ensures ReadLong(Hex.Decode(MovingFactorHex(t)).value) == t
  {
    Hex.DecodeEncode(decode(secret).value);
    MovingFactorHexRoundTrip(t);
  }

  /** The contracts of `VerifyHOTP` and `VerifyTOTP` both use the same
      `MovingFactorHex(t)`, so when the two generators agree the two verdicts
      agree too. */
  lemma VerifyHOTPIsTimeBased(g: Generators, decode: Base32Decoder, secret: string,
                              code: Option<string>, digits: int32, t: int64)
    requires forall key, base, d :: g.hotp(key, base, d) == g.totp(key, base, d)
    ensures Accepts(g.hotp, decode, secret, code, digits, MovingFactorHex(t)) ==
            Accepts(g.totp, decode, secret, code, digits, MovingFactorHex(t))
  {
  }

  /** `OTP.random`: `length` characters drawn from `characters`, twenty when
      `length < 1`. `SecureRandom.nextInt` is a nondeterministic choice of an
      index; on an empty alphabet the first draw throws. */
  method Random(characters: string, length: int32) returns (r: Result<string, OtpError>)
    ensures r.Failure? <==> |characters| == 0
    ensures r.Failure? ==> r.error == IllegalArgument
    ensures r.Success? ==> |r.value| == (if length < 1 then BYTES else length as int)
    ensures r.Success? ==> forall i :: 0 <= i < |r.value| ==> r.value[i] in characters
  {
    var n: nat := if length < 1 then BYTES else length as int;
    var text := new char[n];
    for i := 0 to n
      invariant i > 0 ==> |characters| > 0
      invariant forall j :: 0 <= j < i ==> text[j] in characters
    {
      if |characters| == 0 {
        return Failure(IllegalArgument);  // `nextInt(0)`
      }
      var k :| 0 <= k < |characters|;
      text[i] := characters[k];
    }
    r := Success(text[..]);
  }

  /** `OTP.randomHex`: `length` random bytes, twenty when `length < 1`, as
      lower-case hexadecimal, so twice as many characters. */
  method RandomHex(length: int32) returns (s: string)
    ensures |s| == 2 * (if length < 1 then BYTES else length as int)
    ensures Hex.IsLowerHex(s)
    ensures Hex.Decode(s).Some? && |Hex.Decode(s).value| == (if length < 1 then BYTES else length as int)
  {
    var n: nat := if length < 1 then BYTES else length as int;
    assert |seq(n, _ => 0 as byte)| == n;
    var bytes: seq<byte> :| |bytes| == n;  // `random.nextBytes(bytes)`
    s := Hex.Encode(bytes);
    Hex.DecodeEncode(bytes);
  }

  /** `OTP.randomBase32`: `length` random bytes, twenty when `length < 1`,
      passed through the Base32 encoder, here a parameter. */
  method RandomBase32(length: int32, encode: seq<byte> -> string) returns (s: string)
    ensures exists bytes: seq<byte> ::
      |bytes| == (if length < 1 then BYTES else length as int) && s == encode(bytes)
  {
    var n: nat := if length < 1 then BYTES else length as int;
    assert |seq(n, _ => 0 as byte)| == n;
    var bytes: seq<byte> :| |bytes| == n;  // `random.nextBytes(bytes)`
    s := encode(bytes);
  }
}
