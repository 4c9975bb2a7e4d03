# jotp `OTP` façade in Dafny

This project models `org.amdelamar.jotp.OTP`, the public entry point of a
one-time-password library for HOTP (RFC 4226) and TOTP (RFC 6238). It covers
four things:

- **Creation by type.** `create(key, base, digits, type)` hands HOTP to the
  HOTP generator and TOTP to the TOTP generator. Any other type raises
  `BadOperationException`. Java allows only one other value here: `null`.
- **The moving factor.** The verify methods write the time step `t`, a Java
  `long`, with `DataOutputStream.writeLong`. That gives eight big-endian
  two's-complement bytes. `Hex.encodeHexString` then turns those bytes into 16
  lower-case hexadecimal characters. This is the 8-byte counter of section 5.2
  of RFC 4226.
- **The verification decision.** `verifyHOTP` and `verifyTOTP` Base32-decode
  the secret and re-encode it as hexadecimal. They regenerate the code for the
  serialised step and compare it to the candidate with `String.equals`. Every
  exception becomes `false`. That includes a `null` candidate, which makes
  `code.equals` throw.
- **Random strings.** `random`, `randomHex` and `randomBase32` use 20
  (`BYTES`) as the length whenever `length < 1`. `random` picks every
  character from the alphabet it is given.

The modules are:

- `Wrappers`: `Option` and `Result`.
- `JavaTypes`: `int32`, `int64` and `byte`.
- `Hex`: `Hex.encodeHexString`, plus a reference decoder used to state the
  round trips.
- `MovingFactor`: `writeLong` as a loop over an eight-byte array, with its
  specification and read-back.
- `Otp`: the façade itself.

Some inputs are parameters rather than parts of the model:

- The HOTP and TOTP generators (`HOTP.create`, `TOTP.create`) are
  function-valued parameters that may fail. Their HMAC-SHA1 truncation is not
  part of this model.
- The Base32 decoder of the secret is a partial-function parameter.
- The time step `t` is a parameter. The clock is not read.
- `SecureRandom` is a nondeterministic choice.
- A Java `null` is `None` wherever the model allows one: the candidate code
  and the OTP type.

The code departs from the standards it cites on two points. The model
follows the code on both.

- Section 5.2 of RFC 4226 treats the counter C as an unsigned 8-byte value.
  `writeLong` at OTP.java:157 writes a signed `long` in two's complement. The
  model does the same, and `SignInFirstByte` shows where the sign ends up.
- The Javadoc of `verifyHOTP` (OTP.java:149) cites RFC 4226, whose counter is
  tracked by the caller. Line 154 instead derives `t` from the clock, exactly
  as `verifyTOTP` does at line 194. `VerifyHOTP` therefore takes the time step
  and no counter. Its contract and `VerifyTOTP`'s both use the same
  `MovingFactorHex(t)`.

## Model

| member | source | states |
|---|---|---|
| `Otp.Create` | src/main/java/org/amdelamar/jotp/OTP.java:90-138 | the HOTP type gives exactly `createHOTP`'s result, the TOTP type exactly `createTOTP`'s, and a `null` type fails with `BadOperation`; `CreateHOTP` and `CreateTOTP` (lines 117-138) are its two targets and pass their arguments straight to the generators |
| `MovingFactor.WriteLong` | src/main/java/org/amdelamar/jotp/OTP.java:155-159 | the buffer filled byte by byte with `t >>> (56 - 8i)` is the eight-byte big-endian two's-complement form of `t`, and reading it back gives `t` |
| `MovingFactor.Unsigned` | src/main/java/org/amdelamar/jotp/OTP.java:157 | the 64-bit pattern of a long is below 2^64 and is below 2^63 exactly when the long is non-negative |
| `MovingFactor.BigEndianAt` | src/main/java/org/amdelamar/jotp/OTP.java:157 | byte `i` of an `n`-byte big-endian form is the base-256 digit of weight 256^(n-1-i), so the first byte written is the most significant one |
| `MovingFactor.FromBigEndianBigEndian` | src/main/java/org/amdelamar/jotp/OTP.java:157 | reading the big-endian form of any number below 256^n gives that number back |
| `MovingFactor.BigEndianFromBigEndian` | src/main/java/org/amdelamar/jotp/OTP.java:157 | every byte string is the big-endian form of the number it denotes |
| `MovingFactor.ReadLongBytes` | src/main/java/org/amdelamar/jotp/OTP.java:155-159 | reading the eight written bytes as a big-endian two's-complement long recovers `t`, negative values included |
| `MovingFactor.LongBytesReadLong` | src/main/java/org/amdelamar/jotp/OTP.java:155-159 | every eight-byte string is what `writeLong` emits for the long it reads as, so the serialisation is a bijection |
| `MovingFactor.SignInFirstByte` | src/main/java/org/amdelamar/jotp/OTP.java:157 | `t` is negative exactly when the first byte written has its top bit set |
| `MovingFactor.MovingFactorHex` | src/main/java/org/amdelamar/jotp/OTP.java:155-160 | for every long `t` the moving factor is exactly 16 characters, each in `0-9a-f` |
| `MovingFactor.MovingFactorHexRoundTrip` | src/main/java/org/amdelamar/jotp/OTP.java:155-160 | decoding the 16-character moving factor gives the eight written bytes, and those read back as `t` |
| `MovingFactor.MovingFactorHexInjective` | src/main/java/org/amdelamar/jotp/OTP.java:155-160 | distinct time steps give distinct moving factors |
| `MovingFactor.MovingFactorHexOfOne` | src/main/java/org/amdelamar/jotp/OTP.java:155-160 | step 1 (Unix time 59 in a 30-second window) serialises as `0000000000000001` |
| `MovingFactor.MovingFactorHexOfMinusOne` | src/main/java/org/amdelamar/jotp/OTP.java:155-160 | step -1 serialises as `ffffffffffffffff` |
| `Hex.Encode` | src/main/java/org/amdelamar/jotp/OTP.java:160 | the hexadecimal text of `n` bytes has `2n` characters, all lower-case hexadecimal digits |
| `Hex.DecodeEncode` | src/main/java/org/amdelamar/jotp/OTP.java:164 | decoding the encoder's output gives the original bytes |
| `Hex.EncodeDecode` | src/main/java/org/amdelamar/jotp/OTP.java:164 | lower-case hexadecimal text that decodes is exactly the encoding of the bytes it decodes to |
| `Hex.EncodeInjective` | src/main/java/org/amdelamar/jotp/OTP.java:164 | distinct byte strings have distinct hexadecimal encodings |
| `Otp.VerifyAt` | src/main/java/org/amdelamar/jotp/OTP.java:152-177 | the result is true exactly when the candidate is non-null, the secret decodes, and the generator, given the hex key and the serialised step, returns that very code; every failure gives false |
| `Otp.VerifyHOTP` | src/main/java/org/amdelamar/jotp/OTP.java:151-178 | true exactly when the candidate equals the code the HOTP generator produces for the hex of the decoded secret and the serialised time step, which is the same moving factor `verifyTOTP` uses; no counter is taken |
| `Otp.VerifyTOTP` | src/main/java/org/amdelamar/jotp/OTP.java:191-218 | true exactly when the candidate equals the code the TOTP generator produces for the hex of the decoded secret and the serialised time step |
| `Otp.AcceptsIffCreateTOTP` | src/main/java/org/amdelamar/jotp/OTP.java:203-212 | a code is accepted by `verifyTOTP` if and only if some decoded secret makes `createTOTP(hex(secret), hex(be8(t)), digits)` produce that code |
| `Otp.AcceptsIffCreateHOTP` | src/main/java/org/amdelamar/jotp/OTP.java:163-172 | a code is accepted by `verifyHOTP` if and only if some decoded secret makes `createHOTP(hex(secret), hex(be8(t)), digits)` produce that code |
| `Otp.FailuresReject` | src/main/java/org/amdelamar/jotp/OTP.java:169-177 | a null candidate, a secret that does not decode, or a failing generator each give false, never an error |
| `Otp.AcceptsAtMostOne` | src/main/java/org/amdelamar/jotp/OTP.java:206-212 | at most one candidate is accepted for a given secret, step and length, so any altered code is rejected |
| `Otp.GeneratorInputsLossless` | src/main/java/org/amdelamar/jotp/OTP.java:194-204 | the hex key the generator receives decodes back to the Base32-decoded secret, and the moving factor it receives decodes to eight bytes that read back as `t` |
| `Otp.VerifyHOTPIsTimeBased` | src/main/java/org/amdelamar/jotp/OTP.java:154-166 | when the two generators agree, `verifyHOTP` and `verifyTOTP` give the same verdict for the same step, because both contracts use the same `MovingFactorHex(t)` |
| `Otp.Random` | src/main/java/org/amdelamar/jotp/OTP.java:28-37 | fails with `IllegalArgument` exactly when the alphabet is empty; otherwise returns `length < 1 ? 20 : length` characters, each taken from the alphabet |
| `Otp.RandomHex` | src/main/java/org/amdelamar/jotp/OTP.java:63-71 | returns twice `length < 1 ? 20 : length` lower-case hexadecimal characters that decode to that many bytes |
| `Otp.RandomBase32` | src/main/java/org/amdelamar/jotp/OTP.java:46-54 | returns the Base32 encoding of `length < 1 ? 20 : length` bytes |

## Left out

- The HMAC-SHA1 computation and dynamic truncation of `HOTP.create` and `TOTP.create`: those classes are not part of this model. The generators are parameters, so nothing is stated about code length, digits or the test vectors of RFC 4226 and RFC 6238.
- The clock read and the `double` division with `Math.round` and `Math.floor` that compute `t` (lines 154 and 194): these are wall-clock time and floating point. The step `t` is a parameter.
- Apache Commons `Base32` decoding (padding, case, leniency): this is foreign library behaviour. The decoder is a partial-function parameter. A `null` secret is whatever that decoder answers, and `None` stands for the exception a `null` result causes in `Hex.encodeHexString`.
- `SecureRandom`: each draw is a nondeterministic choice, so nothing is said about uniformity.
- RandomBase32: does not state the output length, because that depends on the Base32 encoder's padding. The encoder is a parameter.
- `e.printStackTrace()` in the verify methods: this is console output.
- Constant-time comparison: the code compares with `String.equals`, and so does the model.
- A generator that returns `null`: `code.equals(null)` is false, which is the same verdict the model gives for a failing generator.
- A `null` alphabet in `random`: line 34 dereferences it and throws `NullPointerException`. Strings in the model are never `null`, except the candidate code.
- A `null` key or base in `create`, `createHOTP` or `createTOTP`: it is passed on to the generator. Strings in the model are never `null`, so this case is not modelled.
- Strings are modelled as sequences of Unicode characters, not UTF-16 code units. `random` counts and picks code units (`length()` and `charAt` at line 34), so alphabets with characters outside the Basic Multilingual Plane are not captured: Java may return lone surrogates, and the model counts whole characters.
- A `java.lang.Error` thrown by the generator or the decoder: `catch (Exception e)` at lines 174 and 214 does not catch it, so it escapes `verifyHOTP` and `verifyTOTP`. The model has only exceptions, and these become `false`.
- Memory exhaustion from `new char[length]` or `new byte[length]` when `length` is huge: this is a resource limit, not logic.
