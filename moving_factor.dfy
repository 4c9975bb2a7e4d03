/** The moving factor as the verify methods serialise it: the time step `t`
    (a Java `long`) written with `DataOutputStream.writeLong` into a byte
    buffer, eight bytes, most significant first, in two's complement, then
    turned into hexadecimal text. This is the 8-byte counter of section 5.2 of
    RFC 4226, with `t` in the role of T from section 4.2 of RFC 6238. */
module MovingFactor {
  import opened JavaTypes
  import opened Wrappers
  import Hex

  const TwoTo63: nat := 0x8000_0000_0000_0000
  const TwoTo64: nat := 0x1_0000_0000_0000_0000

  function Pow256(n: nat): (p: nat)
    ensures p > 0
  {
    if n == 0 then 1 else 256 * Pow256(n - 1)
  }

  /** The 64-bit two's-complement bit pattern of `t`, read as an unsigned number. */
  function Unsigned(t: int64): (u: nat)
    ensures u < TwoTo64
    ensures t >= 0 <==> u < TwoTo63
  {
    if t < 0 then t as int + TwoTo64 else t as int
  }

  /** The long whose two's-complement bit pattern is `u`. */
  function Signed(u: nat): (t: int64)
    requires u < TwoTo64
    ensures Unsigned(t) == u
  {
    if u < TwoTo63 then u as int64 else (u - TwoTo64) as int64
  }

  /** The `n` low-order base-256 digits of `u`, most significant first. */
  function BigEndian(u: nat, n: nat): (bytes: seq<byte>)
    ensures |bytes| == n
  {
    if n == 0 then [] else BigEndian(u / 256, n - 1) + [(u % 256) as byte]
  }

  /** The number a big-endian byte string denotes. */
  function FromBigEndian(bytes: seq<byte>): (u: nat)
    ensures u < Pow256(|bytes|)
  {
    if bytes == [] then 0
    else
      var init := bytes[..|bytes| - 1];
      var v := FromBigEndian(init);
      assert v * 256 <= (Pow256(|init|) - 1) * 256;
      v * 256 + bytes[|bytes| - 1] as int
  }

  /** The eight bytes `DataOutputStream.writeLong(t)` emits. */
  function LongBytes(t: int64): (bytes: seq<byte>)
    ensures |bytes| == 8
  {
    BigEndian(Unsigned(t), 8)
  }

  /** Eight big-endian two's-complement bytes read back as a long (what
      `DataInputStream.readLong` does). */
  function ReadLong(bytes: seq<byte>): (t: int64)
    requires |bytes| == 8
  {
    Pow256Eight();
    Signed(FromBigEndian(bytes))
  }

  /** The hexadecimal moving factor the verify methods hand to the generator. */
  function MovingFactorHex(t: int64): (base: string)
    ensures |base| == 16
    ensures Hex.IsLowerHex(base)
  {
    Hex.Encode(LongBytes(t))
  }

  /** `dos.writeLong(t)` followed by `baos.toByteArray()`: byte `i` of the
      buffer is `(byte) (t >>> (56 - 8 * i))`. */
  method WriteLong(t: int64) returns (bytes: seq<byte>)
    ensures bytes == LongBytes(t)
    ensures |bytes| == 8 && ReadLong(bytes) == t
  {
    var u := Unsigned(t);
    var buffer := new byte[8];
    for i := 0 to 8
      invariant forall j :: 0 <= j < i ==> buffer[j] == LongBytes(t)[j]
    {
      buffer[i] := ((u / Pow256(7 - i)) % 256) as byte;
      BigEndianAt(u, 8, i);
    }
    bytes := buffer[..];
    ReadLongBytes(t);
  }

  lemma Pow256Eight()
    ensures Pow256(8) == TwoTo64
  {
    assert Pow256(7) == 0x100_0000_0000_0000;
  }

  /** Dividing by `a` and then by `b` is dividing by `a * b`. */
  lemma DivDiv(u: nat, a: nat, b: nat)
    requires a > 0 && b > 0
    ensures u / a / b == u / (a * b)
  {
    var q, r := u / a, u % a;
    var q2, r2 := q / b, q % b;
    assert u == a * q + r;
    assert q == b * q2 + r2;
    MulDistributes(a, b * q2, r2);
    MulAssociates(a, b, q2);
    assert u == (a * b) * q2 + (a * r2 + r);
    MulDistributes(a, r2, b - 1 - r2);
    MulNonNegative(a, b - 1 - r2);
    assert a * (b - 1) == a * b - a by {
      MulDistributes(a, b - 1, 1);
    }
    assert a * r2 + r < a * b;
    DivUnique(u, a * b, q2, a * r2 + r);
  }

  lemma MulDistributes(a: int, x: int, y: int)
    ensures a * (x + y) == a * x + a * y
  {
  }

  lemma MulAssociates(a: int, b: int, c: int)
    ensures a * (b * c) == (a * b) * c
  {
  }

  /** Euclidean division has one quotient. */
  lemma DivUnique(u: int, d: int, q: int, r: int)
    requires d > 0 && 0 <= r < d && u == d * q + r
    ensures u / d == q
  {
    var q', r' := u / d, u % d;
    assert d * (q - q') == r' - r by {
      assert d * (q - q') == d * q - d * q';
    }
    MulAtLeastFactor(d, q - q');
  }

  /** A positive multiple of a positive `a` is at least `a`, and likewise for
      negative multiples. */
  lemma MulAtLeastFactor(a: int, b: int)
    requires a > 0
    ensures b >= 1 ==> a * b >= a
    ensures b <= -1 ==> a * b <= -a
  {
    if b >= 1 {
      assert a * b == a * (b - 1) + a;
      MulNonNegative(a, b - 1);
    } else if b <= -1 {
      assert a * b == -(a * (-b - 1)) - a;
      MulNonNegative(a, -b - 1);
    }
  }

  lemma MulNonNegative(a: int, b: int)
    requires a >= 0 && b >= 0
    ensures a * b >= 0
  {
  }

  /** Byte `i` of the big-endian form is the base-256 digit of weight
      `256^(n - 1 - i)`: the first byte is the most significant one. */
  lemma {:induction false} BigEndianAt(u: nat, n: nat, i: nat)
    requires i < n
    ensures BigEndian(u, n)[i] as int == (u / Pow256(n - 1 - i)) % 256
  {
    if i < n - 1 {
      BigEndianAt(u / 256, n - 1, i);
      DivDiv(u, 256, Pow256(n - 2 - i));
    }
  }

  /** Reading back a big-endian form recovers any number that fits. */
  lemma {:induction false} FromBigEndianBigEndian(u: nat, n: nat)
    requires u < Pow256(n)
    ensures FromBigEndian(BigEndian(u, n)) == u
  {
    if n > 0 {
      var bytes := BigEndian(u, n);
      assert bytes[..n - 1] == BigEndian(u / 256, n - 1);
      FromBigEndianBigEndian(u / 256, n - 1);
    }
  }

  /** Writing back the number a byte string denotes gives the same bytes. */
  lemma {:induction false} BigEndianFromBigEndian(bytes: seq<byte>)
    ensures BigEndian(FromBigEndian(bytes), |bytes|) == bytes
  {
    if bytes != [] {
      var n := |bytes|;
      var init := bytes[..n - 1];
      var v := FromBigEndian(bytes);
      assert v / 256 == FromBigEndian(init) && v % 256 == bytes[n - 1] as int;
      BigEndianFromBigEndian(init);
      assert bytes == init + [bytes[n - 1]];
    }
  }

  /** Reading the written bytes gives back `t`, sign included. */
  lemma ReadLongBytes(t: int64)
    ensures ReadLong(LongBytes(t)) == t
  {
    Pow256Eight();
    FromBigEndianBigEndian(Unsigned(t), 8);
  }

  /** Every eight-byte string is what `writeLong` emits for the long it reads as. */
  lemma LongBytesReadLong(bytes: seq<byte>)
    requires |bytes| == 8
    ensures LongBytes(ReadLong(bytes)) == bytes
  {
    Pow256Eight();
    BigEndianFromBigEndian(bytes);
  }

  /** The sign of `t` sits in the top bit of the first byte written. */
  lemma SignInFirstByte(t: int64)
    ensures t < 0 <==> LongBytes(t)[0] >= 128
  {
    var u := Unsigned(t);
    BigEndianAt(u, 8, 0);
    assert Pow256(7) == 0x100_0000_0000_0000;
    assert u / 0x100_0000_0000_0000 < 256;
  }

  /** The serialised moving factor decodes to the eight bytes written, and
      those read back as `t`: hexadecimal serialisation loses nothing. */
  lemma MovingFactorHexRoundTrip(t: int64)
    ensures Hex.Decode(MovingFactorHex(t)) == Some(LongBytes(t))
    ensures ReadLong(Hex.Decode(MovingFactorHex(t)).value) == t
  {
    Hex.DecodeEncode(LongBytes(t));
    ReadLongBytes(t);
  }

  /** Distinct time steps give distinct moving factors. */
  lemma MovingFactorHexInjective(t1: int64, t2: int64)
    requires MovingFactorHex(t1) == MovingFactorHex(t2)
    ensures t1 == t2
  {
    Hex.EncodeInjective(LongBytes(t1), LongBytes(t2));
    ReadLongBytes(t1);
    ReadLongBytes(t2);
  }

  /** The step of Unix time 59 under a 30-second window (section 4.2 of
      RFC 6238) is serialised with seven zero bytes first. */
  lemma MovingFactorHexOfOne()
    ensures MovingFactorHex(1) == "0000000000000001"
  {
    assert BigEndian(0, 7) == [0, 0, 0, 0, 0, 0, 0];
    assert LongBytes(1) == [0, 0, 0, 0, 0, 0, 0, 1];
    assert Hex.Encode([1]) == "01";
    assert Hex.Encode([0, 1]) == "0001";
    assert Hex.Encode([0, 0, 0, 1]) == "00000001";
  }

  /** The step -1 is serialised as sixty-four one bits. */
  lemma MovingFactorHexOfMinusOne()
    ensures MovingFactorHex(-1) == "ffffffffffffffff"
  {
    assert Unsigned(-1) == 0xffff_ffff_ffff_ffff;
    assert LongBytes(-1) == [255, 255, 255, 255, 255, 255, 255, 255];
    assert Hex.Encode([255]) == "ff";
    assert Hex.Encode([255, 255]) == "ffff";
    assert Hex.Encode([255, 255, 255, 255]) == "ffffffff";
  }
}
