/** Fixed-width integers read most significant byte first, the way Go's
    `binary.Read(r, binary.BigEndian, &v)` fills an `int32`, `int64` or
    `uint64`. Signed widths are the two's-complement reading of the bytes. */
module BigEndian {

  /** An octet, as an integer so that byte arithmetic stays linear. */
  type Byte = x: int | 0 <= x < 256
  type Bytes = seq<Byte>

  type Int32 = x: int | -0x8000_0000 <= x < 0x8000_0000
  type Int64 = x: int | -0x8000_0000_0000_0000 <= x < 0x8000_0000_0000_0000
  type Uint64 = x: int | 0 <= x < 0x1_0000_0000_0000_0000

  /** 256^k: the number of distinct values of k bytes. */
  function Base(k: nat): (r: nat)
    ensures r > 0
  {
    if k == 0 then 1 else 256 * Base(k - 1)
  }

  /** 2^(8k-1): the first value of k bytes whose sign bit is set. */
  function Half(k: nat): (r: int)
    requires k > 0
    ensures r > 0 && 2 * r == Base(k)
  {
    128 * Base(k - 1)
  }

  lemma BaseOfWidths()
    ensures Base(4) == 0x1_0000_0000
    ensures Base(8) == 0x1_0000_0000_0000_0000
  {
    assert Base(2) == 0x1_0000;
    assert Base(4) == 0x1_0000_0000;
    assert Base(6) == 0x1_0000_0000_0000;
  }

  /** The unsigned value of b, most significant byte first. */
  function ToNat(b: Bytes): (n: nat)
    ensures n < Base(|b|)
  {
    if |b| == 0 then 0
    else
      var k := |b| - 1;
      ToNat(b[..k]) * 256 + b[k]
  }

  /** The k-byte big-endian encoding of n. */
  function FromNat(n: nat, k: nat): (b: Bytes)
    requires n < Base(k)
    ensures |b| == k
  {
    if k == 0 then [] else FromNat(n / 256, k - 1) + [n % 256]
  }

  /** The two's-complement value of b. */
  function ToInt(b: Bytes): (x: int)
    requires |b| > 0
    ensures -Half(|b|) <= x < Half(|b|)
  {
    var u := ToNat(b);
    if u < Half(|b|) then u else u - Base(|b|)
  }

  /** The k-byte two's-complement encoding of x. */
  function FromInt(x: int, k: nat): (b: Bytes)
    requires k > 0 && -Half(k) <= x < Half(k)
    ensures |b| == k
  {
    FromNat(if x < 0 then x + Base(k) else x, k)
  }

  function ReadInt32(b: Bytes): Int32
    requires |b| == 4
  {
    BaseOfWidths();
    ToInt(b)
  }

  function ReadInt64(b: Bytes): Int64
    requires |b| == 8
  {
    BaseOfWidths();
    ToInt(b)
  }

  function ReadUint64(b: Bytes): Uint64
    requires |b| == 8
  {
    BaseOfWidths();
    ToNat(b)
  }

  /** Decoding an encoding gives the number back. */
  lemma {:induction false} ToNatFromNat(n: nat, k: nat)
    requires n < Base(k)
    ensures ToNat(FromNat(n, k)) == n
  {
    if k > 0 {
      var b := FromNat(n, k);
      var q, r := n / 256, n % 256;
      assert b[..k - 1] == FromNat(q, k - 1);
      assert b[k - 1] == r;
      ToNatFromNat(q, k - 1);
      calc {
        ToNat(b);
        ToNat(b[..k - 1]) * 256 + b[k - 1];
        q * 256 + r;
        n;
      }
    }
  }

  /** Encoding a decoded value gives the bytes back: no two byte strings of
      one width decode to the same number. */
  lemma {:induction false} FromNatToNat(b: Bytes)
    ensures FromNat(ToNat(b), |b|) == b
  {
    if |b| > 0 {
      var k := |b| - 1;
      var n := ToNat(b);
      assert n / 256 == ToNat(b[..k]);
      assert n % 256 == b[k];
      FromNatToNat(b[..k]);
      assert b == b[..k] + [b[k]];
    }
  }

  /** The leading byte carries weight Base(|b| - 1). */
  lemma {:induction false} ToNatLeading(b: Bytes)
    requires |b| > 0
    ensures ToNat(b) == b[0] * Base(|b| - 1) + ToNat(b[1..])
  {
    var k := |b| - 1;
    if k > 0 {
      var p := b[..k];
      ToNatLeading(p);
      assert p[0] == b[0];
      assert p[1..] == b[1..][..k - 1];
      assert b[1..][k - 1] == b[k];
      ShiftByte(b[0], Base(k - 1), ToNat(p[1..]), b[k]);
    }
  }

  /** Appending a byte multiplies the weight of the leading byte by 256. */
  lemma ShiftByte(lead: int, w: int, tail: int, last: int)
    ensures (lead * w + tail) * 256 + last == lead * (256 * w) + (tail * 256 + last)
  {
  }

  /** Two's complement: the value is negative exactly when the top bit of
      the first byte is set. */
  lemma SignBit(b: Bytes)
    requires |b| > 0
    ensures ToInt(b) < 0 <==> b[0] >= 0x80
  {
    var w, lead, rest := Base(|b| - 1), b[0], ToNat(b[1..]);
    ToNatLeading(b);
    assert ToNat(b) == lead * w + rest && rest < w;
    assert Half(|b|) == 128 * w;
    if lead >= 0x80 {
      ScaleMonotonic(0x80, lead, w);
    } else {
      ScaleMonotonic(lead, 0x7f, w);
    }
  }

  lemma ScaleMonotonic(a: int, c: int, w: nat)
    requires a <= c
    ensures a * w <= c * w
  {
  }

  lemma IntRoundTrip(x: int, k: nat)
    requires k > 0 && -Half(k) <= x < Half(k)
    ensures ToInt(FromInt(x, k)) == x
  {
    ToNatFromNat(if x < 0 then x + Base(k) else x, k);
  }

  lemma BytesRoundTrip(b: Bytes)
    requires |b| > 0
    ensures FromInt(ToInt(b), |b|) == b
  {
    FromNatToNat(b);
  }
}
