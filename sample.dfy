/**
 * Decoding of one accelerometer/gyroscope burst of the MPU9250.
 *
 * The sensor returns 14 bytes starting at ACCEL_XOUT_H: seven big-endian
 * 16-bit two's-complement pairs, in the order accel X, Y, Z, temperature,
 * gyro X, Y, Z. The driver keeps the six motion axes and drops the
 * temperature pair.
 */
module Mpu9250Sample {

  /** Length of the burst read that starts at ACCEL_XOUT_H. */
  const BurstLen: nat := 14

  /** Accelerometer sensitivity at the +-2 g range, in LSB per g. */
  const AccelSens2G: real := 16384.0

  /** Gyroscope sensitivity at the +-250 deg/s range, in LSB per deg/s. */
  const GyroSens250Dps: real := 131.0

  /** A byte as the driver holds it in `uint8_t buf[14]`. */
  type Byte = b: int | 0 <= b < 0x100

  predicate IsInt16(v: int) {
    -0x8000 <= v < 0x8000
  }

  /** The six motion axes, in the order the burst carries them. */
  datatype Axis = AccelX | AccelY | AccelZ | GyroX | GyroY | GyroZ

  /** The six raw axis values of one burst (the int16_t locals of the driver). */
  datatype RawSample = RawSample(ax: int, ay: int, az: int, gx: int, gy: int, gz: int)
  {
    function Get(k: Axis): int {
      match k
      case AccelX => ax
      case AccelY => ay
      case AccelZ => az
      case GyroX => gx
      case GyroY => gy
      case GyroZ => gz
    }

    /** Every axis holds a 16-bit signed value. */
    predicate Valid() {
      IsInt16(ax) && IsInt16(ay) && IsInt16(az) && IsInt16(gx) && IsInt16(gy) && IsInt16(gz)
    }
  }

  /** Offset of the high byte of axis k within the burst. */
  function HighOffset(k: Axis): (i: nat)
    ensures i + 1 < BurstLen
    ensures i != 6 && i + 1 != 6 && i != 7 && i + 1 != 7
    ensures i % 2 == 0
  {
    match k
    case AccelX => 0
    case AccelY => 2
    case AccelZ => 4
    case GyroX => 8
    case GyroY => 10
    case GyroZ => 12
  }

  /** Offsets of the temperature pair, which no axis uses. */
  predicate IsTemperatureByte(i: int) {
    i == 6 || i == 7
  }

  /**
   * The 16-bit word `(hi << 8) | lo`: hi is its high byte and lo its low byte.
   * On the C side both bytes are promoted to int, so the shift cannot
   * overflow and the or cannot carry; ShiftOrIsSum states that on bits.
   */
  function BigEndianWord(hi: Byte, lo: Byte): (w: nat)
    ensures w < 0x10000 && w / 256 == hi && w % 256 == lo
  {
    hi * 256 + lo
  }

  /** For byte-sized halves, shifting the high one left by 8 and or-ing in the low one is h * 256 + l. */
  lemma ShiftOrIsSum(h: bv16, l: bv16)
    requires h < 256 && l < 256
    ensures ((h << 8) | l) as int == h as int * 256 + l as int
  {
  }

  /**
   * The `(int16_t)` cast: the one value in [-2^15, 2^15) congruent to w
   * modulo 2^16. For w >= 2^15 the C standard leaves the result to the
   * implementation (C11 6.3.1.3); this is the modular reduction that GCC,
   * the ESP32 toolchain's compiler, documents.
   */
  function ToInt16(w: nat): (v: int)
    requires w < 0x10000
    ensures IsInt16(v)
    ensures (v + 0x10000) % 0x10000 == w
  {
    if w < 0x8000 then w else w - 0x10000
  }

  /** One big-endian two's-complement pair, as in `(int16_t)((buf[i] << 8) | buf[i+1])`. */
  function DecodePair(hi: Byte, lo: Byte): (v: int)
    ensures IsInt16(v)
    ensures (v + 0x10000) % 0x10000 == hi * 256 + lo
    ensures v < 0 <==> hi >= 0x80
  {
    ToInt16(BigEndianWord(hi, lo))
  }

  /** The raw axis values of a 14-byte burst; bytes 6 and 7 (temperature) are not read. */
  function Decode(buf: seq<Byte>): (s: RawSample)
    requires |buf| == BurstLen
    ensures s.Valid()
  {
    RawSample(
      DecodePair(buf[0], buf[1]),
      DecodePair(buf[2], buf[3]),
      DecodePair(buf[4], buf[5]),
      DecodePair(buf[8], buf[9]),
      DecodePair(buf[10], buf[11]),
      DecodePair(buf[12], buf[13]))
  }

  /** Big-endian encoding of a 16-bit signed value, as the sensor puts it on the bus. */
  function EncodePair(v: int): (p: (Byte, Byte))
    requires IsInt16(v)
    ensures p.0 * 256 + p.1 == (v + 0x10000) % 0x10000
  {
    var u := if v < 0 then v + 0x10000 else v;
    (u / 256, u % 256)
  }

  /** The burst the sensor sends for sample s, with temperature pair (th, tl). */
  function Encode(s: RawSample, th: Byte, tl: Byte): (buf: seq<Byte>)
    requires s.Valid()
    ensures |buf| == BurstLen
  {
    var (axh, axl) := EncodePair(s.ax);
    var (ayh, ayl) := EncodePair(s.ay);
    var (azh, azl) := EncodePair(s.az);
    var (gxh, gxl) := EncodePair(s.gx);
    var (gyh, gyl) := EncodePair(s.gy);
    var (gzh, gzl) := EncodePair(s.gz);
    [axh, axl, ayh, ayl, azh, azl, th, tl, gxh, gxl, gyh, gyl, gzh, gzl]
  }

  /** Acceleration in g for a raw accelerometer value (ideal, without float rounding). */
  function AccelG(raw: int): (g: real)
    ensures g * AccelSens2G == raw as real
  {
    raw as real / AccelSens2G
  }

  /** Angular rate in deg/s for a raw gyroscope value (ideal, without float rounding). */
  function GyroDps(raw: int): (d: real)
    ensures d * GyroSens250Dps == raw as real
  {
    raw as real / GyroSens250Dps
  }

  // ---------------------------------------------------------------------------
  // Properties of the decoder
  // ---------------------------------------------------------------------------

  /** Every axis value is read from its own pair: ax 0-1, ay 2-3, az 4-5, gx 8-9, gy 10-11, gz 12-13. */
  lemma FieldPlacement(buf: seq<Byte>, k: Axis)
    requires |buf| == BurstLen
    ensures Decode(buf).Get(k) == DecodePair(buf[HighOffset(k)], buf[HighOffset(k) + 1])
  {
  }

  /** Decoding a pair and encoding the value again gives back the same two bytes. */
  lemma PairBytesRoundTrip(hi: Byte, lo: Byte)
    ensures EncodePair(DecodePair(hi, lo)) == (hi, lo)
  {
  }

  /** Encoding any int16 as a big-endian pair and decoding it gives back the value. */
  lemma PairValueRoundTrip(v: int)
    requires IsInt16(v)
    ensures DecodePair(EncodePair(v).0, EncodePair(v).1) == v
  {
  }

  /** Two pairs decode to the same value exactly when they are the same bytes. */
  lemma DecodePairInjective(h1: Byte, l1: Byte, h2: Byte, l2: Byte)
    ensures DecodePair(h1, l1) == DecodePair(h2, l2) <==> h1 == h2 && l1 == l2
  {
    if DecodePair(h1, l1) == DecodePair(h2, l2) {
      PairBytesRoundTrip(h1, l1);
      PairBytesRoundTrip(h2, l2);
    }
  }

  /**
   * An axis of two bursts agrees exactly when its own pair of bytes agrees:
   * each axis depends on its two bytes and on nothing else.
   */
  lemma AxisDeterminedByItsPair(b1: seq<Byte>, b2: seq<Byte>, k: Axis)
    requires |b1| == BurstLen && |b2| == BurstLen
    ensures Decode(b1).Get(k) == Decode(b2).Get(k)
        <==> b1[HighOffset(k)] == b2[HighOffset(k)] && b1[HighOffset(k) + 1] == b2[HighOffset(k) + 1]
  {
    var i := HighOffset(k);
    FieldPlacement(b1, k);
    FieldPlacement(b2, k);
    var v1, v2 := DecodePair(b1[i], b1[i + 1]), DecodePair(b2[i], b2[i + 1]);
    assert Decode(b1).Get(k) == v1 && Decode(b2).Get(k) == v2;
    DecodePairInjective(b1[i], b1[i + 1], b2[i], b2[i + 1]);
    assert v1 == v2 <==> b1[i] == b2[i] && b1[i + 1] == b2[i + 1];
  }

  /** Two bursts decode alike exactly when they agree on every byte outside the temperature pair. */
  lemma DecodeIgnoresOnlyTemperature(b1: seq<Byte>, b2: seq<Byte>)
    requires |b1| == BurstLen && |b2| == BurstLen
    ensures Decode(b1) == Decode(b2)
        <==> forall i :: 0 <= i < BurstLen && !IsTemperatureByte(i) ==> b1[i] == b2[i]
  {
    if Decode(b1) == Decode(b2) {
      forall k: Axis ensures b1[HighOffset(k)] == b2[HighOffset(k)] && b1[HighOffset(k) + 1] == b2[HighOffset(k) + 1] {
        AxisDeterminedByItsPair(b1, b2, k);
      }
      forall i | 0 <= i < BurstLen && !IsTemperatureByte(i) ensures b1[i] == b2[i] {
        var k := AxisOfByte(i);
        assert i == HighOffset(k) || i == HighOffset(k) + 1;
      }
    }
  }

  /** The axis whose pair holds byte i, for every byte outside the temperature pair. */
  function AxisOfByte(i: int): (k: Axis)
    requires 0 <= i < BurstLen && !IsTemperatureByte(i)
    ensures HighOffset(k) == i - i % 2
  {
    if i < 2 then AccelX
    else if i < 4 then AccelY
    else if i < 6 then AccelZ
    else if i < 10 then GyroX
    else if i < 12 then GyroY
    else GyroZ
  }

  /** The temperature bytes never affect the decoded sample. */
  lemma TemperatureIgnored(buf: seq<Byte>, th: Byte, tl: Byte)
    requires |buf| == BurstLen
    ensures Decode(buf[6 := th][7 := tl]) == Decode(buf)
  {
  }

  /** Decoding the burst the sensor sends for a sample gives that sample back. */
  lemma DecodeEncode(s: RawSample, th: Byte, tl: Byte)
    requires s.Valid()
    ensures Decode(Encode(s, th, tl)) == s
  {
    var buf := Encode(s, th, tl);
    PairValueRoundTrip(s.ax);
    PairValueRoundTrip(s.ay);
    PairValueRoundTrip(s.az);
    PairValueRoundTrip(s.gx);
    PairValueRoundTrip(s.gy);
    PairValueRoundTrip(s.gz);
    assert (buf[0], buf[1]) == EncodePair(s.ax) && (buf[2], buf[3]) == EncodePair(s.ay);
    assert (buf[4], buf[5]) == EncodePair(s.az) && (buf[8], buf[9]) == EncodePair(s.gx);
    assert (buf[10], buf[11]) == EncodePair(s.gy) && (buf[12], buf[13]) == EncodePair(s.gz);
  }

  /** Encoding a decoded burst with its own temperature pair gives back the burst. */
  lemma EncodeDecode(buf: seq<Byte>)
    requires |buf| == BurstLen
    ensures Encode(Decode(buf), buf[6], buf[7]) == buf
  {
    var s := Decode(buf);
    PairBytesRoundTrip(buf[0], buf[1]);
    PairBytesRoundTrip(buf[2], buf[3]);
    PairBytesRoundTrip(buf[4], buf[5]);
    PairBytesRoundTrip(buf[8], buf[9]);
    PairBytesRoundTrip(buf[10], buf[11]);
    PairBytesRoundTrip(buf[12], buf[13]);
    assert EncodePair(s.ax) == (buf[0], buf[1]) && EncodePair(s.ay) == (buf[2], buf[3]);
    assert EncodePair(s.az) == (buf[4], buf[5]) && EncodePair(s.gx) == (buf[8], buf[9]);
    assert EncodePair(s.gy) == (buf[10], buf[11]) && EncodePair(s.gz) == (buf[12], buf[13]);
    assert Encode(s, buf[6], buf[7]) == [buf[0], buf[1], buf[2], buf[3], buf[4], buf[5], buf[6],
                                         buf[7], buf[8], buf[9], buf[10], buf[11], buf[12], buf[13]];
  }

  /** At the +-2 g range every raw value maps into [-2 g, 2 g). */
  lemma AccelFullScale(raw: int)
    requires IsInt16(raw)
    ensures -2.0 <= AccelG(raw) < 2.0
  {
  }

  /** At the +-250 deg/s range every raw value maps within +-250.14 deg/s. */
  lemma GyroFullScale(raw: int)
    requires IsInt16(raw)
    ensures -250.14 < GyroDps(raw) < 250.14
  {
  }

  /**
   * A worked burst: accel X = 0x1000 (0.25 g), accel Z = 0xC000 (-1 g),
   * everything else zero.
   */
  lemma ExampleBurst()
    ensures var s := Decode([0x10, 0x00, 0x00, 0x00, 0xC0, 0x00, 0x00, 0x00, 0x00, 0x00, 0x00, 0x00, 0x00, 0x00]);
      s == RawSample(4096, 0, -16384, 0, 0, 0)
      && AccelG(s.ax) == 0.25 && AccelG(s.az) == -1.0 && GyroDps(s.gx) == 0.0
  {
  }
}
