/**
 * The serial-number codec. The nine decimal digits of a serial are spread over
 * three little-endian fields of the record, each an affine scramble of some of
 * the digits and of the salt bytes 12 and 13:
 *   field C, bytes 0..2: digits 3 and 5;
 *   field B, bytes 3..6: digits 0, 2, 6 and 8;
 *   field A, bytes 7..9: digits 1, 4 and 7.
 * Bytes 10..15 are not part of the serial; 12 and 13 are only read.
 */
module SerialCodec {
  import opened Bytes

  /** Largest serial number the tool accepts. */
  const MaxSerial := 999_999_999

  /** Nine decimal digits, most significant first. */
  predicate IsDigits(d: seq<int>)
  {
    |d| == 9 && forall i :: 0 <= i < 9 ==> 0 <= d[i] <= 9
  }

  /** The serial number whose decimal digits are d. */
  function Compose(d: seq<int>): (serial: int)
    requires |d| == 9
    ensures IsDigits(d) ==> 0 <= serial <= MaxSerial
  {
    d[0] * 100_000_000 + d[1] * 10_000_000 + d[2] * 1_000_000 + d[3] * 100_000
      + d[4] * 10_000 + d[5] * 1_000 + d[6] * 100 + d[7] * 10 + d[8]
  }

  /** The decimal digits of a serial number, most significant first. */
  function Digits(serial: int): (d: seq<int>)
    requires 0 <= serial <= MaxSerial
    ensures IsDigits(d)
  {
    [ (serial / 100_000_000) % 10, (serial / 10_000_000) % 10, (serial / 1_000_000) % 10,
      (serial / 100_000) % 10, (serial / 10_000) % 10, (serial / 1_000) % 10,
      (serial / 100) % 10, (serial / 10) % 10, serial % 10 ]
  }

  /** Dividing by ten once more moves to the next decimal place. */
  lemma NextPlace(x: nat)
    ensures x / 10 / 10 == x / 100 && x / 100 / 10 == x / 1_000
    ensures x / 1_000 / 10 == x / 10_000 && x / 10_000 / 10 == x / 100_000
    ensures x / 100_000 / 10 == x / 1_000_000 && x / 1_000_000 / 10 == x / 10_000_000
    ensures x / 10_000_000 / 10 == x / 100_000_000
  {
  }

  /** Splitting a serial into digits and composing them again gives the serial back. */
  lemma ComposeDigits(serial: int)
    requires 0 <= serial <= MaxSerial
    ensures Compose(Digits(serial)) == serial
  {
    NextPlace(serial);
    var q1 := serial / 10;
    var q2 := serial / 100;
    var q3 := serial / 1_000;
    var q4 := serial / 10_000;
    var q5 := serial / 100_000;
    var q6 := serial / 1_000_000;
    var q7 := serial / 10_000_000;
    var q8 := serial / 100_000_000;
    assert serial == q1 * 10 + serial % 10;
    assert q1 == q2 * 10 + q1 % 10;
    assert q2 == q3 * 10 + q2 % 10;
    assert q3 == q4 * 10 + q3 % 10;
    assert q4 == q5 * 10 + q4 % 10;
    assert q5 == q6 * 10 + q5 % 10;
    assert q6 == q7 * 10 + q6 % 10;
    assert q7 == q8 * 10 + q7 % 10;
    assert q8 == q8 % 10;
  }

  // Magic constants of the three fields: field = payload * Mul + Offset.
  const MulA := 0x1bcd
  const OffsetA := 0x1f3f0
  const MulB := 0x107f
  const OffsetB := 0x71e259
  const MulC := 0x245
  const OffsetC := 0x3d74

  /** Field A of an encoded record: digits 1, 4, 7 and salt 13; it fits in 24 bits. */
  function FieldA(d: seq<int>, salt13: Byte): (a: int)
    requires IsDigits(d)
    ensures OffsetA <= a < 0x100_0000
  {
    (d[4] + d[7] * 10 + d[1] * 100 + 5 * salt13) * MulA + OffsetA
  }

  /** Field B of an encoded record: digits 0, 2, 6, 8 and both salts; it fits in 31 bits. */
  function FieldB(d: seq<int>, salt12: Byte, salt13: Byte): (b: int)
    requires IsDigits(d)
    ensures OffsetB <= b < 0x8000_0000
  {
    (d[6] + d[8] * 10 + d[0] * 100 + d[2] * 10_000 + 2 * salt13 + salt12) * MulB + OffsetB
  }

  /** Field C of an encoded record: digits 3, 5 and salt 12; it fits in 24 bits. */
  function FieldC(d: seq<int>, salt12: Byte): (c: int)
    requires IsDigits(d)
    ensures OffsetC <= c < 0x100_0000
  {
    (d[5] * 10 + d[3] * 100 + salt12) * MulC + OffsetC
  }

  /** Record bytes 0..9 that encode a serial under the given salts. */
  function SerialFields(serial: int, salt12: Byte, salt13: Byte): (r: seq<Byte>)
    requires 0 <= serial <= MaxSerial
    ensures |r| == 10
  {
    var d := Digits(serial);
    LittleEndianBytes(FieldC(d, salt12), 3)
      + LittleEndianBytes(FieldB(d, salt12, salt13), 4)
      + LittleEndianBytes(FieldA(d, salt13), 3)
  }

  /**
   * Digit payload of field A, unscrambled and unsalted: when the stored field is at
   * least its offset, the largest payload whose re-scrambled field does not exceed it.
   */
  function PayloadA(rec: seq<Byte>): (p: int)
    requires |rec| == 16
    ensures var a, salts := LittleEndianValue(rec[7..10]), 5 * (rec[13] as int);
      a >= OffsetA ==> (p + salts) * MulA + OffsetA <= a < (p + salts + 1) * MulA + OffsetA
  {
    var salt13: int := rec[13];
    (LittleEndianValue(rec[7..10]) - OffsetA) / MulA - 5 * salt13
  }

  /**
   * Digit payload of field B, unscrambled and unsalted: when the stored field is at
   * least its offset, the largest payload whose re-scrambled field does not exceed it.
   */
  function PayloadB(rec: seq<Byte>): (p: int)
    requires |rec| == 16
    ensures var b, salts := LittleEndianValue(rec[3..7]), 2 * (rec[13] as int) + rec[12];
      b >= OffsetB ==> (p + salts) * MulB + OffsetB <= b < (p + salts + 1) * MulB + OffsetB
  {
    var salt12: int, salt13: int := rec[12], rec[13];
    (LittleEndianValue(rec[3..7]) - OffsetB) / MulB - 2 * salt13 - salt12
  }

  /**
   * Digit payload of field C, unscrambled and unsalted: when the stored field is at
   * least its offset, the largest payload whose re-scrambled field does not exceed it.
   */
  function PayloadC(rec: seq<Byte>): (p: int)
    requires |rec| == 16
    ensures var c, salts := LittleEndianValue(rec[0..3]), rec[12] as int;
      c >= OffsetC ==> (p + salts) * MulC + OffsetC <= c < (p + salts + 1) * MulC + OffsetC
  {
    var salt12: int := rec[12];
    (LittleEndianValue(rec[0..3]) - OffsetC) / MulC - salt12
  }

  /**
   * Records on which the decode arithmetic stays non-negative and within a signed
   * 32-bit int, so that truncating and Euclidean division agree.
   */
  predicate SerialDecodable(rec: seq<Byte>)
    ensures SerialDecodable(rec) ==> |rec| == 16 && LittleEndianValue(rec[3..7]) < 0x8000_0000
  {
    |rec| == 16
    && rec[6] < 0x80
    && (SignedFieldB(rec[3..7]);
        LittleEndianValue(rec[7..10]) >= OffsetA && PayloadA(rec) >= 0
        && LittleEndianValue(rec[3..7]) >= OffsetB && PayloadB(rec) >= 0
        && LittleEndianValue(rec[0..3]) >= OffsetC && PayloadC(rec) >= 0)
  }

  /** Four little-endian bytes whose top byte is below 0x80 fit in a signed 32-bit int. */
  lemma SignedFieldB(bs: seq<Byte>)
    requires |bs| == 4 && bs[3] < 0x80
    ensures LittleEndianValue(bs) < 0x8000_0000
  {
    assert bs[3..][1..] == [];
    assert LittleEndianValue(bs[3..]) == bs[3];
    assert LittleEndianValue(bs[2..]) < 0x100 * 0x80 by {
      assert bs[2..][1..] == bs[3..];
    }
    assert LittleEndianValue(bs[1..]) < 0x1_0000 * 0x80 by {
      assert bs[1..][1..] == bs[2..];
    }
  }

  /** The nine digits the decoder pulls out of the three payloads. */
  function DecodedDigits(rec: seq<Byte>): (d: seq<int>)
    requires SerialDecodable(rec)
    ensures IsDigits(d)
  {
    var a, b, c := PayloadA(rec), PayloadB(rec), PayloadC(rec);
    [ (b / 100) % 10, (a / 100) % 10, (b / 10_000) % 10,
      (c / 100) % 10, a % 10, (c / 10) % 10,
      b % 10, (a / 10) % 10, (b / 10) % 10 ]
  }

  /** The serial number stored in a record. */
  function DecodeSerial(rec: seq<Byte>): (serial: int)
    requires SerialDecodable(rec)
    ensures 0 <= serial <= MaxSerial
  {
    Compose(DecodedDigits(rec))
  }

  /** Bytes 0..2 of a little-endian split, as the encoder writes them. */
  lemma ThreeBytes(x: nat)
    ensures LittleEndianBytes(x, 3) == [x % 0x100, x / 0x100 % 0x100, x / 0x1_0000 % 0x100]
  {
    assert x / 0x100 / 0x100 == x / 0x1_0000;
    assert LittleEndianBytes(x / 0x1_0000, 1) == [x / 0x1_0000 % 0x100];
    assert LittleEndianBytes(x / 0x100, 2) == [x / 0x100 % 0x100, x / 0x1_0000 % 0x100];
  }

  /** Bytes 0..3 of a little-endian split, as the encoder writes them. */
  lemma FourBytes(x: nat)
    ensures LittleEndianBytes(x, 4)
      == [x % 0x100, x / 0x100 % 0x100, x / 0x1_0000 % 0x100, x / 0x100_0000 % 0x100]
  {
    ThreeBytes(x / 0x100);
    assert x / 0x100 / 0x100 == x / 0x1_0000;
    assert x / 0x100 / 0x1_0000 == x / 0x100_0000;
  }

  /** The decoder's `/ 100 % 10`, `/ 10 % 10` and `% 10` recover three packed digits. */
  lemma ThreeDigits(units: int, tens: int, hundreds: int)
    requires 0 <= units <= 9 && 0 <= tens <= 9 && 0 <= hundreds <= 9
    ensures var t := units + tens * 10 + hundreds * 100;
      (t / 100) % 10 == hundreds && (t / 10) % 10 == tens && t % 10 == units
  {
    var t := units + tens * 10 + hundreds * 100;
    assert t / 100 == hundreds;
    assert t / 10 == tens + hundreds * 10;
    assert t % 10 == units;
  }

  /** The decoder's divisions recover the four digits packed into field B's payload. */
  lemma FourDigits(units: int, tens: int, hundreds: int, tenThousands: int)
    requires 0 <= units <= 9 && 0 <= tens <= 9 && 0 <= hundreds <= 9 && 0 <= tenThousands <= 9
    ensures var t := units + tens * 10 + hundreds * 100 + tenThousands * 10_000;
      (t / 10_000) % 10 == tenThousands && (t / 100) % 10 == hundreds
      && (t / 10) % 10 == tens && t % 10 == units
  {
    var t := units + tens * 10 + hundreds * 100 + tenThousands * 10_000;
    assert t / 10_000 == tenThousands;
    assert t / 100 == hundreds + tenThousands * 100;
    assert t / 10 == tens + hundreds * 10 + tenThousands * 1_000;
    assert t % 10 == units;
  }

  /** Field A stored in bytes 7..9 gives back its payload. */
  lemma PayloadOfFieldA(d: seq<int>, rec: seq<Byte>)
    requires IsDigits(d) && |rec| == 16
    requires rec[7..10] == LittleEndianBytes(FieldA(d, rec[13]), 3)
    ensures LittleEndianValue(rec[7..10]) >= OffsetA
    ensures PayloadA(rec) == d[4] + d[7] * 10 + d[1] * 100
  {
    LittleEndianRoundTrip(FieldA(d, rec[13]), 3);
  }

  /** Field B stored in bytes 3..6 gives back its payload, and its top byte is below 0x80. */
  lemma PayloadOfFieldB(d: seq<int>, rec: seq<Byte>)
    requires IsDigits(d) && |rec| == 16
    requires rec[3..7] == LittleEndianBytes(FieldB(d, rec[12], rec[13]), 4)
    ensures LittleEndianValue(rec[3..7]) >= OffsetB && rec[6] < 0x80
    ensures PayloadB(rec) == d[6] + d[8] * 10 + d[0] * 100 + d[2] * 10_000
  {
    var b := FieldB(d, rec[12], rec[13]);
    LittleEndianRoundTrip(b, 4);
    FourBytes(b);
    assert rec[6] == rec[3..7][3];
  }

  /** Field C stored in bytes 0..2 gives back its payload. */
  lemma PayloadOfFieldC(d: seq<int>, rec: seq<Byte>)
    requires IsDigits(d) && |rec| == 16
    requires rec[0..3] == LittleEndianBytes(FieldC(d, rec[12]), 3)
    ensures LittleEndianValue(rec[0..3]) >= OffsetC
    ensures PayloadC(rec) == d[5] * 10 + d[3] * 100
  {
    LittleEndianRoundTrip(FieldC(d, rec[12]), 3);
  }

  /** Payloads carrying the digits of d make the decoder pull out exactly d. */
  lemma DecodedDigitsOfPayloads(d: seq<int>, rec: seq<Byte>)
    requires IsDigits(d) && SerialDecodable(rec)
    requires PayloadA(rec) == d[4] + d[7] * 10 + d[1] * 100
    requires PayloadB(rec) == d[6] + d[8] * 10 + d[0] * 100 + d[2] * 10_000
    requires PayloadC(rec) == d[5] * 10 + d[3] * 100
    ensures DecodedDigits(rec) == d
  {
    ThreeDigits(d[4], d[7], d[1]);
    FourDigits(d[6], d[8], d[0], d[2]);
    ThreeDigits(0, d[5], d[3]);
    var e := DecodedDigits(rec);
    assert e[0] == d[0] && e[1] == d[1] && e[2] == d[2];
    assert e[3] == d[3] && e[4] == d[4] && e[5] == d[5];
    assert e[6] == d[6] && e[7] == d[7] && e[8] == d[8];
  }

  /**
   * Serial round trip: a record whose bytes 0..9 encode a serial under its own salt
   * bytes 12 and 13 is decodable, and decodes to that serial.
   */
  lemma SerialRoundTrip(serial: int, rec: seq<Byte>)
    requires 0 <= serial <= MaxSerial && |rec| == 16
    requires rec[..10] == SerialFields(serial, rec[12], rec[13])
    ensures SerialDecodable(rec) && DecodeSerial(rec) == serial
  {
    var d := Digits(serial);
    var fields := SerialFields(serial, rec[12], rec[13]);
    assert rec[0..3] == fields[0..3];
    assert rec[3..7] == fields[3..7];
    assert rec[7..10] == fields[7..10];
    PayloadOfFieldA(d, rec);
    PayloadOfFieldB(d, rec);
    PayloadOfFieldC(d, rec);
    DecodedDigitsOfPayloads(d, rec);
    ComposeDigits(serial);
  }
}
