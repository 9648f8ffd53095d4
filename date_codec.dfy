/**
 * The manufacture-date codec. Month, day and year are packed into one 16-bit
 * word, stored big-endian in record bytes 10 (high) and 11 (low):
 *   word = 372 * (year - 1980) + 31 * (month - 1) + day
 * Days run 0..30, not 1..31.
 */
module DateCodec {
  import opened Bytes

  datatype Date = Date(month: int, day: int, year: int)

  /** Year of packed word 0. */
  const BaseYear := 1980
  /** Words per year: 12 months of 31 days. */
  const YearSpan := 0x174
  /** Words per month. */
  const MonthSpan := 0x1f
  /** Largest value the two date bytes can hold. */
  const MaxWord := 0xFFFF

  /** Month and day within the packing's ranges, and a year not before 1980. */
  predicate InPackingRange(d: Date)
  {
    1 <= d.month <= 12 && 0 <= d.day <= 30 && BaseYear <= d.year
  }

  /** Dates the tool accepts from the command line: month 1..12, day 0..30, year 1980..2155. */
  predicate AcceptedDate(d: Date)
  {
    InPackingRange(d) && d.year <= 2155
  }

  /**
   * The packed date word, before it is cut to 16 bits. For a month and day in range,
   * each year owns its own block of 372 words and each month its block of 31 within it.
   */
  function Pack(d: Date): (w: int)
    ensures InPackingRange(d) ==>
      YearSpan * (d.year - BaseYear) <= w < YearSpan * (d.year - BaseYear + 1)
    ensures InPackingRange(d) ==>
      MonthSpan * (d.month - 1) <= w - YearSpan * (d.year - BaseYear) < MonthSpan * d.month
  {
    YearSpan * (d.year - BaseYear) + MonthSpan * (d.month - 1) + d.day
  }

  /**
   * The date stored in bytes 10..11. Every pair of bytes decodes to a date in the
   * packing range, with a year up to 2156, and that date packs back to the same word.
   */
  function DecodeDate(hi: Byte, lo: Byte): (d: Date)
    ensures InPackingRange(d) && d.year <= 2156
    ensures Pack(d) == hi * 0x100 + lo
  {
    var word := hi * 0x100 + lo;
    var year := word / YearSpan + BaseYear;
    var rest := word - (year - BaseYear) * YearSpan;
    var month := rest / MonthSpan + 1;
    Date(month, rest - (month - 1) * MonthSpan, year)
  }

  /**
   * Bytes 10 and 11 for a date: `(word >> 8) & 0xff` and `word & 0xff`. They hold
   * the low 16 bits of the packed word; higher bits are lost.
   */
  function EncodeDate(d: Date): (r: seq<Byte>)
    requires Pack(d) >= 0
    ensures |r| == 2 && (r[0] as int) * 0x100 + r[1] == Pack(d) % 0x1_0000
  {
    var word := Pack(d);
    [(word / 0x100) % 0x100, word % 0x100]
  }

  /** Two dates in the packing range with the same word are the same date. */
  lemma PackInjective(d1: Date, d2: Date)
    requires InPackingRange(d1) && InPackingRange(d2) && Pack(d1) == Pack(d2)
    ensures d1 == d2
  {
    assert d1.year == d2.year;
    assert d1.month == d2.month;
  }

  /** Every date the tool accepts packs into 16 bits and decodes back to itself. */
  lemma DateRoundTrip(d: Date)
    requires AcceptedDate(d)
    ensures 0 <= Pack(d) <= MaxWord
    ensures var r := EncodeDate(d); DecodeDate(r[0], r[1]) == d
  {
    var r := EncodeDate(d);
    assert Pack(d) % 0x1_0000 == Pack(d);
    var back := DecodeDate(r[0], r[1]);
    assert Pack(back) == Pack(d);
    PackInjective(back, d);
  }

  /**
   * In the whole packing range (years past 2155 included) a date survives
   * encoding exactly when its packed word fits in 16 bits.
   */
  lemma DateRoundTripIffFits(d: Date)
    requires InPackingRange(d)
    ensures var r := EncodeDate(d); DecodeDate(r[0], r[1]) == d <==> Pack(d) <= MaxWord
  {
    var r := EncodeDate(d);
    var back := DecodeDate(r[0], r[1]);
    if Pack(d) <= MaxWord {
      assert Pack(d) % 0x1_0000 == Pack(d);
      assert Pack(back) == Pack(d);
      PackInjective(back, d);
    } else {
      assert Pack(back) == (r[0] as int) * 0x100 + r[1] <= MaxWord;
      assert back != d;
    }
  }

  /**
   * The first date past the 16-bit range that a month override can produce: 12/00/2156
   * packs to 0x10115, whose low 16 bits read back as 09/29/1980.
   */
  lemma DateWordWraps()
    ensures InPackingRange(Date(12, 0, 2156)) && Pack(Date(12, 0, 2156)) == 0x1_0115
    ensures EncodeDate(Date(12, 0, 2156)) == [0x01, 0x15]
    ensures DecodeDate(0x01, 0x15) == Date(9, 29, 1980)
  {
  }

  /** Re-encoding a decoded date reproduces bytes 10..11 exactly, whatever they held. */
  lemma DateReencode(hi: Byte, lo: Byte)
    ensures EncodeDate(DecodeDate(hi, lo)) == [hi, lo]
  {
    var word := hi * 0x100 + lo;
    assert word % 0x1_0000 == word;
    assert (word / 0x100) % 0x100 == hi;
  }
}
