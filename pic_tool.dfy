/**
 * One run of the tool on a dump already in memory: read the scrambled record,
 * decode serial and date, apply the command-line overrides that pass their
 * range checks and, if any did, re-encode the record and poke it back.
 */
module PicTool {
  import opened Wrappers
  import opened Bytes
  import opened Scramble
  import opened SerialCodec
  import opened DateCodec

  /** Serial number and date as the tool holds them between decoding and encoding. */
  datatype Settings = Settings(serial: int, date: Date)

  /** New values from the command line; None for a field given as `-` or not given. */
  datatype Overrides = Overrides(serial: Option<int>, month: Option<int>, day: Option<int>, year: Option<int>)

  /** The one failure a run can meet once the dump is in memory. */
  datatype ToolError = ImageTooSmall

  /** What a run reports: the decoded settings, and the new ones when the dump was rewritten. */
  datatype Report = Report(original: Settings, updated: Option<Settings>)

  /** Serial and date stored in a record. */
  function Original(rec: seq<Byte>): (s: Settings)
    requires SerialDecodable(rec)
    ensures 0 <= s.serial <= MaxSerial && InPackingRange(s.date) && Pack(s.date) <= MaxWord
  {
    Settings(DecodeSerial(rec), DecodeDate(rec[10], rec[11]))
  }

  /**
   * A supplied value that passes its inclusive range check lo..hi; a missing value,
   * or a check with an empty range, accepts nothing.
   */
  predicate Accepts(v: Option<int>, lo: int, hi: int)
    ensures Accepts(v, lo, hi) ==> v.Some? && lo <= hi
  {
    v.Some? && lo <= v.value <= hi
  }

  /**
   * The supplied value if it passes its range check, else the current one: the
   * result is the current value or lies in lo..hi, and a rejected value is never taken.
   */
  function Choose(v: Option<int>, lo: int, hi: int, current: int): (r: int)
    ensures r == current || lo <= r <= hi
    ensures !Accepts(v, lo, hi) ==> r == current
  {
    if Accepts(v, lo, hi) then v.value else current
  }

  /**
   * The override rule: each supplied field that passes its range check replaces
   * the decoded value; a missing or rejected field leaves it in place. The
   * ranges of decoded settings survive the rule, and when no field passes its
   * check the settings are unchanged.
   */
  function Overridden(cur: Settings, ov: Overrides): (next: Settings)
    ensures !Dirty(ov) ==> next == cur
    ensures 0 <= cur.serial <= MaxSerial ==> 0 <= next.serial <= MaxSerial
    ensures InPackingRange(cur.date) ==> InPackingRange(next.date)
    ensures cur.date.year <= 2156 ==> next.date.year <= 2156
  {
    Settings(
      Choose(ov.serial, 0, MaxSerial, cur.serial),
      Date(Choose(ov.month, 1, 12, cur.date.month),
           Choose(ov.day, 0, 30, cur.date.day),
           Choose(ov.year, BaseYear, 2155, cur.date.year)))
  }

  /**
   * The record is rewritten when at least one supplied field passed its check, so a
   * run with no overrides never rewrites it.
   */
  predicate Dirty(ov: Overrides)
    ensures ov == Overrides(None, None, None, None) ==> !Dirty(ov)
  {
    Accepts(ov.serial, 0, MaxSerial) || Accepts(ov.month, 1, 12)
    || Accepts(ov.day, 0, 30) || Accepts(ov.year, BaseYear, 2155)
  }

  /** The override block: updates the four values and the modfile flag field by field. */
  method ApplyOverrides(original: Settings, ov: Overrides) returns (next: Settings, modfile: bool)
    ensures next == Overridden(original, ov)
    ensures modfile == Dirty(ov)
  {
    var serial, month, day, year := original.serial, original.date.month, original.date.day, original.date.year;
    modfile := false;
    if ov.serial.Some? {
      if 0 <= ov.serial.value <= MaxSerial {
        serial := ov.serial.value;
        modfile := true;
      }
    }
    if ov.month.Some? {
      if 1 <= ov.month.value <= 12 {
        month := ov.month.value;
        modfile := true;
      }
    }
    if ov.day.Some? {
      if 0 <= ov.day.value <= 30 {
        day := ov.day.value;
        modfile := true;
      }
    }
    if ov.year.Some? {
      if BaseYear <= ov.year.value <= 2155 {
        year := ov.year.value;
        modfile := true;
      }
    }
    next := Settings(serial, Date(month, day, year));
  }

  /** The record after encoding: bytes 0..11 from the settings, salts and bytes 14..15 as they were. */
  function Reencoded(rec: seq<Byte>, s: Settings): (r: seq<Byte>)
    requires |rec| == RecordSize && 0 <= s.serial <= MaxSerial && Pack(s.date) >= 0
    ensures |r| == RecordSize
  {
    SerialFields(s.serial, rec[12], rec[13]) + EncodeDate(s.date) + rec[12..]
  }

  /**
   * A re-encoded record decodes to the settings it was encoded from, as long as
   * the date packs into 16 bits, and its salt and unused bytes are the old ones.
   */
  lemma ReencodedDecodes(rec: seq<Byte>, s: Settings)
    requires |rec| == RecordSize && 0 <= s.serial <= MaxSerial
    requires InPackingRange(s.date) && Pack(s.date) <= MaxWord
    ensures var r := Reencoded(rec, s);
      SerialDecodable(r) && Original(r) == s && r[12..] == rec[12..]
  {
    var r := Reencoded(rec, s);
    assert r[12] == rec[12] && r[13] == rec[13];
    assert r[..10] == SerialFields(s.serial, rec[12], rec[13]);
    SerialRoundTrip(s.serial, r);
    DateRoundTripIffFits(s.date);
    assert [r[10], r[11]] == EncodeDate(s.date);
  }

  /** Re-encoding with the decoded date rewrites bytes 10..15 unchanged (a serial-only change). */
  lemma SerialOnlyKeepsDate(rec: seq<Byte>, s: Settings)
    requires |rec| == RecordSize && 0 <= s.serial <= MaxSerial
    requires s.date == DecodeDate(rec[10], rec[11])
    ensures Reencoded(rec, s)[10..] == rec[10..]
  {
    DateReencode(rec[10], rec[11]);
    assert rec[10..] == [rec[10], rec[11]] + rec[12..];
  }

  /**
   * Re-encoding with the decoded serial rewrites bytes 0..9 unchanged (a date-only
   * change), provided they held an encoder-produced serial under the record's salts.
   */
  lemma DateOnlyKeepsSerial(rec: seq<Byte>, date: Date, stored: int)
    requires |rec| == RecordSize && 0 <= stored <= MaxSerial
    requires rec[..10] == SerialFields(stored, rec[12], rec[13])
    requires InPackingRange(date)
    ensures SerialDecodable(rec)
    ensures Reencoded(rec, Settings(DecodeSerial(rec), date))[..10] == rec[..10]
  {
    SerialRoundTrip(stored, rec);
  }

  /** Reencoded spelled out byte by byte, as the encoder assigns them. */
  lemma ReencodedBytes(rec: seq<Byte>, s: Settings)
    requires |rec| == RecordSize && 0 <= s.serial <= MaxSerial && Pack(s.date) >= 0
    ensures var d := Digits(s.serial);
      var a, b, c := FieldA(d, rec[13]), FieldB(d, rec[12], rec[13]), FieldC(d, rec[12]);
      var word := Pack(s.date);
      Reencoded(rec, s) ==
        [c % 0x100, c / 0x100 % 0x100, c / 0x1_0000 % 0x100,
         b % 0x100, b / 0x100 % 0x100, b / 0x1_0000 % 0x100, b / 0x100_0000 % 0x100,
         a % 0x100, a / 0x100 % 0x100, a / 0x1_0000 % 0x100,
         word / 0x100 % 0x100, word % 0x100,
         rec[12], rec[13], rec[14], rec[15]]
  {
    var d := Digits(s.serial);
    ThreeBytes(FieldA(d, rec[13]));
    FourBytes(FieldB(d, rec[12], rec[13]));
    ThreeBytes(FieldC(d, rec[12]));
  }

  /** Encodes the settings into the record in place (midway_pic_tool.c:169-197). */
  method EncodeRecord(pic: array<Byte>, s: Settings)
    requires pic.Length == RecordSize && 0 <= s.serial <= MaxSerial && Pack(s.date) >= 0
    modifies pic
    ensures pic[..] == Reencoded(old(pic[..]), s)
  {
    ReencodedBytes(pic[..], s);
    var d := Digits(s.serial);
    var a := FieldA(d, pic[13]);
    pic[7], pic[8], pic[9] := a % 0x100, a / 0x100 % 0x100, a / 0x1_0000 % 0x100;
    var b := FieldB(d, pic[12], pic[13]);
    pic[3], pic[4], pic[5], pic[6] := b % 0x100, b / 0x100 % 0x100, b / 0x1_0000 % 0x100, b / 0x100_0000 % 0x100;
    var c := FieldC(d, pic[12]);
    pic[0], pic[1], pic[2] := c % 0x100, c / 0x100 % 0x100, c / 0x1_0000 % 0x100;
    var word := Pack(s.date);
    pic[10], pic[11] := word / 0x100 % 0x100, word % 0x100;
  }

  /**
   * One run on an in-memory dump (midway_pic_tool.c:38-235). A dump under 31 bytes is refused
   * and left alone. Otherwise the record is decoded and reported, and the dump is
   * rewritten, with the overridden settings, exactly when some override was accepted.
   */
  method Run(image: array<Byte>, ov: Overrides) returns (result: Result<Report, ToolError>)
    requires image.Length >= MinImageSize ==> SerialDecodable(Gather(image[..]))
    modifies image
    ensures image.Length < MinImageSize ==> result == Failure(ImageTooSmall) && image[..] == old(image[..])
    ensures image.Length >= MinImageSize ==>
      var rec := Gather(old(image[..]));
      var next := Overridden(Original(rec), ov);
      result == Success(Report(Original(rec), if Dirty(ov) then Some(next) else None))
      && image[..] == if Dirty(ov) then WriteBack(old(image[..]), Reencoded(rec, next)) else old(image[..])
  {
    if image.Length < MinImageSize {
      return Failure(ImageTooSmall);
    }
    var pic := new Byte[RecordSize];
    ReadRecord(image, pic);
    ghost var rec := pic[..];
    var original := Settings(DecodeSerial(pic[..]), DecodeDate(pic[10], pic[11]));
    assert original == Original(rec);
    var next, modfile := ApplyOverrides(original, ov);
    if modfile {
      EncodeRecord(pic, next);
      assert pic[..] == Reencoded(rec, next);
      WriteRecord(image, pic);
      result := Success(Report(original, Some(next)));
    } else {
      result := Success(Report(original, None));
    }
  }

  /**
   * After a rewrite whose date packs into 16 bits, reading the dump again gives the
   * new settings; salts and bytes 14..15 read back as before, and no opcode byte changed.
   */
  lemma RewriteReadsBack(image: seq<Byte>, ov: Overrides)
    requires |image| >= MinImageSize && SerialDecodable(Gather(image))
    requires Pack(Overridden(Original(Gather(image)), ov).date) <= MaxWord
    ensures var rec := Gather(image);
      var next := Overridden(Original(rec), ov);
      var written := WriteBack(image, Reencoded(rec, next));
      SerialDecodable(Gather(written)) && Original(Gather(written)) == next
      && Gather(written)[12..] == rec[12..]
      && forall j :: 0 <= j < |image| && !IsDataOffset(j) ==> written[j] == image[j]
  {
    var rec := Gather(image);
    var next := Overridden(Original(rec), ov);
    var r := Reencoded(rec, next);
    ReencodedDecodes(rec, next);
    GatherOfWriteBack(image, r);
    WriteBackAt(image, r);
  }

  /**
   * As written, the rule can lose the date: bytes FF C0 decode to 01/00/2156, a
   * month override of 12 passes its check, and the packed word 0x10115 is cut to
   * 0x0115, so the rewritten bytes decode to 09/29/1980 while 12/00/2156 is reported.
   */
  lemma DateWrapWhenYear2156Kept(rec: seq<Byte>, serial: int)
    requires |rec| == RecordSize && 0 <= serial <= MaxSerial
    requires rec[10] == 0xFF && rec[11] == 0xC0
    ensures var cur := Settings(serial, DecodeDate(rec[10], rec[11]));
      var ov := Overrides(None, Some(12), None, None);
      var next := Overridden(cur, ov);
      var w := Reencoded(rec, next);
      cur.date == Date(1, 0, 2156) && Dirty(ov) && next.date == Date(12, 0, 2156)
      && Pack(next.date) > MaxWord && DecodeDate(w[10], w[11]) == Date(9, 29, 1980)
  {
    var cur := Settings(serial, DecodeDate(rec[10], rec[11]));
    assert cur.date == Date(1, 0, 2156);
    var next := Overridden(cur, Overrides(None, Some(12), None, None));
    assert next == Settings(serial, Date(12, 0, 2156));
    DateWordWraps();
    var w := Reencoded(rec, next);
    assert w[10..12] == EncodeDate(next.date);
  }

  /**
   * The override rule with the date checked as a whole: the date overrides are
   * taken only when the resulting date packs into 16 bits; otherwise the decoded
   * date is kept, as for a rejected field.
   */
  function OverriddenChecked(cur: Settings, ov: Overrides): (next: Settings)
    ensures next.serial == Overridden(cur, ov).serial
    ensures next.date == Overridden(cur, ov).date || next.date == cur.date
    ensures InPackingRange(cur.date) && Pack(cur.date) <= MaxWord ==>
      InPackingRange(next.date) && Pack(next.date) <= MaxWord
  {
    var next := Overridden(cur, ov);
    if Pack(next.date) <= MaxWord then next else Settings(next.serial, cur.date)
  }

  /** Under the checked rule every rewrite reads back as exactly the settings reported. */
  lemma CheckedRewriteReadsBack(image: seq<Byte>, ov: Overrides)
    requires |image| >= MinImageSize && SerialDecodable(Gather(image))
    ensures var rec := Gather(image);
      var next := OverriddenChecked(Original(rec), ov);
      var written := WriteBack(image, Reencoded(rec, next));
      SerialDecodable(Gather(written)) && Original(Gather(written)) == next
      && Gather(written)[12..] == rec[12..]
  {
    var rec := Gather(image);
    var next := OverriddenChecked(Original(rec), ov);
    var r := Reencoded(rec, next);
    ReencodedDecodes(rec, next);
    GatherOfWriteBack(image, r);
  }
}
