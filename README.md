# midway_pic_tool in Dafny

A verified model of `midway_pic_tool`, a small tool that reads and rewrites the
serial number and manufacture date held by the PIC16F57 security chip of several
Atari/Midway arcade boards. The tool takes a dump of the chip's program memory. It
recovers a 16-byte record scattered over the dump, decodes a nine-digit serial number
and a month/day/year date from scrambled arithmetic fields in that record, and
optionally writes new values back. Everything else in the dump stays as it was.

The model has four parts, one module each, and a module for the run as a whole:

- `Scramble` (`scramble.dfy`): the fixed table that maps logical record index `i` to
  physical slot `SlotOf[i]`, at file offset `2*SlotOf[i]`. The odd offsets hold
  RETLW opcodes. `ReadRecord` and `WriteRecord` are loops over arrays. They are proved
  against `Gather` and against `Scatter`/`WriteBack`, which perform the pokes one by one
  in table order. Lemmas prove that the table is a bijection, that the write touches
  exactly the 16 data offsets, and that reading and writing back are inverse.
- `SerialCodec` (`serial_codec.dfy`): the three little-endian fields A (bytes 7..9),
  B (bytes 3..6) and C (bytes 0..2). Each is an affine scramble of some decimal digits
  plus the salt bytes 12 and 13. It proves the field widths and the encode/decode
  round trip for every serial and every pair of salts.
- `DateCodec` (`date_codec.dfy`): the big-endian word `372*(year-1980) + 31*(month-1) + day`
  in bytes 10..11. It proves the round trip, the exact 16-bit condition for it, and that
  re-encoding any decoded date reproduces the two bytes.
- `PicTool` (`pic_tool.dfy`): the override rule with `Option` fields instead of
  command-line strings. `ApplyOverrides` updates the four values and the `modfile`
  flag. `EncodeRecord` overwrites record bytes 0..11 in place. `Run` is the whole pass
  over an in-memory dump.
- `Bytes` and `Wrappers`: the `Byte` type, little-endian split and join, `Option` and `Result`.

Integer widths are written out. Bytes are `0..255`. The encoder's `temp & 0xff`,
`(temp >> 8) & 0xff`, ... are base-256 digits of a non-negative value. The decoder's
OR of shifted bytes is their sum, because the shifted bytes do not overlap. The date
word is cut to its low 16 bits, as the two `& 0xff` stores cut it.

Two facts about years shape the date model:

- The usage text (midway_pic_tool.c:7) accepts years 1980..2155, but decoding
  (midway_pic_tool.c:108-112) gives year 2156 for the words 0xFFC0..0xFFFF, so
  `DecodeDate` promises `year <= 2156`.
- Only a supplied year is range-checked (midway_pic_tool.c:157). A decoded year reaches
  the encoder (midway_pic_tool.c:195-197) unchecked, next to an accepted month or day
  override. See Findings.

## Model

| member | source | states |
|---|---|---|
| `Bytes.LittleEndianBytes` | midway_pic_tool.c:179-193 | the encoder's split of a value into n bytes yields exactly n bytes; which byte is which is stated by `ThreeBytes` and `FourBytes`, and that the split is lossless by `LittleEndianRoundTrip` |
| `Bytes.LittleEndianValue` | midway_pic_tool.c:87-98 | the decoder's OR of bytes at shifts 0, 8, 16, ... is a value below 256^(number of bytes) |
| `Bytes.LittleEndianRoundTrip` | midway_pic_tool.c:179-193 | splitting a value below 256^n into n bytes and OR-ing them back at shifts 0, 8, ... gives the value again |
| `Scramble.ScrambleBijective` | midway_pic_tool.c:50 | the table 6,14,3,8,0,12,7,9,11,1,15,4,2,10,5,13 maps 0..15 one-to-one onto 0..15; the inverse table undoes it on both sides |
| `Scramble.Offset` | midway_pic_tool.c:38-51 | each logical byte's file offset `2*T[i]` is even and below 31, so inside the smallest accepted dump |
| `Scramble.LogicalIndex` | midway_pic_tool.c:50-51 | every even offset 0..30 holds exactly one logical index, the one whose offset it is |
| `Scramble.Gather` | midway_pic_tool.c:52-83 | the record read from a dump holds 16 bytes, and the byte at every even offset 0..30 appears in it at that offset's logical index |
| `Scramble.Scatter` | midway_pic_tool.c:200-231 | any prefix of the 16 pokes keeps the dump's length and leaves every byte that is not an even offset 0..30 as it was |
| `Scramble.WriteBack` | midway_pic_tool.c:200-231 | after all 16 pokes, each even offset 0..30 holds the record byte of its logical index and every other byte is the original |
| `Scramble.ReadRecord` | midway_pic_tool.c:52-83 | fills the 16-byte record with logical byte i taken from offset `2*T[i]` |
| `Scramble.WriteRecord` | midway_pic_tool.c:200-231 | the dump afterwards is the old dump with the 16 pokes applied in table order |
| `Scramble.ScatterAt` | midway_pic_tool.c:200-231 | after the first n pokes, a data offset whose logical index is below n holds that record byte, and every other byte is the original |
| `Scramble.WriteBackAt` | midway_pic_tool.c:200-231 | after a write-back, offset `2*T[i]` holds record byte i, and every byte that is not a data offset is unchanged |
| `Scramble.WriteBackKeepsOpcodes` | midway_pic_tool.c:51 | the RETLW opcode bytes at odd offsets and all bytes past offset 30 survive a write-back |
| `Scramble.WriteBackOfGather` | midway_pic_tool.c:52-83 | writing back the record just read leaves the dump byte-identical |
| `Scramble.GatherOfWriteBack` | midway_pic_tool.c:200-231 | reading the record from a dump it was just written into returns that record |
| `SerialCodec.Compose` | midway_pic_tool.c:102 | nine decimal digits compose to a serial in 0..999999999 |
| `SerialCodec.Digits` | midway_pic_tool.c:169-177 | a serial in 0..999999999 splits into nine values in 0..9 |
| `SerialCodec.NextPlace` | midway_pic_tool.c:169-177 | dividing by a power of ten and then by ten is dividing by the next power of ten |
| `SerialCodec.ComposeDigits` | midway_pic_tool.c:169-177 | composing the digits of a serial gives the serial back |
| `SerialCodec.FieldA` | midway_pic_tool.c:179-182 | for digits 0..9 and any salt byte, field A lies in 0x1f3f0..2^24-1, so its three-byte split is lossless |
| `SerialCodec.FieldB` | midway_pic_tool.c:184-188 | for digits 0..9 and any salt bytes, field B lies in 0x71e259..2^31-1: it fits a signed 32-bit int and its top byte is below 0x80 |
| `SerialCodec.FieldC` | midway_pic_tool.c:190-193 | for digits 0..9 and any salt byte, field C lies in 0x3d74..2^24-1, so its three-byte split is lossless |
| `SerialCodec.SerialFields` | midway_pic_tool.c:169-193 | encoding a serial produces exactly the ten bytes 0..9; what they mean is stated by `SerialRoundTrip` |
| `SerialCodec.ThreeBytes` | midway_pic_tool.c:180-182 | the three-byte little-endian split is `x & 0xff`, `(x >> 8) & 0xff`, `(x >> 16) & 0xff` |
| `SerialCodec.FourBytes` | midway_pic_tool.c:185-188 | the four-byte little-endian split is the four masked shifts by 0, 8, 16 and 24 |
| `SerialCodec.ThreeDigits` | midway_pic_tool.c:88-90 | `/100 % 10`, `/10 % 10` and `% 10` recover the three digits packed as units + 10*tens + 100*hundreds |
| `SerialCodec.FourDigits` | midway_pic_tool.c:93-96 | `/10000 % 10`, `/100 % 10`, `/10 % 10` and `% 10` recover the four digits of field B's payload |
| `SerialCodec.PayloadA` | midway_pic_tool.c:87 | when field A (bytes 7..9) is at least 0x1f3f0, the payload plus 5*salt13 is the floor quotient of field A minus 0x1f3f0 by 0x1bcd |
| `SerialCodec.PayloadB` | midway_pic_tool.c:92 | when field B (bytes 3..6) is at least 0x71e259, the payload plus 2*salt13 + salt12 is the floor quotient of field B minus 0x71e259 by 0x107f |
| `SerialCodec.PayloadC` | midway_pic_tool.c:98 | when field C (bytes 0..2) is at least 0x3d74, the payload plus salt12 is the floor quotient of field C minus 0x3d74 by 0x245 |
| `SerialCodec.SerialDecodable` | midway_pic_tool.c:87-100 | a decodable record is 16 bytes long and its field B fits a signed 32-bit int, so `pic_data[6] << 24` does not overflow |
| `SerialCodec.SignedFieldB` | midway_pic_tool.c:92 | four little-endian bytes whose top byte is below 0x80 make a value below 2^31 |
| `SerialCodec.PayloadOfFieldA` | midway_pic_tool.c:87 | field A stored in bytes 7..9 unscrambles, after removing 5*salt13, to digit4 + 10*digit7 + 100*digit1 |
| `SerialCodec.PayloadOfFieldB` | midway_pic_tool.c:92 | field B stored in bytes 3..6 has byte 6 below 0x80 and unscrambles, after removing 2*salt13 + salt12, to digit6 + 10*digit8 + 100*digit0 + 10000*digit2 |
| `SerialCodec.PayloadOfFieldC` | midway_pic_tool.c:98 | field C stored in bytes 0..2 unscrambles, after removing salt12, to 10*digit5 + 100*digit3 |
| `SerialCodec.DecodedDigitsOfPayloads` | midway_pic_tool.c:87-100 | payloads that carry the digits of a serial make the decoder pull out exactly those nine digits |
| `SerialCodec.DecodedDigits` | midway_pic_tool.c:87-100 | on a decodable record, every digit the decoder extracts is in 0..9 |
| `SerialCodec.DecodeSerial` | midway_pic_tool.c:87-102 | on a decodable record, the decoded serial is in 0..999999999 |
| `SerialCodec.SerialRoundTrip` | midway_pic_tool.c:87-193 | for every serial 0..999999999 and all salts, a record whose bytes 0..9 are the encoding under its own bytes 12 and 13 is decodable and decodes to that serial |
| `DateCodec.DecodeDate` | midway_pic_tool.c:108-112 | any two bytes decode to month 1..12, day 0..30 and year 1980..2156, and that date packs back to the same 16-bit word |
| `DateCodec.EncodeDate` | midway_pic_tool.c:195-197 | bytes 10 and 11 hold the high and low byte of the packed word's low 16 bits |
| `DateCodec.Pack` | midway_pic_tool.c:195 | for month 1..12 and day 0..30, each year owns the block of 372 words starting at 372*(year-1980), and each month the block of 31 words at 31*(month-1) within it |
| `DateCodec.PackInjective` | midway_pic_tool.c:195 | two dates with month 1..12, day 0..30 and year from 1980 that pack to the same word are equal |
| `DateCodec.DateRoundTrip` | midway_pic_tool.c:195-197 | for month 1..12, day 0..30 and year 1980..2155 the word is at most 0xFFFF and decoding the two bytes gives the same date |
| `DateCodec.DateRoundTripIffFits` | midway_pic_tool.c:195-197 | for month 1..12, day 0..30 and any year from 1980, the date survives encode and decode if and only if its word is at most 0xFFFF |
| `DateCodec.DateReencode` | midway_pic_tool.c:108-112 | re-encoding the date decoded from any two bytes reproduces those bytes exactly |
| `PicTool.Original` | midway_pic_tool.c:86-112 | the settings read from a decodable record have a serial in range, a date in the packing ranges and a word within 16 bits |
| `PicTool.Accepts` | midway_pic_tool.c:119-121 | the inclusive range test of lines 121, 135, 146 and 157 on a supplied value; its ensures (present, non-empty range) only restates the definition |
| `PicTool.Choose` | midway_pic_tool.c:118-125 | the chosen value is the current one or lies in lo..hi, and a value that fails the check leaves the current one in place |
| `PicTool.Overridden` | midway_pic_tool.c:117-164 | the override rule keeps serial 0..999999999, month 1..12, day 0..30 and year 1980..2156 when the decoded values were in those ranges, and changes nothing when no supplied field passes its check |
| `PicTool.Dirty` | midway_pic_tool.c:122-160 | `modfile` after the override block: some supplied field passed its check (lines 124, 138, 149, 160); its ensures (no overrides, no rewrite) only restates the definition |
| `PicTool.ApplyOverrides` | midway_pic_tool.c:117-164 | the four sequential checks give the settings of the override rule, and `modfile` is set exactly when some supplied field passed its check |
| `PicTool.Reencoded` | midway_pic_tool.c:179-197 | the record after encoding is again 16 bytes long; what it holds is stated by `ReencodedBytes` and `ReencodedDecodes` |
| `PicTool.ReencodedDecodes` | midway_pic_tool.c:167-197 | a record re-encoded from settings whose date fits 16 bits decodes to exactly those settings and keeps salts 12, 13 and bytes 14, 15 |
| `PicTool.SerialOnlyKeepsDate` | midway_pic_tool.c:195-197 | when the date is the decoded one, re-encoding rewrites bytes 10..15 with their old values |
| `PicTool.DateOnlyKeepsSerial` | midway_pic_tool.c:169-193 | when bytes 0..9 hold an encoder-produced serial under the record's salts, the record is decodable and re-encoding the decoded serial with any date in the packing ranges rewrites bytes 0..9 with their old values |
| `PicTool.ReencodedBytes` | midway_pic_tool.c:179-197 | the re-encoded record, byte by byte: field C, B and A split little-endian, the date word big-endian, then bytes 12..15 unchanged |
| `PicTool.EncodeRecord` | midway_pic_tool.c:169-197 | overwrites bytes 0..11 in place so that the record equals the re-encoding of the settings under its own salts |
| `PicTool.Run` | midway_pic_tool.c:38-235 | a dump under 31 bytes is refused and left alone; otherwise the decoded settings are reported, and the dump is rewritten with the overridden settings exactly when some override was accepted |
| `PicTool.RewriteReadsBack` | midway_pic_tool.c:167-231 | after a rewrite whose date fits 16 bits, reading the dump again yields the new settings with the same salts and bytes 14..15, and no opcode byte changed |
| `PicTool.DateWrapWhenYear2156Kept` | midway_pic_tool.c:195-197 | bytes FF C0 decode to 01/00/2156; the accepted month override 12 gives word 0x10115; the rewritten bytes decode to 09/29/1980, not to the reported 12/00/2156 |
| `PicTool.OverriddenChecked` | midway_pic_tool.c:131-164 | the checked rule takes the overridden serial, and takes the date overrides only if the resulting date fits 16 bits; a decoded date that fits stays fitting |
| `PicTool.CheckedRewriteReadsBack` | midway_pic_tool.c:167-231 | under the checked rule every rewrite reads back as exactly the reported settings, with salts and bytes 14..15 unchanged |

## Findings

| source | as written | input that shows it | evidently intended | confidence | as-written member | corrected member |
|---|---|---|---|---|---|---|
| midway_pic_tool.c:195-197 | The date word is cut to 16 bits by the two `& 0xff` stores. The year check (1980..2155) keeps an overridden year small enough. A decoded year of 2156 is kept unchecked when only the month or day is overridden, so the word can exceed 0xFFFF. | Date bytes FF C0 (01/00/2156) and new month 12: word 0x10115 is stored as 01 15, which reads back as 09/29/1980 while "New date: 12/00/2156" is printed | The date written to the dump is the date reported as new | not executed; follows from the arithmetic, which is proved | `PicTool.DateWrapWhenYear2156Kept` | `PicTool.CheckedRewriteReadsBack` |

`Run` models the code as written and uses `Overridden`. The corrected rule,
`OverriddenChecked`, applies the date overrides only when the resulting date fits 16 bits.
`CheckedRewriteReadsBack` proves that under it every rewrite reads back as reported.

## Left out

- File I/O (`fopen`, `fseek`, `ftell`, `fgetc`, `fputc`, `fclose`): the dump is an in-memory array, and the size check compares its length with 31.
- Argument-count checking, `atoi` parsing, the `-` sentinel and the usage text: each new value is an `Option<int>`, where `None` stands for `-` or a missing argument.
- All `printf` reporting: `Run` returns the decoded settings and, after a rewrite, the new ones. The "invalid field" warnings are the fields that the rule rejects.
- The "cannot open file" error: the dump is handed over already in memory.
- `SerialCodec.DecodeSerial`: does not model records outside `SerialDecodable`. There C's truncating division and Dafny's Euclidean division differ on negative intermediates, negative remainders are stored into `uint8_t`, and `pic_data[6] << 24` overflows a signed int when that byte is 0x80 or more. `PicTool.Run` therefore requires a decodable record in any dump of 31 bytes or more.
- `PicTool.Run`: requires a decodable record, so dumps whose bytes 0..9 give negative decode intermediates (all zeros, for one) are outside the model. On such a dump the tool still decodes some serial and, when a serial override is accepted, writes it with the encoder (midway_pic_tool.c:169-193).
- `PicTool.DateOnlyKeepsSerial`: only covers bytes 0..9 that an encoder produced. A date-only change re-encodes the decoded serial, so other byte patterns in 0..9 are replaced by the canonical encoding.
- `DateCodec.EncodeDate`: requires a non-negative word. Right-shifting a negative `int` is not modelled, and every date the tool encodes has a non-negative word.
- Bytes 14 and 15: read and written through like the others, never interpreted.
