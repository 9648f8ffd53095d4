/**
 * The scrambled placement of the 16-byte PIC record in a PIC16F57 dump.
 * Logical byte i of the record is the data byte of physical slot SlotOf[i];
 * slot s occupies file offset 2*s, and the odd offset after it holds a RETLW
 * opcode that is never read or written.
 */
module Scramble {
  import opened Bytes

  /** Number of bytes in the logical record. */
  const RecordSize := 16

  /** Smallest dump the tool accepts: offsets 0..30 must exist. */
  const MinImageSize := 31

  /** Physical slot of each logical index, as recovered from the PIC code. */
  const SlotOf: seq<int> := [6, 14, 3, 8, 0, 12, 7, 9, 11, 1, 15, 4, 2, 10, 5, 13]

  /** Logical index of each physical slot: the inverse of SlotOf. */
  const IndexOfSlot: seq<int> := [4, 9, 12, 2, 11, 14, 0, 6, 3, 7, 13, 8, 5, 15, 1, 10]

  /** SlotOf is a bijection on 0..15, and IndexOfSlot undoes it on both sides. */
  lemma ScrambleBijective()
    ensures |SlotOf| == RecordSize && |IndexOfSlot| == RecordSize
    ensures forall i :: 0 <= i < RecordSize ==> 0 <= SlotOf[i] < RecordSize && IndexOfSlot[SlotOf[i]] == i
    ensures forall s :: 0 <= s < RecordSize ==> 0 <= IndexOfSlot[s] < RecordSize && SlotOf[IndexOfSlot[s]] == s
    ensures forall i, j :: 0 <= i < RecordSize && 0 <= j < RecordSize && SlotOf[i] == SlotOf[j] ==> i == j
  {
    forall i | 0 <= i < RecordSize
      ensures 0 <= SlotOf[i] < RecordSize && IndexOfSlot[SlotOf[i]] == i
      ensures 0 <= IndexOfSlot[i] < RecordSize && SlotOf[IndexOfSlot[i]] == i
    {
      assert i in {0, 1, 2, 3, 4, 5, 6, 7, 8, 9, 10, 11, 12, 13, 14, 15};
    }
  }

  /** File offset of logical byte i: even, and inside the smallest accepted dump. */
  function Offset(i: int): (o: nat)
    requires 0 <= i < RecordSize
    ensures o % 2 == 0 && o < MinImageSize
  {
    ScrambleBijective();
    2 * SlotOf[i]
  }

  /** True of the 16 file offsets that hold record bytes. */
  predicate IsDataOffset(j: int)
  {
    0 <= j < MinImageSize && j % 2 == 0
  }

  /** Logical index stored at data offset j. */
  function LogicalIndex(j: int): (i: nat)
    requires IsDataOffset(j)
    ensures i < RecordSize && Offset(i) == j
  {
    ScrambleBijective();
    IndexOfSlot[j / 2]
  }

  /**
   * The record as the tool reads it from a dump: logical byte i from Offset(i).
   * No data byte is lost: the byte at every data offset appears in the record.
   */
  function Gather(image: seq<Byte>): (rec: seq<Byte>)
    requires |image| >= MinImageSize
    ensures |rec| == RecordSize
    ensures forall j :: IsDataOffset(j) ==> rec[LogicalIndex(j)] == image[j]
  {
    seq(RecordSize, i requires 0 <= i < RecordSize => image[Offset(i)])
  }

  /**
   * The dump after the first n pokes of the write-back: record byte k to Offset(k), k < n.
   * The pokes keep the dump's length and never touch a byte outside the data offsets.
   */
  function Scatter(image: seq<Byte>, rec: seq<Byte>, n: nat): (r: seq<Byte>)
    requires |image| >= MinImageSize && |rec| == RecordSize && n <= RecordSize
    ensures |r| == |image|
    ensures forall j :: 0 <= j < |image| && !IsDataOffset(j) ==> r[j] == image[j]
    decreases n
  {
    if n == 0 then image else Scatter(image, rec, n - 1)[Offset(n - 1) := rec[n - 1]]
  }

  /**
   * The dump after the whole record has been written back: each data offset holds
   * the record byte of its logical index, every other byte is the original.
   */
  function WriteBack(image: seq<Byte>, rec: seq<Byte>): (r: seq<Byte>)
    requires |image| >= MinImageSize && |rec| == RecordSize
    ensures |r| == |image|
    ensures forall j :: 0 <= j < |image| ==>
      r[j] == if IsDataOffset(j) then rec[LogicalIndex(j)] else image[j]
  {
    assert forall j :: 0 <= j < |image| ==>
      Scatter(image, rec, RecordSize)[j] == if IsDataOffset(j) then rec[LogicalIndex(j)] else image[j]
    by {
      forall j | 0 <= j < |image|
        ensures Scatter(image, rec, RecordSize)[j] == if IsDataOffset(j) then rec[LogicalIndex(j)] else image[j]
      {
        ScatterAt(image, rec, RecordSize, j);
      }
    }
    Scatter(image, rec, RecordSize)
  }

  /** After n pokes, a data offset whose logical index is below n holds the record byte; every other byte is the original. */
  lemma {:induction false} ScatterAt(image: seq<Byte>, rec: seq<Byte>, n: nat, j: int)
    requires |image| >= MinImageSize && |rec| == RecordSize && n <= RecordSize
    requires 0 <= j < |image|
    ensures Scatter(image, rec, n)[j] ==
      if IsDataOffset(j) && LogicalIndex(j) < n then rec[LogicalIndex(j)] else image[j]
  {
    if n > 0 {
      var prev := Scatter(image, rec, n - 1);
      assert Scatter(image, rec, n) == prev[Offset(n - 1) := rec[n - 1]];
      ScatterAt(image, rec, n - 1, j);
      ScrambleBijective();
      if j == Offset(n - 1) {
        assert IsDataOffset(j) && LogicalIndex(j) == n - 1;
      } else if IsDataOffset(j) {
        assert LogicalIndex(j) != n - 1;
      }
    }
  }

  /** The write-back places every record byte at its own offset and only there. */
  lemma WriteBackAt(image: seq<Byte>, rec: seq<Byte>)
    requires |image| >= MinImageSize && |rec| == RecordSize
    ensures forall i :: 0 <= i < RecordSize ==> WriteBack(image, rec)[Offset(i)] == rec[i]
    ensures forall j :: 0 <= j < |image| && !IsDataOffset(j) ==> WriteBack(image, rec)[j] == image[j]
  {
    forall i | 0 <= i < RecordSize
      ensures WriteBack(image, rec)[Offset(i)] == rec[i]
    {
      ScatterAt(image, rec, RecordSize, Offset(i));
      ScrambleBijective();
    }
    forall j | 0 <= j < |image| && !IsDataOffset(j)
      ensures WriteBack(image, rec)[j] == image[j]
    {
      ScatterAt(image, rec, RecordSize, j);
    }
  }

  /** The opcode bytes at odd offsets, and everything past offset 30, survive a write-back. */
  lemma WriteBackKeepsOpcodes(image: seq<Byte>, rec: seq<Byte>, j: int)
    requires |image| >= MinImageSize && |rec| == RecordSize
    requires 0 <= j < |image| && (j % 2 == 1 || j >= MinImageSize)
    ensures WriteBack(image, rec)[j] == image[j]
  {
    WriteBackAt(image, rec);
  }

  /** Writing back the record just read leaves the dump byte-identical. */
  lemma WriteBackOfGather(image: seq<Byte>)
    requires |image| >= MinImageSize
    ensures WriteBack(image, Gather(image)) == image
  {
    var rec := Gather(image);
    var r := WriteBack(image, rec);
    forall j | 0 <= j < |image|
      ensures r[j] == image[j]
    {
      ScatterAt(image, rec, RecordSize, j);
    }
  }

  /** Reading the record from a dump it was just written to gives that record back. */
  lemma GatherOfWriteBack(image: seq<Byte>, rec: seq<Byte>)
    requires |image| >= MinImageSize && |rec| == RecordSize
    ensures Gather(WriteBack(image, rec)) == rec
  {
    WriteBackAt(image, rec);
  }

  /** Fills the 16-byte record from the dump, one logical index at a time (midway_pic_tool.c:52-83). */
  method ReadRecord(image: array<Byte>, pic: array<Byte>)
    requires image.Length >= MinImageSize && pic.Length == RecordSize
    modifies pic
    ensures pic[..] == Gather(image[..])
  {
    for i := 0 to RecordSize
      invariant forall k :: 0 <= k < i ==> pic[k] == image[Offset(k)]
    {
      pic[i] := image[Offset(i)];
    }
  }

  /** Pokes the record back into the dump, one logical index at a time (midway_pic_tool.c:200-231). */
  method WriteRecord(image: array<Byte>, pic: array<Byte>)
    requires image.Length >= MinImageSize && pic.Length == RecordSize
    modifies image
    ensures image[..] == WriteBack(old(image[..]), pic[..])
  {
    for i := 0 to RecordSize
      invariant image[..] == Scatter(old(image[..]), pic[..], i)
    {
      image[Offset(i)] := pic[i];
    }
  }
}
