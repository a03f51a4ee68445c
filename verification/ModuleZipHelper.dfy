/**
 Finding the data of an archive entry: services/module_update/util/src/module_zip_helper.cpp, with the central directory
 of section 4.3.12 of the PKWARE APPNOTE.TXT.
 */
module ModuleZipHelper {
  import opened Common
  import opened BlockIo
  import opened ZipAlign

  const CENTRAL_SIGNATURE: uint32 := 0x02014b50
  const CENTRAL_SIZE := 46
  const LOCAL_HEADER_OFFSET := 42
  const NAME_SIZE := 26
  const EXTRA_SIZE := 28

  // ---------------------------------------------------------------- the central directory the writer appends

  /** Central fields that say nothing about the layout: version made by, and comment size to external attributes. */
  datatype CentralFields = CentralFields(versionMade: seq<byte>, attributes: seq<byte>)

  ghost predicate FieldsOk(c: CentralFields) {
    |c.versionMade| == 2 && |c.attributes| == 10
  }

  function CentralHeader(p: Placed, c: CentralFields): seq<byte>
    requires |Encoded(p.entry.name)| < TWO_TO_THE_16 && p.headerOffset < TWO_TO_THE_32
  {
    LE32(CENTRAL_SIGNATURE) + c.versionMade + p.entry.meta + LE16(|Encoded(p.entry.name)|) + LE16(p.padding)
    + c.attributes + LE32(p.headerOffset)
  }

  /** Byte by byte, as section 4.3.12 of APPNOTE.TXT lays a central header out. */
  lemma CentralHeaderLayout(p: Placed, c: CentralFields)
    requires Writable(p.entry) && FieldsOk(c) && p.headerOffset < TWO_TO_THE_32
    ensures var b: seq<int> := CentralHeader(p, c);
            && |b| == 46
            && b[0] == 'P' as int && b[1] == 'K' as int && b[2] == 1 && b[3] == 2
            && b[6..28] == p.entry.meta
            && b[28] + 256 * b[29] == |Encoded(p.entry.name)| && b[30] + 256 * b[31] == p.padding
            && b[42] + 0x100 * b[43] + 0x1_0000 * b[44] + 0x100_0000 * b[45] == p.headerOffset
  {
    hide Encoded;
  }

  ghost predicate Recordable(placed: seq<Placed>) {
    forall i :: 0 <= i < |placed| ==> Writable(placed[i].entry) && placed[i].headerOffset < TWO_TO_THE_32
  }

  /** A central record: the header, then the name and the same extra field as in the local header. */
  function CentralRecord(p: Placed, c: CentralFields): seq<byte>
    requires |Encoded(p.entry.name)| < TWO_TO_THE_16 && p.headerOffset < TWO_TO_THE_32
  {
    CentralHeader(p, c) + (Encoded(p.entry.name) + Zeros(p.padding))
  }

  ghost function CentralRecords(placed: seq<Placed>, c: CentralFields): (r: seq<seq<byte>>)
    requires Recordable(placed)
    ensures |r| == |placed|
  {
    seq(|placed|, i requires 0 <= i < |placed| => CentralRecord(placed[i], c))
  }

  ghost function Concat(parts: seq<seq<byte>>): seq<byte> {
    if parts == [] then [] else Concat(parts[..|parts| - 1]) + parts[|parts| - 1]
  }

  /** Where the central record of the k-th entry starts. */
  ghost function CentralPosition(entries: seq<byte>, placed: seq<Placed>, c: CentralFields, k: nat): nat
    requires Recordable(placed) && k <= |placed|
  {
    |entries| + |Concat(CentralRecords(placed, c)[..k])|
  }

  /** A finished archive: the entries, the central directory and the end record. */
  ghost function Finished(entries: seq<byte>, placed: seq<Placed>, c: CentralFields, end: seq<byte>): seq<byte>
    requires Recordable(placed)
  {
    entries + Concat(CentralRecords(placed, c)) + end
  }

  lemma {:induction false} PartIsInConcat(parts: seq<seq<byte>>, k: nat)
    requires k < |parts|
    ensures var at := |Concat(parts[..k])|;
            at + |parts[k]| <= |Concat(parts)| && Concat(parts)[at..at + |parts[k]|] == parts[k]
    decreases |parts|
  {
    var front, last := parts[..|parts| - 1], parts[|parts| - 1];
    if k < |front| {
      PartIsInConcat(front, k);
      assert front[..k] == parts[..k];
      SliceOfPrefix(Concat(front), Concat(front) + last, |Concat(parts[..k])|, |parts[k]|);
    } else {
      assert parts[..k] == front;
    }
  }

  lemma HeaderStartsRecord(p: Placed, c: CentralFields)
    requires Writable(p.entry) && FieldsOk(c) && p.headerOffset < TWO_TO_THE_32
    ensures |CentralHeader(p, c)| == CENTRAL_SIZE <= |CentralRecord(p, c)|
    ensures CentralRecord(p, c)[..CENTRAL_SIZE] == CentralHeader(p, c)
  {
  }

  lemma SliceOfPrefix(prefix: seq<byte>, all: seq<byte>, at: nat, size: nat)
    requires prefix <= all && at + size <= |prefix|
    ensures all[at..at + size] == prefix[at..at + size]
  {
  }

  lemma SliceOfSlice(all: seq<byte>, from: nat, to: nat, at: nat, size: nat)
    requires from <= to <= |all| && at + size <= to - from
    ensures all[from..to][at..at + size] == all[from + at..from + at + size]
  {
    var inner, outer := all[from..to], all[from + at..from + at + size];
    forall i | 0 <= i < size
      ensures inner[at..at + size][i] == outer[i]
    {
      assert inner[at + i] == all[from + (at + i)];
    }
  }

  // ---------------------------------------------------------------- the reader

  /** What the reader makes of the bytes of an archive, for a central record at `position`. */
  function EntryOffset(archive: seq<byte>, position: uint32): Option<uint32> {
    if position + CENTRAL_SIZE > |archive| then None
    else if ReadLE32(archive, position) != CENTRAL_SIGNATURE then None
    else
      var header := ReadLE32(archive, position + LOCAL_HEADER_OFFSET);
      if header + LOCHDR > |archive| then None
      else if ReadLE32(archive, header) != LOCAL_HEADER_SIGNATURE then None
      else
        var names, extras := ReadLE16(archive, header + NAME_SIZE), ReadLE16(archive, header + EXTRA_SIZE);
        Some((header + LOCHDR + names + extras) % TWO_TO_THE_32)
  }

  lemma ReadsAgree(all: seq<byte>, start: nat, size: nat, at: nat)
    requires start + size <= |all|
    ensures at + 2 <= size ==> ReadLE16(all[start..start + size], at) == ReadLE16(all, start + at)
    ensures at + 4 <= size ==> ReadLE32(all[start..start + size], at) == ReadLE32(all, start + at)
  {
  }

  method ReadHeader(fd: array<byte>, size: nat, offset: nat, transfers: nat -> int) returns (header: Option<seq<byte>>)
    requires size > 0
    ensures header.Some? ==> offset + size <= fd.Length && header.value == fd[..][offset..offset + size]
    ensures AllPositive(transfers) ==> (header.Some? <==> offset + size <= fd.Length)
  {
    var buffer := new byte[size];
    var ok := ReadFullyAtOffset(fd, buffer, size, offset, transfers);
    if !ok {
      return None;
    }
    assert buffer[..] == buffer[..size];
    return Some(buffer[..]);
  }

  method GetFileEntryOffset(fd: array<byte>, centralDirOffset: uint32, transfers: nat -> int)
    returns (offset: Option<uint32>)
    ensures offset.Some? ==> offset == EntryOffset(fd[..], centralDirOffset)
    ensures AllPositive(transfers) ==> offset == EntryOffset(fd[..], centralDirOffset)
  {
    hide ReadLE16, ReadLE32;
    var central := ReadHeader(fd, CENTRAL_SIZE, centralDirOffset, transfers);
    if central.None? {
      return None;
    }
    ReadsAgree(fd[..], centralDirOffset, CENTRAL_SIZE, 0);
    ReadsAgree(fd[..], centralDirOffset, CENTRAL_SIZE, LOCAL_HEADER_OFFSET);
    if ReadLE32(central.value, 0) != CENTRAL_SIGNATURE {
      return None;
    }
    var localHeaderOffset := ReadLE32(central.value, LOCAL_HEADER_OFFSET);
    var local := ReadHeader(fd, LOCHDR, localHeaderOffset, transfers);
    if local.None? {
      return None;
    }
    ReadsAgree(fd[..], localHeaderOffset, LOCHDR, 0);
    ReadsAgree(fd[..], localHeaderOffset, LOCHDR, NAME_SIZE);
    ReadsAgree(fd[..], localHeaderOffset, LOCHDR, EXTRA_SIZE);
    if ReadLE32(local.value, 0) != LOCAL_HEADER_SIGNATURE {
      return None;
    }
    var nameSize, extraSize := ReadLE16(local.value, NAME_SIZE), ReadLE16(local.value, EXTRA_SIZE);
    return Some((localHeaderOffset + LOCHDR + nameSize + extraSize) % TWO_TO_THE_32);
  }

  // ---------------------------------------------------------------- writer and reader agree

  lemma LocalHeaderFields(archive: seq<byte>, p: Placed)
    requires LaidOut(archive, p)
    ensures p.headerOffset + LOCHDR <= p.dataStart <= p.dataStart + |p.entry.data| <= |archive|
    ensures p.dataStart == p.headerOffset + LOCHDR + |Encoded(p.entry.name)| + p.padding
    ensures archive[p.dataStart..p.dataStart + |p.entry.data|] == p.entry.data
    ensures ReadLE32(archive, p.headerOffset) == LOCAL_HEADER_SIGNATURE
    ensures ReadLE16(archive, p.headerOffset + NAME_SIZE) == |Encoded(p.entry.name)|
    ensures ReadLE16(archive, p.headerOffset + EXTRA_SIZE) == p.padding
  {
    var h, b := p.headerOffset, LocalHeader(p.entry, p.padding);
    var all := archive[h..p.dataStart];
    assert all[..LOCHDR] == b;
    assert b[..4] == LE32(LOCAL_HEADER_SIGNATURE);
    assert b[NAME_SIZE..NAME_SIZE + 2] == LE16(|Encoded(p.entry.name)|);
    assert b[EXTRA_SIZE..EXTRA_SIZE + 2] == LE16(p.padding);
    SliceOfPrefix(b, all, 0, 4);
    SliceOfPrefix(b, all, NAME_SIZE, 2);
    SliceOfPrefix(b, all, EXTRA_SIZE, 2);
    SliceOfSlice(archive, h, p.dataStart, 0, 4);
    SliceOfSlice(archive, h, p.dataStart, NAME_SIZE, 2);
    SliceOfSlice(archive, h, p.dataStart, EXTRA_SIZE, 2);
    ReadLE32Inverts(archive, h, LOCAL_HEADER_SIGNATURE);
    ReadLE16Inverts(archive, h + NAME_SIZE, |Encoded(p.entry.name)|);
    ReadLE16Inverts(archive, h + EXTRA_SIZE, p.padding);
  }

  lemma CentralHeaderFields(archive: seq<byte>, at: nat, p: Placed, c: CentralFields)
    requires Writable(p.entry) && FieldsOk(c) && p.headerOffset < TWO_TO_THE_32
    requires at + CENTRAL_SIZE <= |archive| && archive[at..at + CENTRAL_SIZE] == CentralHeader(p, c)
    ensures ReadLE32(archive, at) == CENTRAL_SIGNATURE
    ensures ReadLE32(archive, at + LOCAL_HEADER_OFFSET) == p.headerOffset
  {
    var b := CentralHeader(p, c);
    assert b[..4] == LE32(CENTRAL_SIGNATURE) && b[LOCAL_HEADER_OFFSET..CENTRAL_SIZE] == LE32(p.headerOffset);
    SliceOfSlice(archive, at, at + CENTRAL_SIZE, 0, 4);
    SliceOfSlice(archive, at, at + CENTRAL_SIZE, LOCAL_HEADER_OFFSET, 4);
    ReadLE32Inverts(archive, at, CENTRAL_SIGNATURE);
    ReadLE32Inverts(archive, at + LOCAL_HEADER_OFFSET, p.headerOffset);
  }

  lemma OffsetFromFields(archive: seq<byte>, position: uint32, p: Placed)
    requires position + CENTRAL_SIZE <= |archive| < TWO_TO_THE_32
    requires ReadLE32(archive, position) == CENTRAL_SIGNATURE
    requires ReadLE32(archive, position + LOCAL_HEADER_OFFSET) == p.headerOffset
    requires p.headerOffset + LOCHDR <= |archive| && p.dataStart <= |archive|
    requires ReadLE32(archive, p.headerOffset) == LOCAL_HEADER_SIGNATURE
    requires p.dataStart == p.headerOffset + LOCHDR
                            + ReadLE16(archive, p.headerOffset + NAME_SIZE) + ReadLE16(archive, p.headerOffset + EXTRA_SIZE)
    ensures EntryOffset(archive, position) == Some(p.dataStart)
  {
    hide ReadLE16, ReadLE32;
  }

  lemma HeaderOfPartInArchive(entries: seq<byte>, parts: seq<seq<byte>>, end: seq<byte>, k: nat, header: seq<byte>)
    requires k < |parts| && header <= parts[k]
    ensures var archive, at := entries + Concat(parts) + end, |entries| + |Concat(parts[..k])|;
            at + |header| <= |archive| && archive[at..at + |header|] == header
  {
    PartIsInConcat(parts, k);
    MiddleOfArchive(entries, Concat(parts), end, |Concat(parts[..k])|, parts[k], |header|);
  }

  lemma MiddleOfArchive(entries: seq<byte>, d: seq<byte>, end: seq<byte>, at: nat, part: seq<byte>, size: nat)
    requires at + |part| <= |d| && d[at..at + |part|] == part && size <= |part|
    ensures |entries| + at + size <= |entries + d + end|
    ensures (entries + d + end)[|entries| + at..|entries| + at + size] == part[..size]
  {
    SliceOfSlice(d, at, at + |part|, 0, size);
  }

  /** The central record of an entry is where its position says, and carries the offset of the local header. */
  lemma CentralRecordIsThere(
    entries: seq<byte>, placed: seq<Placed>, c: CentralFields, end: seq<byte>, k: nat)
    requires Recordable(placed) && FieldsOk(c) && k < |placed|
    ensures var archive, at := Finished(entries, placed, c, end), CentralPosition(entries, placed, c, k);
            && at + CENTRAL_SIZE <= |archive|
            && ReadLE32(archive, at) == CENTRAL_SIGNATURE
            && ReadLE32(archive, at + LOCAL_HEADER_OFFSET) == placed[k].headerOffset
  {
    hide CentralHeader, CentralRecord, CentralRecords, ReadLE32, Concat, Recordable, Encoded, Zeros, FieldsOk,
      Finished, CentralPosition;
    var records, p := CentralRecords(placed, c), placed[k];
    RecordOf(placed, c, k);
    HeaderStartsRecord(p, c);
    HeaderOfPartInArchive(entries, records, end, k, CentralHeader(p, c));
    PositionInFinished(entries, placed, c, end, k);
    CentralHeaderFields(Finished(entries, placed, c, end), CentralPosition(entries, placed, c, k), p, c);
  }

  lemma RecordOf(placed: seq<Placed>, c: CentralFields, k: nat)
    requires Recordable(placed) && k < |placed|
    ensures CentralRecords(placed, c)[k] == CentralRecord(placed[k], c)
    ensures Writable(placed[k].entry) && placed[k].headerOffset < TWO_TO_THE_32
  {
    hide CentralRecord;
  }

  lemma PositionInFinished(entries: seq<byte>, placed: seq<Placed>, c: CentralFields, end: seq<byte>, k: nat)
    requires Recordable(placed) && k < |placed|
    ensures Finished(entries, placed, c, end) == entries + Concat(CentralRecords(placed, c)) + end
    ensures CentralPosition(entries, placed, c, k) == |entries| + |Concat(CentralRecords(placed, c)[..k])|
  {
  }

  /** In every archive below 4 GiB the reader finds, from an entry's central record, where the writer put its data. */
  lemma ReaderFindsData(
    entries: seq<byte>, placed: seq<Placed>, defaultAlignment: int, c: CentralFields, end: seq<byte>, k: nat)
    requires Archived(entries, placed, defaultAlignment) && FieldsOk(c) && k < |placed|
    requires Recordable(placed) && |Finished(entries, placed, c, end)| < TWO_TO_THE_32
    ensures var archive, position := Finished(entries, placed, c, end), CentralPosition(entries, placed, c, k);
            && position < TWO_TO_THE_32
            && EntryOffset(archive, position) == Some(placed[k].dataStart)
            && archive[placed[k].dataStart..placed[k].dataStart + |placed[k].entry.data|] == placed[k].entry.data
  {
    hide ReadLE16, ReadLE32, EntryOffset, LaidOut, WellPlaced, Lag, Recordable, CentralRecords;
    var archive, p := Finished(entries, placed, c, end), placed[k];
    var rest := Concat(CentralRecords(placed, c)) + end;
    assert archive == entries + rest;
    assert LaidOut(entries, p);
    AppendKeepsLaidOut(entries, rest, p);
    LocalHeaderFields(archive, p);
    CentralRecordIsThere(entries, placed, c, end, k);
    OffsetFromFields(archive, CentralPosition(entries, placed, c, k), p);
  }
}
