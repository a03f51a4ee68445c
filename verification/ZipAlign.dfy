/**
 The aligning archive writer: tools/zipalign/src/main/java/com/ohos/ZipAlign.java.

 The output stream is java.util.zip's: for a stored entry it writes the local file header of section 4.3.7 of the PKWARE
 APPNOTE.TXT, the encoded name, the extra field and the data. Header fields between the signature and the name length
 are carried as the bytes they are.
 */
module ZipAlign {
  import opened Common
  import opened BlockIo

  const STORED_ENTRY_SO_ALIGNMENT := 4096
  const BUFFER_LENGTH := 4096
  const LOCHDR := 30
  const LOCAL_HEADER_SIGNATURE: uint32 := 0x04034b50
  const MAX_EXTRA := 0xFFFF

  // ---------------------------------------------------------------- names

  /** Length of a character in java.lang.String, in UTF-16 units. */
  function Units(c: char): nat {
    if (c as int) < 0x1_0000 then 1 else 2
  }

  function Utf8(c: char): (b: seq<byte>)
    ensures |b| >= Units(c)
    ensures |b| == Units(c) <==> (c as int) < 0x80
  {
    var n := c as int;
    if n < 0x80 then [n]
    else if n < 0x800 then [0xC0 + n / 0x40, 0x80 + n % 0x40]
    else if n < 0x1_0000 then [0xE0 + n / 0x1000, 0x80 + n / 0x40 % 0x40, 0x80 + n % 0x40]
    else [0xF0 + n / 0x4_0000 % 8, 0x80 + n / 0x1000 % 0x40, 0x80 + n / 0x40 % 0x40, 0x80 + n % 0x40]
  }

  function NameLength(name: string): nat {
    if name == "" then 0 else Units(name[0]) + NameLength(name[1..])
  }

  function Encoded(name: string): seq<byte> {
    if name == "" then [] else Utf8(name[0]) + Encoded(name[1..])
  }

  predicate IsAscii(name: string) {
    forall i :: 0 <= i < |name| ==> (name[i] as int) < 0x80
  }

  /** A name is as long as its encoding exactly when it is ASCII, and shorter otherwise. */
  lemma {:induction false} LengthIsExactForAscii(name: string)
    ensures NameLength(name) <= |Encoded(name)|
    ensures NameLength(name) == |Encoded(name)| <==> IsAscii(name)
  {
    if name != "" {
      LengthIsExactForAscii(name[1..]);
      assert IsAscii(name) <==> (name[0] as int) < 0x80 && IsAscii(name[1..]);
    }
  }

  /** The first byte of a character's encoding tells how long it is. */
  lemma LeadByte(c: char)
    ensures var b := Utf8(c)[0];
            |Utf8(c)| == if b < 0x80 then 1 else if b < 0xE0 then 2 else if b < 0xF0 then 3 else 4
  {
  }

  /** The character with these encoded bytes. */
  function CodePoint(b: seq<byte>): int
    requires 0 < |b| <= 4
  {
    var n: seq<int> := b;
    if |b| == 1 then n[0]
    else if |b| == 2 then (n[0] - 0xC0) * 0x40 + (n[1] - 0x80)
    else if |b| == 3 then (n[0] - 0xE0) * 0x1000 + (n[1] - 0x80) * 0x40 + (n[2] - 0x80)
    else (n[0] - 0xF0) * 0x4_0000 + (n[1] - 0x80) * 0x1000 + (n[2] - 0x80) * 0x40 + (n[3] - 0x80)
  }

  lemma Digits(n: nat)
    ensures n == n / 0x40 * 0x40 + n % 0x40
    ensures n / 0x40 == n / 0x1000 * 0x40 + n / 0x40 % 0x40
    ensures n / 0x1000 == n / 0x4_0000 * 0x40 + n / 0x1000 % 0x40
  {
    assert n / 0x1000 == n / 0x40 / 0x40 && n / 0x4_0000 == n / 0x1000 / 0x40;
  }

  lemma Utf8Decodes(c: char)
    ensures 0 < |Utf8(c)| <= 4 && CodePoint(Utf8(c)) == c as int
  {
    Digits(c as int);
  }

  /** Two characters that start the same bytes are the same character. */
  lemma Utf8StartsOne(c: char, d: char, a: seq<byte>, b: seq<byte>)
    requires Utf8(c) + a == Utf8(d) + b
    ensures c == d && a == b
  {
    hide Utf8, CodePoint;
    LeadByte(c);
    LeadByte(d);
    assert (Utf8(c) + a)[0] == Utf8(c)[0] && (Utf8(d) + b)[0] == Utf8(d)[0];
    assert (Utf8(c) + a)[..|Utf8(c)|] == Utf8(c) && (Utf8(d) + b)[..|Utf8(d)|] == Utf8(d);
    assert (Utf8(c) + a)[|Utf8(c)|..] == a && (Utf8(d) + b)[|Utf8(d)|..] == b;
    Utf8Decodes(c);
    Utf8Decodes(d);
  }

  /** No two names have one encoding. */
  lemma {:induction false} EncodedIsInjective(a: string, b: string)
    requires Encoded(a) == Encoded(b)
    ensures a == b
  {
    hide Utf8;
    if a == "" || b == "" {
      NonEmptyEncoding(a);
      NonEmptyEncoding(b);
    } else {
      Utf8StartsOne(a[0], b[0], Encoded(a[1..]), Encoded(b[1..]));
      EncodedIsInjective(a[1..], b[1..]);
      assert a == [a[0]] + a[1..] && b == [b[0]] + b[1..];
    }
  }

  lemma NonEmptyEncoding(a: string)
    ensures Encoded(a) == [] <==> a == ""
  {
  }

  // ---------------------------------------------------------------- the output stream

  /** An entry of the input archive; `meta` is the 22 bytes from version needed to uncompressed size. */
  datatype Entry = Entry(name: string, stored: bool, meta: seq<byte>, data: seq<byte>)

  ghost predicate Writable(e: Entry) {
    |e.meta| == 22 && |Encoded(e.name)| < TWO_TO_THE_16
  }

  function LocalHeader(e: Entry, extra: uint16): (b: seq<byte>)
    requires |e.meta| == 22 && |Encoded(e.name)| < TWO_TO_THE_16
    ensures |b| == LOCHDR
  {
    LE32(LOCAL_HEADER_SIGNATURE) + e.meta + LE16(|Encoded(e.name)|) + LE16(extra)
  }

  /** Byte by byte, as section 4.3.7 of APPNOTE.TXT lays a local header out. */
  lemma LocalHeaderLayout(e: Entry, extra: uint16)
    requires Writable(e)
    ensures var b: seq<int> := LocalHeader(e, extra);
            && |b| == 30 && b[0] == 'P' as int && b[1] == 'K' as int && b[2] == 3 && b[3] == 4
            && b[4..26] == e.meta
            && b[26] + 256 * b[27] == |Encoded(e.name)| && b[28] + 256 * b[29] == extra
  {
    hide Encoded;
  }

  function Zeros(n: nat): (b: seq<byte>)
    ensures |b| == n
  {
    seq(n, _ => 0)
  }

  /** Where an entry was written: its header, the padding in its extra field, and its data. */
  datatype Placed = Placed(entry: Entry, headerOffset: nat, padding: uint16, dataStart: nat, tracked: nat)

  ghost predicate LaidOut(bytes: seq<byte>, p: Placed) {
    && Writable(p.entry)
    && p.dataStart == p.headerOffset + LOCHDR + |Encoded(p.entry.name)| + p.padding
    && p.dataStart + |p.entry.data| <= |bytes|
    && bytes[p.headerOffset..p.dataStart] == LocalHeader(p.entry, p.padding) + Encoded(p.entry.name) + Zeros(p.padding)
    && bytes[p.dataStart..p.dataStart + |p.entry.data|] == p.entry.data
  }

  lemma AppendKeepsLaidOut(bytes: seq<byte>, more: seq<byte>, p: Placed)
    requires LaidOut(bytes, p)
    ensures LaidOut(bytes + more, p)
  {
    var all := bytes + more;
    assert all[p.headerOffset..p.dataStart] == bytes[p.headerOffset..p.dataStart];
    assert all[p.dataStart..p.dataStart + |p.entry.data|] == bytes[p.dataStart..p.dataStart + |p.entry.data|];
  }

  class ZipOutputStream {
    var bytes: seq<byte>

    constructor ()
      ensures bytes == []
    {
      bytes := [];
    }

    method PutNextEntry(e: Entry, padding: uint16)
      requires Writable(e)
      modifies this
      ensures bytes == old(bytes) + (LocalHeader(e, padding) + Encoded(e.name) + Zeros(padding))
    {
      bytes := bytes + (LocalHeader(e, padding) + Encoded(e.name) + Zeros(padding));
    }

    method Write(data: seq<byte>)
      modifies this
      ensures bytes == old(bytes) + data
    {
      bytes := bytes + data;
    }
  }

  // ---------------------------------------------------------------- the copying loop

  predicate EndsWith(s: string, suffix: string) {
    |s| >= |suffix| && s[|s| - |suffix|..] == suffix
  }

  function GetStoredEntryDataAlignment(name: string, defaultAlignment: int): (r: nat)
    ensures r == 0 <==> defaultAlignment <= 0
  {
    if defaultAlignment <= 0 then 0
    else if EndsWith(name, ".so") then STORED_ENTRY_SO_ALIGNMENT
    else defaultAlignment
  }

  /** Libraries are aligned to pages, all other names to the default. */
  lemma LibrariesArePageAligned(name: string, defaultAlignment: int)
    requires defaultAlignment > 0
    ensures (exists stem :: name == stem + ".so") ==> GetStoredEntryDataAlignment(name, defaultAlignment) == 4096
    ensures (forall stem :: name != stem + ".so") ==>
              GetStoredEntryDataAlignment(name, defaultAlignment) == defaultAlignment
  {
    if EndsWith(name, ".so") {
      assert name == name[..|name| - 3] + ".so";
    }
  }

  function Stored(entries: seq<Entry>): seq<Entry> {
    if entries == [] then []
    else Stored(entries[..|entries| - 1]) + (if entries[|entries| - 1].stored then [entries[|entries| - 1]] else [])
  }

  /** The stored entries of two lists, one after the other, keep their order. */
  lemma {:induction false} StoredConcat(a: seq<Entry>, b: seq<Entry>)
    ensures Stored(a + b) == Stored(a) + Stored(b)
  {
    if b == [] {
      assert a + b == a;
    } else {
      StoredConcat(a, b[..|b| - 1]);
      assert (a + b)[..|a + b| - 1] == a + b[..|b| - 1];
    }
  }

  /** Exactly the entries whose method is stored, each as often as it occurs. */
  lemma {:induction false} StoredCounts(entries: seq<Entry>, e: Entry)
    ensures multiset(Stored(entries))[e] == if e.stored then multiset(entries)[e] else 0
  {
    if entries != [] {
      var front, last := entries[..|entries| - 1], entries[|entries| - 1];
      assert Stored(entries) == Stored(front) + if last.stored then [last] else [];
      hide Stored;
      StoredCounts(front, e);
      assert entries == front + [last];
      AppendCounts(front, last, e);
      if last.stored {
        AppendCounts(Stored(front), last, e);
      } else {
        assert Stored(front) + [] == Stored(front);
      }
    }
  }

  /** How far the tracked offset lags behind the bytes written, for the names written so far. */
  function Lag(placed: seq<Placed>): nat {
    if placed == [] then 0
    else
      var name := placed[|placed| - 1].entry.name;
      LengthIsExactForAscii(name);
      Lag(placed[..|placed| - 1]) + (|Encoded(name)| - NameLength(name))
  }

  ghost predicate AsciiNames(placed: seq<Placed>) {
    forall i :: 0 <= i < |placed| ==> IsAscii(placed[i].entry.name)
  }

  lemma {:induction false} LagIsZeroForAscii(placed: seq<Placed>)
    ensures Lag(placed) == 0 <==> AsciiNames(placed)
  {
    if placed != [] {
      var front := placed[..|placed| - 1];
      LagIsZeroForAscii(front);
      LengthIsExactForAscii(placed[|placed| - 1].entry.name);
      assert AsciiNames(placed) <==> AsciiNames(front) && IsAscii(placed[|placed| - 1].entry.name);
    }
  }

  /** What the writer guarantees of one entry, relative to its own running offset. */
  ghost predicate WellPlaced(p: Placed, defaultAlignment: int) {
    var alignment := GetStoredEntryDataAlignment(p.entry.name, defaultAlignment);
    if alignment > 0 then p.tracked % alignment == 0 && p.padding < alignment else p.padding == 0
  }

  /** Copy the data of one entry in reads of the sizes the input stream gives. */
  method CopyData(out: ZipOutputStream, data: seq<byte>, chunks: nat -> nat) returns (copied: nat)
    modifies out
    ensures out.bytes == old(out.bytes) + data && copied == |data|
  {
    copied := 0;
    var k := 0;
    assert data[..0] == [];
    while copied < |data|
      invariant 0 <= copied <= |data|
      invariant out.bytes == old(out.bytes) + data[..copied]
    {
      var num := Min(BUFFER_LENGTH, Min(1 + chunks(k), |data| - copied));
      out.Write(data[copied..copied + num]);
      assert data[..copied] + data[copied..copied + num] == data[..copied + num];
      copied, k := copied + num, k + 1;
    }
    assert data[..|data|] == data;
  }

  /** The padding that takes an offset to the next multiple of the alignment; none without an alignment. */
  method NeededPadding(offset: nat, alignment: nat) returns (needed: nat)
    ensures if alignment > 0 then (offset + needed) % alignment == 0 && needed < alignment else needed == 0
  {
    needed := 0;
    if alignment > 0 && offset % alignment != 0 {
      needed := alignment - offset % alignment;
      PaddingAligns(offset, alignment);
    }
  }

  /** Put one entry with this padding: header and data, one behind the other at the end of the stream. */
  method PutEntry(out: ZipOutputStream, e: Entry, padding: uint16, chunks: nat -> nat) returns (copied: nat)
    requires Writable(e)
    modifies out
    ensures var head := |old(out.bytes)|;
            var start := head + LOCHDR + |Encoded(e.name)| + padding;
            && copied == |e.data|
            && old(out.bytes) <= out.bytes && |out.bytes| == start + |e.data|
            && out.bytes[head..start] == LocalHeader(e, padding) + Encoded(e.name) + Zeros(padding)
            && out.bytes[start..start + |e.data|] == e.data
  {
    hide Encoded;
    var before := |out.bytes|;
    ghost var head := LocalHeader(e, padding) + Encoded(e.name) + Zeros(padding);
    out.PutNextEntry(e, padding);
    copied := CopyData(out, e.data, chunks);
    var start := before + LOCHDR + |Encoded(e.name)| + padding;
    assert out.bytes[before..start] == head;
    assert out.bytes[start..start + |e.data|] == e.data;
  }

  /** Write one stored entry; a padding that does not fit an extra field makes setExtra throw. */
  method CopyEntry(out: ZipOutputStream, fileOffset: nat, e: Entry, defaultAlignment: int, chunks: nat -> nat)
    returns (p: Option<Placed>, newOffset: nat)
    requires Writable(e)
    modifies out
    ensures p.None? ==> defaultAlignment > MAX_EXTRA + 1 && out.bytes == old(out.bytes)
    ensures p.Some? ==> && p.value.entry == e && p.value.headerOffset == |old(out.bytes)|
                        && p.value.dataStart == |old(out.bytes)| + LOCHDR + |Encoded(e.name)| + p.value.padding
                        && LaidOut(out.bytes, p.value) && WellPlaced(p.value, defaultAlignment)
                        && old(out.bytes) <= out.bytes && |out.bytes| == p.value.dataStart + |e.data|
                        && p.value.tracked == fileOffset + LOCHDR + NameLength(e.name) + p.value.padding
                        && newOffset == p.value.tracked + |e.data|
  {
    hide Encoded, NameLength, LocalHeader, Zeros;
    newOffset := fileOffset + LOCHDR + NameLength(e.name);
    var alignment := GetStoredEntryDataAlignment(e.name, defaultAlignment);
    var needed := NeededPadding(newOffset, alignment);
    if needed > MAX_EXTRA {
      return None, newOffset;
    }
    newOffset := newOffset + needed;
    var before, tracked := |out.bytes|, newOffset;
    var copied := PutEntry(out, e, needed, chunks);
    newOffset := newOffset + copied;
    p := Some(Placed(e, before, needed, before + LOCHDR + |Encoded(e.name)| + needed, tracked));
  }

  lemma PaddingAligns(offset: nat, alignment: nat)
    requires alignment > 0
    ensures (offset + (alignment - offset % alignment)) % alignment == 0
  {
    var q := offset / alignment;
    assert offset + (alignment - offset % alignment) == alignment * (q + 1) by {
      assert offset == alignment * q + offset % alignment;
    }
    MultipleHasNoRemainder(q + 1, alignment);
  }

  lemma MultipleHasNoRemainder(q: int, alignment: int)
    requires alignment > 0
    ensures (alignment * q) % alignment == 0
  {
    var d, m := (alignment * q) / alignment, (alignment * q) % alignment;
    assert alignment * q == alignment * d + m;
    assert alignment * (q - d) == m;
    MultipleInRange(alignment, q - d);
  }

  lemma MultipleInRange(alignment: int, t: int)
    requires alignment > 0
    ensures t >= 1 ==> alignment * t >= alignment
    ensures t <= -1 ==> alignment * t <= -alignment
  {
  }

  /** The entries lie one after another from the start of the archive, each as WellPlaced and LaidOut say. */
  ghost predicate Archived(bytes: seq<byte>, placed: seq<Placed>, defaultAlignment: int) {
    forall i :: 0 <= i < |placed| ==>
                  && LaidOut(bytes, placed[i]) && WellPlaced(placed[i], defaultAlignment)
                  && placed[i].headerOffset == EndOf(placed, i)
                  && placed[i].dataStart == placed[i].tracked + Lag(placed[..i + 1])
  }

  /** Where the entries before the i-th end. */
  ghost function EndOf(placed: seq<Placed>, i: nat): nat
    requires i <= |placed|
  {
    if i == 0 then 0 else placed[i - 1].dataStart + |placed[i - 1].entry.data|
  }

  lemma OneMoreArchived(bytes: seq<byte>, all: seq<byte>, placed: seq<Placed>, p: Placed, defaultAlignment: int)
    requires Archived(bytes, placed, defaultAlignment) && bytes <= all
    requires LaidOut(all, p) && WellPlaced(p, defaultAlignment) && p.headerOffset == EndOf(placed, |placed|)
    requires p.dataStart == p.tracked + Lag(placed + [p])
    ensures Archived(all, placed + [p], defaultAlignment)
  {
    hide WellPlaced, LaidOut, Lag;
    var more := placed + [p];
    assert all == bytes + all[|bytes|..];
    forall i | 0 <= i < |more|
      ensures && LaidOut(all, more[i]) && WellPlaced(more[i], defaultAlignment)
              && more[i].headerOffset == EndOf(more, i)
              && more[i].dataStart == more[i].tracked + Lag(more[..i + 1])
    {
      if i < |placed| {
        AppendKeepsLaidOut(bytes, all[|bytes|..], placed[i]);
        assert more[..i + 1] == placed[..i + 1];
      } else {
        assert more[..i + 1] == more;
      }
    }
  }

  lemma EmptyLists(entries: seq<Entry>)
    ensures Stored(entries[..0]) == [] && Lag([]) == 0
  {
  }

  lemma StoredOneMore(entries: seq<Entry>, n: nat)
    requires n < |entries|
    ensures Stored(entries[..n + 1]) == Stored(entries[..n]) + (if entries[n].stored then [entries[n]] else [])
  {
    assert entries[..n + 1][..n] == entries[..n];
  }

  lemma LagOneMore(placed: seq<Placed>, p: Placed)
    ensures NameLength(p.entry.name) <= |Encoded(p.entry.name)|
    ensures Lag(placed + [p]) == Lag(placed) + (|Encoded(p.entry.name)| - NameLength(p.entry.name))
  {
    LengthIsExactForAscii(p.entry.name);
    assert (placed + [p])[..|placed|] == placed;
  }

  /**
   Copy the stored entries, in the order given. The tracked offset is behind the bytes really written by the lag of the
   names, so the two agree exactly as long as the names are ASCII.
   */
  method CopyFiles(entries: seq<Entry>, defaultAlignment: int, chunks: nat -> nat)
    returns (out: ZipOutputStream, placed: Option<seq<Placed>>, fileOffset: nat)
    requires forall e :: e in entries && e.stored ==> Writable(e)
    ensures fresh(out)
    ensures defaultAlignment <= MAX_EXTRA + 1 ==> placed.Some?
    ensures placed.Some? ==>
              && |placed.value| == |Stored(entries)|
              && (forall i :: 0 <= i < |placed.value| ==> placed.value[i].entry == Stored(entries)[i])
              && Archived(out.bytes, placed.value, defaultAlignment)
              && |out.bytes| == EndOf(placed.value, |placed.value|)
              && fileOffset + Lag(placed.value) == |out.bytes|
  {
    hide WellPlaced, LaidOut, Encoded, NameLength, Lag, Stored;
    EmptyLists(entries);
    out := new ZipOutputStream();
    fileOffset := 0;
    var done: seq<Placed> := [];
    for n := 0 to |entries|
      invariant fresh(out)
      invariant |done| == |Stored(entries[..n])|
      invariant forall i :: 0 <= i < |done| ==> done[i].entry == Stored(entries[..n])[i]
      invariant Archived(out.bytes, done, defaultAlignment)
      invariant |out.bytes| == EndOf(done, |done|)
      invariant fileOffset + Lag(done) == |out.bytes|
    {
      StoredOneMore(entries, n);
      if !entries[n].stored {
        continue;
      }
      ghost var before := out.bytes;
      var p;
      p, fileOffset := CopyEntry(out, fileOffset, entries[n], defaultAlignment, chunks);
      if p.None? {
        return out, None, fileOffset;
      }
      LagOneMore(done, p.value);
      OneMoreArchived(before, out.bytes, done, p.value, defaultAlignment);
      done := done + [p.value];
    }
    assert entries[..|entries|] == entries;
    placed := Some(done);
  }

  lemma AlignedShift(tracked: nat, lag: nat, alignment: nat)
    requires alignment > 0 && tracked % alignment == 0
    ensures (tracked + lag) % alignment == 0 <==> lag % alignment == 0
  {
    var q := tracked / alignment;
    assert tracked == alignment * q;
    if lag % alignment == 0 {
      assert tracked + lag == alignment * (q + lag / alignment);
      MultipleHasNoRemainder(q + lag / alignment, alignment);
    }
    if (tracked + lag) % alignment == 0 {
      var r := (tracked + lag) / alignment;
      assert lag == alignment * (r - q);
      MultipleHasNoRemainder(r - q, alignment);
    }
  }

  /** An entry's data really start on a multiple of its alignment exactly when the lag is one. */
  lemma AlignedIffLagIs(bytes: seq<byte>, placed: seq<Placed>, defaultAlignment: int, i: nat)
    requires Archived(bytes, placed, defaultAlignment) && defaultAlignment > 0 && i < |placed|
    ensures var alignment := GetStoredEntryDataAlignment(placed[i].entry.name, defaultAlignment);
            placed[i].dataStart % alignment == 0 <==> Lag(placed[..i + 1]) % alignment == 0
  {
    hide LaidOut, Lag, GetStoredEntryDataAlignment;
    var alignment := GetStoredEntryDataAlignment(placed[i].entry.name, defaultAlignment);
    assert WellPlaced(placed[i], defaultAlignment);
    AlignedShift(placed[i].tracked, Lag(placed[..i + 1]), alignment);
  }

  /** With ASCII names every entry's data starts on a multiple of its alignment, after less padding than that. */
  lemma AsciiEntriesAreAligned(bytes: seq<byte>, placed: seq<Placed>, defaultAlignment: int, i: nat)
    requires Archived(bytes, placed, defaultAlignment) && defaultAlignment > 0
    requires i < |placed| && AsciiNames(placed[..i + 1])
    ensures var alignment := GetStoredEntryDataAlignment(placed[i].entry.name, defaultAlignment);
            placed[i].dataStart % alignment == 0 && placed[i].padding < alignment
  {
    hide LaidOut;
    LagIsZeroForAscii(placed[..i + 1]);
    assert WellPlaced(placed[i], defaultAlignment) && placed[i].tracked == placed[i].dataStart;
  }

  /** The running offset is the number of bytes written exactly when all names written are ASCII. */
  lemma OffsetIsExactIffAscii(bytes: seq<byte>, placed: seq<Placed>, defaultAlignment: int)
    requires Archived(bytes, placed, defaultAlignment)
    ensures (forall i :: 0 <= i < |placed| ==> placed[i].tracked == placed[i].dataStart) <==> AsciiNames(placed)
  {
    hide LaidOut, WellPlaced, Lag, AsciiNames;
    LagIsZeroForAscii(placed);
    forall i | 0 <= i < |placed|
      ensures placed[i].tracked == placed[i].dataStart <==> AsciiNames(placed[..i + 1])
      ensures AsciiNames(placed) ==> AsciiNames(placed[..i + 1])
    {
      LagIsZeroForAscii(placed[..i + 1]);
      AsciiPrefix(placed, i + 1);
    }
    if |placed| > 0 {
      var last := |placed| - 1;
      assert placed[..last + 1] == placed;
      assert placed[last].tracked == placed[last].dataStart <==> AsciiNames(placed);
    } else {
      AsciiNone(placed);
    }
  }

  lemma AsciiNone(placed: seq<Placed>)
    ensures placed == [] ==> AsciiNames(placed)
  {
  }

  lemma AsciiPrefix(placed: seq<Placed>, n: nat)
    requires n <= |placed|
    ensures AsciiNames(placed) ==> AsciiNames(placed[..n])
  {
  }

  const ONE_ACCENT := [0xe9 as char]

  lemma AccentLags(placed: seq<Placed>)
    requires |placed| == 1 && placed[0].entry.name == ONE_ACCENT
    ensures Lag(placed) == 1 && GetStoredEntryDataAlignment(ONE_ACCENT, 4) == 4
  {
    assert ONE_ACCENT[1..] == "" && Utf8(ONE_ACCENT[0]) + [] == Utf8(ONE_ACCENT[0]);
    assert NameLength(ONE_ACCENT) == 1 && |Encoded(ONE_ACCENT)| == 2;
    assert placed[..0] == [];
  }

  lemma AccentIsWritable(e: Entry)
    requires e.name == ONE_ACCENT && |e.meta| == 22
    ensures Writable(e) && Stored([e]) == if e.stored then [e] else []
  {
    assert ONE_ACCENT[1..] == "" && |Encoded(ONE_ACCENT)| <= 4;
    assert [e][..0] == [];
  }

  /** An archive of one stored entry with a one-letter accented name, aligned to 4: its data are not aligned. */
  method AccentIsMisaligned(data: seq<byte>, chunks: nat -> nat) returns (out: ZipOutputStream, start: nat)
    ensures fresh(out) && start + |data| == |out.bytes| && out.bytes[start..] == data
    ensures start % 4 != 0
  {
    var e := Entry(ONE_ACCENT, true, Zeros(22), data);
    AccentIsWritable(e);
    var placed, fileOffset;
    out, placed, fileOffset := CopyFiles([e], 4, chunks);
    AccentLags(placed.value);
    assert placed.value[..1] == placed.value;
    AlignedIffLagIs(out.bytes, placed.value, 4, 0);
    assert LaidOut(out.bytes, placed.value[0]);
    start := placed.value[0].dataStart;
  }
}
