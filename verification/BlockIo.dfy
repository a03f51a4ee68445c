/**
 Bytes and transfers: the little-endian decoders and the full-transfer loops of
 services/module_update/util/src/module_utils.cpp.
 */
module BlockIo {
  import opened Common

  // ---------------------------------------------------------------- little-endian numbers

  function LE16(n: uint16): (b: seq<byte>)
    ensures |b| == 2
  {
    [n % 0x100, n / 0x100]
  }

  function LE32(n: uint32): (b: seq<byte>)
    ensures |b| == 4
  {
    LE16(n % 0x1_0000) + LE16(n / 0x1_0000)
  }

  function LE64(n: uint64): (b: seq<byte>)
    ensures |b| == 8
  {
    LE32(n % 0x1_0000_0000) + LE32(n / 0x1_0000_0000)
  }

  /** The sum is taken in 16 bits, as the source does. */
  function ReadLE16(b: seq<byte>, at: nat): uint16
    requires at + 2 <= |b|
  {
    (b[at] + (b[at + 1] * 0x100) % TWO_TO_THE_16) % TWO_TO_THE_16
  }

  function ReadLE32(b: seq<byte>, at: nat): uint32
    requires at + 4 <= |b|
  {
    ReadLE16(b, at + 2) * 0x1_0000 + ReadLE16(b, at)
  }

  function ReadLE64(b: seq<byte>, at: nat): uint64
    requires at + 8 <= |b|
  {
    ReadLE32(b, at + 4) * 0x1_0000_0000 + ReadLE32(b, at)
  }

  lemma ReadLE16Inverts(b: seq<byte>, at: nat, n: uint16)
    requires at + 2 <= |b| && b[at..at + 2] == LE16(n)
    ensures ReadLE16(b, at) == n
  {
    assert b[at] == b[at..at + 2][0] && b[at + 1] == b[at..at + 2][1];
  }

  lemma ReadLE32Inverts(b: seq<byte>, at: nat, n: uint32)
    requires at + 4 <= |b| && b[at..at + 4] == LE32(n)
    ensures ReadLE32(b, at) == n
  {
    assert b[at..at + 2] == b[at..at + 4][..2] == LE16(n % 0x1_0000);
    assert b[at + 2..at + 4] == b[at..at + 4][2..] == LE16(n / 0x1_0000);
    ReadLE16Inverts(b, at, n % 0x1_0000);
    ReadLE16Inverts(b, at + 2, n / 0x1_0000);
  }

  lemma ReadLE64Inverts(b: seq<byte>, at: nat, n: uint64)
    requires at + 8 <= |b| && b[at..at + 8] == LE64(n)
    ensures ReadLE64(b, at) == n
  {
    assert b[at..at + 4] == b[at..at + 8][..4] == LE32(n % 0x1_0000_0000);
    assert b[at + 4..at + 8] == b[at..at + 8][4..] == LE32(n / 0x1_0000_0000);
    ReadLE32Inverts(b, at, n % 0x1_0000_0000);
    ReadLE32Inverts(b, at + 4, n / 0x1_0000_0000);
  }

  // ---------------------------------------------------------------- full transfers

  function Min(a: int, b: int): int {
    if a < b then a else b
  }

  /**
   What the k-th system call moves: an error when the environment says so, nothing at the end of the device, and
   otherwise at least one byte and at most what was asked for.
   */
  function Transfer(transfers: nat -> int, k: nat, count: nat, offset: nat, size: nat): int
    ensures transfers(k) > 0 && count > 0 && offset < size ==> Transfer(transfers, k, count, offset, size) > 0
  {
    if transfers(k) <= 0 then -1
    else if offset >= size then 0
    else Min(transfers(k), Min(count, size - offset))
  }

  ghost predicate AllPositive(transfers: nat -> int) {
    forall k :: transfers(k) > 0
  }

  method ReadFullyAtOffset(fd: array<byte>, data: array<byte>, count: nat, offset: nat, transfers: nat -> int)
    returns (ok: bool)
    requires count <= data.Length && fd != data
    modifies data
    ensures ok ==> (count == 0 || offset + count <= fd.Length)
    ensures ok && count > 0 ==> data[..count] == fd[..][offset..offset + count]
    ensures AllPositive(transfers) ==> (ok <==> count == 0 || offset + count <= fd.Length)
    ensures data[count..] == old(data[count..])
  {
    var done, k := 0, 0;
    while done < count
      invariant 0 <= done <= count
      invariant done > 0 ==> offset + done <= fd.Length
      invariant forall i :: 0 <= i < done ==> data[i] == fd[offset + i]
      invariant data[count..] == old(data[count..])
    {
      var readSize := Transfer(transfers, k, count - done, offset + done, fd.Length);
      if readSize <= 0 {
        return false;
      }
      forall i | 0 <= i < readSize {
        data[done + i] := fd[offset + done + i];
      }
      done, k := done + readSize, k + 1;
    }
    return true;
  }

  method WriteFullyAtOffset(fd: array<byte>, data: seq<byte>, offset: nat, transfers: nat -> int) returns (ok: bool)
    modifies fd
    ensures ok ==> (|data| == 0 || offset + |data| <= fd.Length)
    ensures ok && |data| > 0 ==> fd[offset..offset + |data|] == data
    ensures AllPositive(transfers) ==> (ok <==> |data| == 0 || offset + |data| <= fd.Length)
    ensures forall i :: 0 <= i < fd.Length && (i < offset || i >= offset + |data|) ==> fd[i] == old(fd[i])
  {
    var done, k := 0, 0;
    while done < |data|
      invariant 0 <= done <= |data|
      invariant done > 0 ==> offset + done <= fd.Length
      invariant forall i :: 0 <= i < done ==> fd[offset + i] == data[i]
      invariant forall i :: 0 <= i < fd.Length && (i < offset || i >= offset + |data|) ==> fd[i] == old(fd[i])
    {
      var writeSize := Transfer(transfers, k, |data| - done, offset + done, fd.Length);
      if writeSize <= 0 {
        return false;
      }
      forall i | 0 <= i < writeSize {
        fd[offset + done + i] := data[done + i];
      }
      done, k := done + writeSize, k + 1;
    }
    return true;
  }
}
