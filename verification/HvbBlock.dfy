/**
 The trailer of the module_update partition: services/module_update/util/src/module_hvb_utils.cpp.

 The header that declares hvb_footer is not part of the repository: its magic bytes and the size of its reserved tail are
 parameters here, and every result holds for all of them.
 */
module HvbBlock {
  import opened Common
  import opened BlockIo

  const DEFAULT_MODULE_HVB_INFO_SIZE := 4 * 1024

  datatype Footer = Footer(
    magic: seq<byte>,
    certOffset: uint64,
    certSize: uint64,
    imageSize: uint64,
    partitionSize: uint64,
    reserved: seq<byte>)

  /** Sizes of the two byte fields. */
  datatype Layout = Layout(magicLen: nat, reservedLen: nat)

  function FooterSize(l: Layout): nat {
    l.magicLen + 32 + l.reservedLen
  }

  ghost predicate Fits(l: Layout, f: Footer) {
    |f.magic| == l.magicLen && |f.reserved| == l.reservedLen
  }

  function Encode(f: Footer): seq<byte> {
    f.magic + LE64(f.certOffset) + LE64(f.certSize) + LE64(f.imageSize) + LE64(f.partitionSize) + f.reserved
  }

  function Decode(l: Layout, b: seq<byte>): Footer
    requires |b| == FooterSize(l)
  {
    var m := l.magicLen;
    Footer(b[..m], ReadLE64(b, m), ReadLE64(b, m + 8), ReadLE64(b, m + 16), ReadLE64(b, m + 24), b[m + 32..])
  }

  lemma DecodeInvertsEncode(l: Layout, f: Footer)
    requires Fits(l, f)
    ensures |Encode(f)| == FooterSize(l) && Decode(l, Encode(f)) == f
  {
    var b, m := Encode(f), l.magicLen;
    assert b[..m] == f.magic && b[m + 32..] == f.reserved;
    assert b[m..m + 8] == LE64(f.certOffset) && b[m + 8..m + 16] == LE64(f.certSize);
    assert b[m + 16..m + 24] == LE64(f.imageSize) && b[m + 24..m + 32] == LE64(f.partitionSize);
    ReadLE64Inverts(b, m, f.certOffset);
    ReadLE64Inverts(b, m + 8, f.certSize);
    ReadLE64Inverts(b, m + 16, f.imageSize);
    ReadLE64Inverts(b, m + 24, f.partitionSize);
  }

  /** SetModuleFooterData; the reserved bytes are whatever the caller's footer held. */
  function ModuleFooter(magic: seq<byte>, blockSize: uint64, certSize: uint64, reserved: seq<byte>): Footer
    requires blockSize >= DEFAULT_MODULE_HVB_INFO_SIZE
  {
    var offset := blockSize - DEFAULT_MODULE_HVB_INFO_SIZE;
    Footer(magic, offset, certSize, offset, blockSize, reserved)
  }

  /** What a footer says of a partition: where the certificate starts, how long it is, and both sizes. */
  ghost predicate Describes(f: Footer, magic: seq<byte>, deviceSize: nat, certSize: nat, reserved: seq<byte>) {
    && f.partitionSize == deviceSize
    && f.imageSize == f.certOffset == deviceSize - 4096
    && f.certSize == certSize
    && f.magic == magic && f.reserved == reserved
  }

  function Trailer(cert: seq<byte>, f: Footer): seq<byte>
    requires |cert| + |Encode(f)| <= DEFAULT_MODULE_HVB_INFO_SIZE
  {
    cert + seq(DEFAULT_MODULE_HVB_INFO_SIZE - |cert| - |Encode(f)|, _ => 0) + Encode(f)
  }

  /** The partition ends with a trailer that holds the certificate and a footer describing it. */
  ghost predicate Holds(l: Layout, image: seq<byte>, cert: seq<byte>, f: Footer) {
    && DEFAULT_MODULE_HVB_INFO_SIZE <= |image| < TWO_TO_THE_64
    && |cert| <= DEFAULT_MODULE_HVB_INFO_SIZE - FooterSize(l)
    && Fits(l, f) && |Encode(f)| == FooterSize(l)
    && f == ModuleFooter(f.magic, |image|, |cert|, f.reserved)
    && image[|image| - DEFAULT_MODULE_HVB_INFO_SIZE..] == Trailer(cert, f)
  }

  lemma HeldParts(l: Layout, image: seq<byte>, cert: seq<byte>, f: Footer)
    requires Holds(l, image, cert, f)
    ensures Fits(l, f) && FooterSize(l) <= DEFAULT_MODULE_HVB_INFO_SIZE <= |image| < TWO_TO_THE_64
    ensures f.certSize == |cert| && f.certOffset + |cert| <= |image|
    ensures image[|image| - FooterSize(l)..] == Encode(f)
    ensures image[f.certOffset..f.certOffset + f.certSize] == cert
  {
    var t, start := Trailer(cert, f), |image| - DEFAULT_MODULE_HVB_INFO_SIZE;
    assert t[..|cert|] == cert && t[|t| - FooterSize(l)..] == Encode(f);
    assert image[start..][..|cert|] == image[start..start + |cert|];
    assert image[start..][|t| - FooterSize(l)..] == image[|image| - FooterSize(l)..];
  }

  method WriteModuleUpdateBlock(
    l: Layout, magic: seq<byte>, reserved: seq<byte>, cert: seq<byte>, partition: array<byte>, transfers: nat -> int)
    returns (ok: bool)
    requires |magic| == l.magicLen && |reserved| == l.reservedLen
    requires FooterSize(l) <= DEFAULT_MODULE_HVB_INFO_SIZE && partition.Length < TWO_TO_THE_64
    modifies partition
    ensures ok ==> && |cert| <= DEFAULT_MODULE_HVB_INFO_SIZE <= partition.Length
                   && Holds(l, partition[..], cert, ModuleFooter(magic, partition.Length, |cert|, reserved))
                   && Describes(
                        Decode(l, partition[..][partition.Length - FooterSize(l)..]),
                        magic, partition.Length, |cert|, reserved)
    ensures AllPositive(transfers) ==>
              (ok <==> && |cert| <= DEFAULT_MODULE_HVB_INFO_SIZE - FooterSize(l)
                       && partition.Length >= DEFAULT_MODULE_HVB_INFO_SIZE)
    ensures forall i :: 0 <= i < partition.Length - DEFAULT_MODULE_HVB_INFO_SIZE ==> partition[i] == old(partition[i])
    ensures partition.Length < DEFAULT_MODULE_HVB_INFO_SIZE ==> partition[..] == old(partition[..])
  {
    hide Decode, Encode;
    if |cert| > DEFAULT_MODULE_HVB_INFO_SIZE - FooterSize(l) {
      return false;
    }
    var blockSize := partition.Length;
    if blockSize < DEFAULT_MODULE_HVB_INFO_SIZE {
      return false;
    }
    var footer := ModuleFooter(magic, blockSize, |cert|, reserved);
    DecodeInvertsEncode(l, footer);
    var buffer := Trailer(cert, footer);
    ok := WriteFullyAtOffset(partition, buffer, blockSize - DEFAULT_MODULE_HVB_INFO_SIZE, transfers);
    if ok {
      assert partition[blockSize - DEFAULT_MODULE_HVB_INFO_SIZE..] == buffer;
      assert partition[..][blockSize - DEFAULT_MODULE_HVB_INFO_SIZE..] == buffer;
      HeldParts(l, partition[..], cert, footer);
    }
  }

  method GetFooterFromImage(l: Layout, fd: array<byte>, imageSize: uint64, transfers: nat -> int)
    returns (footer: Option<Footer>)
    ensures footer.Some? ==> && FooterSize(l) < imageSize <= fd.Length
                             && footer.value == Decode(l, fd[..][imageSize - FooterSize(l)..imageSize])
    ensures AllPositive(transfers) ==> (footer.Some? <==> FooterSize(l) < imageSize <= fd.Length)
  {
    hide Decode, AllPositive;
    if imageSize <= FooterSize(l) {
      return None;
    }
    var buffer := new byte[FooterSize(l)];
    var ok := ReadFullyAtOffset(fd, buffer, FooterSize(l), imageSize - FooterSize(l), transfers);
    if !ok {
      return None;
    }
    assert buffer[..] == buffer[..FooterSize(l)];
    return Some(Decode(l, buffer[..]));
  }

  /** The bound is checked in 64 bits, where the sum can wrap around. */
  method GetCertDataFromImage(
    fd: array<byte>, imageSize: uint64, offset: uint64, keySize: uint64, transfers: nat -> int)
    returns (cert: Option<seq<byte>>)
    ensures cert.Some? && keySize > 0 ==>
              offset + keySize <= fd.Length && cert.value == fd[..][offset..offset + keySize]
    ensures cert.Some? ==> |cert.value| == keySize
    ensures AllPositive(transfers) ==>
              (cert.Some? <==> && (offset + keySize) % TWO_TO_THE_64 <= imageSize
                               && (keySize == 0 || offset + keySize <= fd.Length))
  {
    if imageSize < (offset + keySize) % TWO_TO_THE_64 {
      return None;
    }
    var buffer := new byte[keySize];
    var ok := ReadFullyAtOffset(fd, buffer, keySize, offset, transfers);
    if !ok {
      return None;
    }
    assert buffer[..] == buffer[..keySize];
    return Some(buffer[..]);
  }

  /** Over transfers of any positive sizes the readers return what the device holds. */
  method ReadFooter(l: Layout, partition: array<byte>, ghost f: Footer, transfers: nat -> int)
    returns (footer: Option<Footer>)
    requires Fits(l, f) && FooterSize(l) < partition.Length < TWO_TO_THE_64 && AllPositive(transfers)
    requires partition[..][partition.Length - FooterSize(l)..] == Encode(f)
    ensures footer == Some(f)
  {
    hide Encode, Decode, AllPositive;
    DecodeInvertsEncode(l, f);
    ghost var image, size := partition[..], partition.Length;
    assert image[size - FooterSize(l)..size] == image[size - FooterSize(l)..];
    footer := GetFooterFromImage(l, partition, partition.Length, transfers);
  }

  method ReadCert(partition: array<byte>, ghost cert: seq<byte>, offset: uint64, size: uint64, transfers: nat -> int)
    returns (readBack: Option<seq<byte>>)
    requires |cert| == size && offset + size <= partition.Length < TWO_TO_THE_64 && AllPositive(transfers)
    requires partition[..][offset..offset + size] == cert
    ensures readBack == Some(cert)
  {
    readBack := GetCertDataFromImage(partition, partition.Length, offset, size, transfers);
  }

  /** Write, then read back: the footer and the certificate are those written, and nothing else has changed. */
  method TrailerRoundTrip(
    l: Layout, magic: seq<byte>, reserved: seq<byte>, cert: seq<byte>, partition: array<byte>,
    writes: nat -> int, footerReads: nat -> int, certReads: nat -> int)
    returns (footer: Option<Footer>, readBack: Option<seq<byte>>)
    requires |magic| == l.magicLen && |reserved| == l.reservedLen
    requires FooterSize(l) < DEFAULT_MODULE_HVB_INFO_SIZE <= partition.Length < TWO_TO_THE_64
    requires |cert| <= DEFAULT_MODULE_HVB_INFO_SIZE - FooterSize(l)
    requires AllPositive(writes) && AllPositive(footerReads) && AllPositive(certReads)
    modifies partition
    ensures footer.Some? && Describes(footer.value, magic, partition.Length, |cert|, reserved)
    ensures footer == Some(ModuleFooter(magic, partition.Length, |cert|, reserved))
    ensures readBack == Some(cert)
    ensures forall i :: 0 <= i < partition.Length - DEFAULT_MODULE_HVB_INFO_SIZE ==> partition[i] == old(partition[i])
  {
    hide Holds, Encode, Decode, AllPositive;
    var ok := WriteModuleUpdateBlock(l, magic, reserved, cert, partition, writes);
    ghost var written := ModuleFooter(magic, partition.Length, |cert|, reserved);
    HeldParts(l, partition[..], cert, written);
    footer := ReadFooter(l, partition, written, footerReads);
    readBack := ReadCert(partition, cert, footer.value.certOffset, footer.value.certSize, certReads);
  }

  /** The certificate of an image, located through the image's own footer. */
  method ReadImageCert(l: Layout, image: array<byte>, imageSize: uint64, transfers: nat -> int)
    returns (cert: Option<seq<byte>>)
    ensures cert.Some? ==>
              && FooterSize(l) < imageSize <= image.Length
              && var f := Decode(l, image[..][imageSize - FooterSize(l)..imageSize]);
                 && |cert.value| == f.certSize <= DEFAULT_MODULE_HVB_INFO_SIZE - FooterSize(l)
                 && (f.certSize > 0 ==> && f.certOffset + f.certSize <= image.Length
                                        && cert.value == image[..][f.certOffset..f.certOffset + f.certSize])
  {
    hide Decode;
    var f := GetFooterFromImage(l, image, imageSize, transfers);
    if f.None? || f.value.certSize > DEFAULT_MODULE_HVB_INFO_SIZE - FooterSize(l) {
      return None;
    }
    cert := GetCertDataFromImage(image, imageSize, f.value.certOffset, f.value.certSize, transfers);
  }

  /** Copy the certificate of an image into the partition, where ReadCert then finds it. */
  method DealModuleUpdateHvbInfo(
    l: Layout, magic: seq<byte>, reserved: seq<byte>, image: array<byte>, imageSize: uint64, partition: array<byte>,
    transfers: nat -> int)
    returns (ok: bool, ghost cert: Option<seq<byte>>)
    requires |magic| == l.magicLen && |reserved| == l.reservedLen && image != partition
    requires FooterSize(l) <= DEFAULT_MODULE_HVB_INFO_SIZE && partition.Length < TWO_TO_THE_64
    modifies partition
    ensures ok ==> && cert.Some? && |cert.value| <= DEFAULT_MODULE_HVB_INFO_SIZE <= partition.Length
                   && Holds(l, partition[..], cert.value,
                            ModuleFooter(magic, partition.Length, |cert.value|, reserved))
    ensures ok ==> && FooterSize(l) < imageSize <= image.Length
                   && var f := Decode(l, image[..][imageSize - FooterSize(l)..imageSize]);
                      f.certSize > 0 ==> && f.certOffset + f.certSize <= image.Length
                                         && cert.value == image[..][f.certOffset..f.certOffset + f.certSize]
    ensures cert.None? ==> partition[..] == old(partition[..])
  {
    hide Decode, Holds;
    var found := ReadImageCert(l, image, imageSize, transfers);
    cert := found;
    if found.None? {
      return false, cert;
    }
    ok := WriteModuleUpdateBlock(l, magic, reserved, found.value, partition, transfers);
  }
}
