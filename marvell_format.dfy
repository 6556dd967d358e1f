/**
 * The MRVL container records of src/marvel-88mw30x-firmware.h: a 20-byte file
 * header, 20-byte segment-header records, and the in-memory firmware aggregate.
 * Both records are packed little-endian structs, so they are encoded field by
 * field with the codec of module Bytes.
 */
module MarvellFormat {
  import opened Bytes

  const HeaderSize: nat := 20
  const SegmentHeaderSize: nat := 20

  /** The 4-byte ASCII tag field (`char mrvl[4]`). */
  type Tag = s: seq<uint8> | |s| == 4 witness [0, 0, 0, 0]

  datatype MarvellHeader = MarvellHeader(
    mrvl: Tag,
    unknown1: uint32,
    ctime: uint32,
    numSegments: uint32,
    elfVersion: uint32)

  datatype MarvellSegmentHeader = MarvellSegmentHeader(
    segmentType: uint32,
    offset: uint32,
    size: uint32,
    vaddr: uint32,
    checksum: uint32)

  /** `struct MarvellFirmware`: the header, the segment-header table and one buffer per segment. */
  datatype MarvellFirmware = MarvellFirmware(
    header: MarvellHeader,
    seghdrs: seq<MarvellSegmentHeader>,
    segments: seq<seq<uint8>>)

  /** The aggregate holds exactly `num_segments` headers and buffers, each buffer `size` bytes long. */
  ghost predicate Consistent(fw: MarvellFirmware) {
    |fw.seghdrs| == fw.header.numSegments &&
    |fw.segments| == fw.header.numSegments &&
    forall i :: 0 <= i < |fw.segments| ==> |fw.segments[i]| == fw.seghdrs[i].size
  }

  // ----- header record -----

  function EncodeHeader(h: MarvellHeader): (r: seq<uint8>)
    ensures |r| == HeaderSize
    ensures r[0..4] == h.mrvl
    ensures r[4..8] == EncodeU32(h.unknown1) && r[8..12] == EncodeU32(h.ctime)
    ensures r[12..16] == EncodeU32(h.numSegments) && r[16..20] == EncodeU32(h.elfVersion)
  {
    var r := h.mrvl + EncodeU32(h.unknown1) + EncodeU32(h.ctime) + EncodeU32(h.numSegments) + EncodeU32(h.elfVersion);
    assert r[16..20] == EncodeU32(h.elfVersion);
    r
  }

  function DecodeHeader(b: seq<uint8>): (h: MarvellHeader)
    requires |b| == HeaderSize
  {
    MarvellHeader(b[0..4], DecodeU32(b[4..8]), DecodeU32(b[8..12]), DecodeU32(b[12..16]), DecodeU32(b[16..20]))
  }

  lemma {:induction false} DecodeEncodeHeader(h: MarvellHeader)
    ensures DecodeHeader(EncodeHeader(h)) == h
  {
    var b := EncodeHeader(h);
    DecodeEncodeU32(h.unknown1);
    DecodeEncodeU32(h.ctime);
    DecodeEncodeU32(h.numSegments);
    DecodeEncodeU32(h.elfVersion);
  }

  lemma {:induction false} EncodeDecodeHeader(b: seq<uint8>)
    requires |b| == HeaderSize
    ensures EncodeHeader(DecodeHeader(b)) == b
  {
    EncodeDecodeU32(b[4..8]);
    EncodeDecodeU32(b[8..12]);
    EncodeDecodeU32(b[12..16]);
    EncodeDecodeU32(b[16..20]);
    assert b == b[0..4] + b[4..8] + b[8..12] + b[12..16] + b[16..20];
  }

  // ----- segment-header record -----

  function EncodeSegmentHeader(sh: MarvellSegmentHeader): (r: seq<uint8>)
    ensures |r| == SegmentHeaderSize
    ensures r[0..4] == EncodeU32(sh.segmentType) && r[4..8] == EncodeU32(sh.offset)
    ensures r[8..12] == EncodeU32(sh.size) && r[12..16] == EncodeU32(sh.vaddr)
    ensures r[16..20] == EncodeU32(sh.checksum)
  {
    var r := EncodeU32(sh.segmentType) + EncodeU32(sh.offset) + EncodeU32(sh.size) + EncodeU32(sh.vaddr) + EncodeU32(sh.checksum);
    assert r[16..20] == EncodeU32(sh.checksum);
    r
  }

  function DecodeSegmentHeader(b: seq<uint8>): (sh: MarvellSegmentHeader)
    requires |b| == SegmentHeaderSize
  {
    MarvellSegmentHeader(DecodeU32(b[0..4]), DecodeU32(b[4..8]), DecodeU32(b[8..12]), DecodeU32(b[12..16]), DecodeU32(b[16..20]))
  }

  lemma {:induction false} DecodeEncodeSegmentHeader(sh: MarvellSegmentHeader)
    ensures DecodeSegmentHeader(EncodeSegmentHeader(sh)) == sh
  {
    DecodeEncodeU32(sh.segmentType);
    DecodeEncodeU32(sh.offset);
    DecodeEncodeU32(sh.size);
    DecodeEncodeU32(sh.vaddr);
    DecodeEncodeU32(sh.checksum);
  }

  lemma {:induction false} EncodeDecodeSegmentHeader(b: seq<uint8>)
    requires |b| == SegmentHeaderSize
    ensures EncodeSegmentHeader(DecodeSegmentHeader(b)) == b
  {
    EncodeDecodeU32(b[0..4]);
    EncodeDecodeU32(b[4..8]);
    EncodeDecodeU32(b[8..12]);
    EncodeDecodeU32(b[12..16]);
    EncodeDecodeU32(b[16..20]);
    assert b == b[0..4] + b[4..8] + b[8..12] + b[12..16] + b[16..20];
  }

  // ----- the segment-header table: `num_segments` consecutive records -----

  function EncodeTable(hs: seq<MarvellSegmentHeader>): (r: seq<uint8>)
    ensures |r| == 20 * |hs|
  {
    if hs == [] then [] else EncodeTable(hs[..|hs| - 1]) + EncodeSegmentHeader(hs[|hs| - 1])
  }

  /** Record i of an encoded table occupies bytes [20i, 20i+20). */
  lemma {:induction false} EncodeTableRecord(hs: seq<MarvellSegmentHeader>, i: nat)
    requires i < |hs|
    ensures EncodeTable(hs)[20 * i..20 * (i + 1)] == EncodeSegmentHeader(hs[i])
  {
    var n := |hs|;
    var prefix := EncodeTable(hs[..n - 1]);
    assert EncodeTable(hs) == prefix + EncodeSegmentHeader(hs[n - 1]);
    if i < n - 1 {
      EncodeTableRecord(hs[..n - 1], i);
      assert hs[..n - 1][i] == hs[i];
      assert EncodeTable(hs)[20 * i..20 * (i + 1)]
          == prefix[20 * i..20 * (i + 1)];
    } else {
      assert |prefix| == 20 * i;
    }
  }

  /** `n` consecutive records read from `b`. */
  function DecodeTable(b: seq<uint8>, n: nat): (hs: seq<MarvellSegmentHeader>)
    requires |b| == 20 * n
    ensures |hs| == n
  {
    seq(n, i requires 0 <= i < n => DecodeSegmentHeader(b[20 * i..20 * (i + 1)]))
  }

  lemma DecodeEncodeTable(hs: seq<MarvellSegmentHeader>)
    ensures DecodeTable(EncodeTable(hs), |hs|) == hs
  {
    var b := EncodeTable(hs);
    forall i | 0 <= i < |hs| ensures DecodeTable(b, |hs|)[i] == hs[i] {
      EncodeTableRecord(hs, i);
      DecodeEncodeSegmentHeader(hs[i]);
      assert DecodeTable(b, |hs|)[i] == DecodeSegmentHeader(b[20 * i..20 * (i + 1)]);
    }
    assert DecodeTable(b, |hs|) == hs;
  }

  lemma DecodeTableFront(b: seq<uint8>, n: nat)
    requires n > 0 && |b| == 20 * n
    ensures DecodeTable(b, n)[..n - 1] == DecodeTable(b[..20 * (n - 1)], n - 1)
    ensures DecodeTable(b, n)[n - 1] == DecodeSegmentHeader(b[20 * (n - 1)..])
  {
    var front := b[..20 * (n - 1)];
    forall i | 0 <= i < n - 1 ensures DecodeTable(b, n)[i] == DecodeTable(front, n - 1)[i] {
      assert front[20 * i..20 * (i + 1)] == b[20 * i..20 * (i + 1)];
    }
    assert b[20 * (n - 1)..20 * n] == b[20 * (n - 1)..];
  }

  lemma {:induction false} EncodeDecodeTable(b: seq<uint8>, n: nat)
    requires |b| == 20 * n
    ensures EncodeTable(DecodeTable(b, n)) == b
  {
    if n > 0 {
      var m := n - 1;
      assert 20 * n == 20 * m + 20;
      var front, last := b[..20 * m], b[20 * m..];
      var hs := DecodeTable(b, n);
      DecodeTableFront(b, n);
      EncodeDecodeTable(front, n - 1);
      EncodeDecodeSegmentHeader(last);
      calc {
        EncodeTable(hs);
        EncodeTable(hs[..n - 1]) + EncodeSegmentHeader(hs[n - 1]);
        front + last;
        b;
      }
    }
  }
}
