/**
 * The forward packer of src/axf2firmware.c: from the program headers of a
 * 32-bit ELF executable and the bytes of that file, the MRVL container file.
 * The ELF library is replaced by the list of program headers it reports; the
 * output file is a byte sequence with a cursor; the CRC-32 routine, the clock
 * and the contents of freshly allocated memory are parameters.
 */
module AxfToFirmware {
  import opened Bytes
  import opened MarvellFormat
  import opened MarvellReader

  const PT_LOAD: uint32 := 1
  const MaxSegments: nat := 9

  /** The fields of a program header the packer looks at. */
  datatype ProgramHeader = ProgramHeader(ptype: uint32, offset: uint32, vaddr: uint32, filesz: uint32)

  datatype PackError =
    | NoSuitableSegments   // "ELF contains no suitable segments"
    | TooManySegments      // "ELF contains more than the maximum allowed 9 segments"
    | SegmentReadFailed(written: seq<uint8>)   // "cannot read ELF segment."; what the file holds at the exit

  // ----- which program headers become segments -----

  predicate IsLoadable(ph: ProgramHeader) {
    ph.ptype == PT_LOAD && ph.filesz > 0
  }

  /** The program headers that become segments, in program-header order. */
  function Loadable(phdrs: seq<ProgramHeader>): (r: seq<ProgramHeader>)
    ensures |r| <= |phdrs|
    ensures forall s :: 0 <= s < |r| ==> IsLoadable(r[s])
  {
    if phdrs == [] then []
    else
      var last := phdrs[|phdrs| - 1];
      Loadable(phdrs[..|phdrs| - 1]) + (if IsLoadable(last) then [last] else [])
  }

  /** The positions of those program headers. */
  function LoadableIndices(phdrs: seq<ProgramHeader>): (idx: seq<nat>) {
    if phdrs == [] then []
    else
      LoadableIndices(phdrs[..|phdrs| - 1]) + (if IsLoadable(phdrs[|phdrs| - 1]) then [|phdrs| - 1] else [])
  }

  /**
   * The segments are the loadable program headers and nothing else, in
   * their original order: segment s is program header `idx[s]`, the indices
   * strictly increase, and every loadable header is among them.
   */
  lemma {:induction false} LoadableKeepsOrder(phdrs: seq<ProgramHeader>)
    ensures var idx := LoadableIndices(phdrs);
      && |idx| == |Loadable(phdrs)|
      && (forall s :: 0 <= s < |idx| ==> idx[s] < |phdrs| && Loadable(phdrs)[s] == phdrs[idx[s]])
      && (forall s, t :: 0 <= s < t < |idx| ==> idx[s] < idx[t])
      && (forall i :: 0 <= i < |phdrs| && IsLoadable(phdrs[i]) ==> i in idx)
  {
    if phdrs != [] {
      var m := |phdrs| - 1;
      var front := phdrs[..m];
      LoadableKeepsOrder(front);
      var idx0 := LoadableIndices(front);
      forall s | 0 <= s < |idx0| ensures front[idx0[s]] == phdrs[idx0[s]] {
      }
      forall i | 0 <= i < |phdrs| && IsLoadable(phdrs[i]) ensures i in LoadableIndices(phdrs) {
        if i < m {
          assert front[i] == phdrs[i];
        }
      }
    }
  }

  lemma LoadableStep(phdrs: seq<ProgramHeader>, i: nat)
    requires i < |phdrs|
    ensures Loadable(phdrs[..i + 1]) == Loadable(phdrs[..i]) + (if IsLoadable(phdrs[i]) then [phdrs[i]] else [])
  {
    assert phdrs[..i + 1][..i] == phdrs[..i];
  }

  lemma {:induction false} LoadablePrefix(phdrs: seq<ProgramHeader>, i: nat)
    requires i <= |phdrs|
    ensures Loadable(phdrs[..i]) <= Loadable(phdrs)
    decreases |phdrs| - i
  {
    if i == |phdrs| {
      assert phdrs[..i] == phdrs;
    } else {
      LoadableStep(phdrs, i);
      LoadablePrefix(phdrs, i + 1);
    }
  }

  /** The counting loop: `num_segments` is incremented once per loadable program header. */
  method CountLoadable(phdrs: seq<ProgramHeader>) returns (count: nat)
    ensures count == |Loadable(phdrs)|
  {
    count := 0;
    for i := 0 to |phdrs|
      invariant count == |Loadable(phdrs[..i])|
    {
      LoadableStep(phdrs, i);
      if phdrs[i].ptype == PT_LOAD && phdrs[i].filesz > 0 {
        count := count + 1;
      }
    }
    assert phdrs[..|phdrs|] == phdrs;
  }

  // ----- padding -----

  /** 2 to the power k. */
  function Pow2(k: nat): (r: nat)
    ensures r > 0
  {
    if k == 0 then 1 else 2 * Pow2(k - 1)
  }

  /** Bitwise AND of two non-negative integers, bit by bit from the least significant. */
  function BitAnd(x: nat, y: nat): (r: nat)
    decreases x
  {
    if x == 0 || y == 0 then 0
    else 2 * BitAnd(x / 2, y / 2) + (if x % 2 == 1 && y % 2 == 1 then 1 else 0)
  }

  /** A mask of k one bits leaves every k-bit value unchanged. */
  lemma {:induction false} BitAndAllOnes(x: nat, k: nat)
    requires x < Pow2(k)
    ensures BitAnd(x, Pow2(k) - 1) == x
  {
    if x != 0 {
      assert k > 0;
      var m := Pow2(k) - 1;
      assert m % 2 == 1 && m / 2 == Pow2(k - 1) - 1;
      BitAndAllOnes(x / 2, k - 1);
    }
  }

  lemma Pow2Of30()
    ensures Pow2(30) - 1 == 0x3FFF_FFFF
  {
    assert Pow2(10) == 0x400;
    assert Pow2(20) == 0x10_0000;
  }

  /** The two low mask bits are 0, so AND-ing drops the value's two low bits. */
  lemma MaskDropsTwoBits(x: nat)
    ensures BitAnd(x, 0xFFFF_FFFC) == 4 * BitAnd(x / 4, 0x3FFF_FFFF)
  {
    if x / 2 != 0 {
      assert BitAnd(x, 0xFFFF_FFFC) == 2 * BitAnd(x / 2, 0x7FFF_FFFE);
      assert BitAnd(x / 2, 0x7FFF_FFFE) == 2 * BitAnd(x / 2 / 2, 0x3FFF_FFFF);
      assert x / 2 / 2 == x / 4;
    }
  }

  /** `& 0xfffffffc` on a 32-bit value clears its two low bits. */
  lemma MaskClearsLowBits(x: nat)
    requires x < TwoTo32
    ensures BitAnd(x, 0xFFFF_FFFC) == x - x % 4
  {
    Pow2Of30();
    BitAndAllOnes(x / 4, 30);
    MaskDropsTwoBits(x);
  }

  /**
   * `((p_filesz + 3) & 0xfffffffc) - p_filesz`: the fill that brings the
   * segment to a multiple of four bytes.
   */
  function Padding(filesz: uint32): (p: nat)
    requires filesz + 3 < TwoTo32
    ensures p <= 3 && (filesz + p) % 4 == 0
  {
    MaskRoundsUp(filesz);
    BitAnd(filesz + 3, 0xFFFF_FFFC) - filesz
  }

  /** The masked value is the least multiple of four at or above `f`. */
  lemma MaskRoundsUp(f: nat)
    requires f + 3 < TwoTo32
    ensures var up := BitAnd(f + 3, 0xFFFF_FFFC);
      f <= up <= f + 3 && up % 4 == 0
  {
    MaskClearsLowBits(f + 3);
    RoundUpToFour(f);
  }

  /** Clearing the two low bits of `f + 3` rounds `f` up to a multiple of four. */
  lemma RoundUpToFour(f: nat)
    ensures var up := (f + 3) - (f + 3) % 4;
      f <= up <= f + 3 && up % 4 == 0
  {
    var q := (f + 3) / 4;
    assert f + 3 == 4 * q + (f + 3) % 4;
  }

  /** `msh->size`: the padded length. */
  function PaddedSize(filesz: uint32): (size: uint32)
    requires filesz + 3 < TwoTo32
  {
    filesz + Padding(filesz)
  }

  /** The padded size is the least multiple of four that holds the segment. */
  lemma PaddedSizeIsLeast(filesz: uint32, m: nat)
    requires filesz + 3 < TwoTo32
    requires filesz <= m && m % 4 == 0
    ensures filesz <= PaddedSize(filesz) <= m
    ensures PaddedSize(filesz) % 4 == 0 && PaddedSize(filesz) - filesz <= 3
  {
    var q := PaddedSize(filesz);
    assert q == 4 * (q / 4) && m == 4 * (m / 4);
    assert q / 4 <= m / 4;
  }

  // ----- one segment buffer -----

  /** The `fseek` + `fread(buf, p_filesz, 1, fin)` of this header returns 1. */
  predicate InElf(ph: ProgramHeader, elf: seq<uint8>) {
    ph.offset + ph.filesz <= |elf|
  }

  /**
   * The buffer of segment `si` after `malloc`, `memset(buf, 0xFF, padding)`
   * and the `fread`: the fill lands on the first `padding` bytes, which the
   * read then overwrites, so bytes past `p_filesz` are 0xFF only where they
   * lie below `padding`; the rest keep what the allocator left, `uninit(si, j)`.
   */
  function SegmentBuffer(ph: ProgramHeader, elf: seq<uint8>, si: nat, uninit: (nat, nat) -> uint8): (b: seq<uint8>)
    requires ph.filesz + 3 < TwoTo32 && InElf(ph, elf)
    ensures |b| == PaddedSize(ph.filesz) && |b| % 4 == 0
    ensures b[..ph.filesz] == elf[ph.offset..ph.offset + ph.filesz]
  {
    var pad := Padding(ph.filesz);
    seq(ph.filesz + pad, j requires 0 <= j < ph.filesz + pad =>
      if j < ph.filesz then elf[ph.offset + j] else if j < pad then 0xFF else uninit(si, j))
  }

  /** With a one-byte segment the fill survives in bytes 1 and 2, but byte 3 is left as allocated. */
  lemma OneByteSegmentPadding(ph: ProgramHeader, elf: seq<uint8>, si: nat, uninit: (nat, nat) -> uint8)
    requires ph.filesz == 1 && InElf(ph, elf)
    ensures var b := SegmentBuffer(ph, elf, si, uninit);
      |b| == 4 && b[1] == 0xFF && b[2] == 0xFF && b[3] == uninit(si, 3)
  {
    MaskClearsLowBits(4);
  }

  /** From two data bytes on, every padding byte is whatever the allocator left. */
  lemma PaddingKeepsAllocatedBytes(ph: ProgramHeader, elf: seq<uint8>, si: nat, uninit: (nat, nat) -> uint8, j: nat)
    requires ph.filesz + 3 < TwoTo32 && InElf(ph, elf)
    requires ph.filesz >= 2 && ph.filesz <= j < PaddedSize(ph.filesz)
    ensures SegmentBuffer(ph, elf, si, uninit)[j] == uninit(si, j)
  {
  }

  /** So the padding is not 0xFF in general: a three-byte segment over zeroed memory ends in 0. */
  lemma PaddingNotAlwaysFF(elf: seq<uint8>)
    requires |elf| >= 3
    ensures SegmentBuffer(ProgramHeader(PT_LOAD, 0, 0, 3), elf, 0, (_, _) => 0)[3] == 0
  {
    MaskClearsLowBits(6);
  }

  /** `memset(buf, value, count)`: the first `count` bytes become `value`. */
  method Fill(buf: array<uint8>, count: nat, value: uint8)
    requires count <= buf.Length
    modifies buf
    ensures forall k :: 0 <= k < buf.Length ==> buf[k] == if k < count then value else old(buf[k])
  {
    for j := 0 to count
      invariant forall k :: 0 <= k < buf.Length ==> buf[k] == if k < j then value else old(buf[k])
    {
      buf[j] := value;
    }
  }

  /** The `fread` into the start of `buf`: its first `|src|` bytes become `src`. */
  method CopyInto(buf: array<uint8>, src: seq<uint8>)
    requires |src| <= buf.Length
    modifies buf
    ensures forall k :: 0 <= k < buf.Length ==> buf[k] == if k < |src| then src[k] else old(buf[k])
  {
    for j := 0 to |src|
      invariant forall k :: 0 <= k < buf.Length ==> buf[k] == if k < j then src[k] else old(buf[k])
    {
      buf[j] := src[j];
    }
  }

  /**
   * One segment: `malloc(size)` (contents `uninit(si, ·)`), the `memset` of
   * the first `padding` bytes, then the read of `p_filesz` bytes from
   * `p_offset`, which fails when the file is too short.
   */
  method FillSegment(ph: ProgramHeader, elf: seq<uint8>, si: nat, uninit: (nat, nat) -> uint8) returns (r: Option<seq<uint8>>)
    requires ph.filesz + 3 < TwoTo32
    ensures r.Some? <==> InElf(ph, elf)
    ensures r.Some? ==> r.value == SegmentBuffer(ph, elf, si, uninit)
  {
    var padding := Padding(ph.filesz);
    var size := ph.filesz + padding;
    var buf := new uint8[size](j requires 0 <= j < size => uninit(si, j));
    Fill(buf, padding, 0xFF);
    if ph.offset + ph.filesz > |elf| {
      return None;
    }
    CopyInto(buf, elf[ph.offset..ph.offset + ph.filesz]);
    assert buf[..] == SegmentBuffer(ph, elf, si, uninit);
    return Some(buf[..]);
  }

  // ----- the output file -----

  function Zeros(n: nat): (z: seq<uint8>)
    ensures |z| == n && forall i :: 0 <= i < n ==> z[i] == 0
  {
    seq(n, _ => 0)
  }

  /**
   * The file after writing `bytes` at position `pos`: a write past the end
   * leaves a hole of zero bytes, and bytes beyond the written range stay.
   */
  function Overwrite(data: seq<uint8>, pos: nat, bytes: seq<uint8>): (r: seq<uint8>)
    ensures |r| == if pos + |bytes| > |data| then pos + |bytes| else |data|
    ensures r[pos..pos + |bytes|] == bytes
  {
    var head := if pos <= |data| then data[..pos] else data + Zeros(pos - |data|);
    var tail := if pos + |bytes| < |data| then data[pos + |bytes|..] else [];
    var r := head + bytes + tail;
    assert r[pos..pos + |bytes|] == bytes;
    r
  }

  /** A write changes no byte outside the range it covers. */
  lemma OverwriteKeepsOthers(data: seq<uint8>, pos: nat, bytes: seq<uint8>, i: nat)
    requires i < |data| && (i < pos || pos + |bytes| <= i)
    ensures Overwrite(data, pos, bytes)[i] == data[i]
  {
  }

  /** Writing at the end appends. */
  lemma OverwriteAtEnd(data: seq<uint8>, bytes: seq<uint8>)
    ensures Overwrite(data, |data|, bytes) == data + bytes
  {
    var r := Overwrite(data, |data|, bytes);
    assert r[..|data|] == data;
    assert r == r[..|data|] + r[|data|..];
  }

  /** Writing over a run of the same length replaces that run and nothing else. */
  lemma OverwriteSplice(a: seq<uint8>, x: seq<uint8>, b: seq<uint8>, bytes: seq<uint8>)
    requires |x| == |bytes|
    ensures Overwrite(a + x + b, |a|, bytes) == a + bytes + b
  {
    var r := Overwrite(a + x + b, |a|, bytes);
    var s := a + bytes + b;
    assert |r| == |s|;
    forall i | 0 <= i < |r| ensures r[i] == s[i] {
      if |a| <= i < |a| + |bytes| {
        assert r[i] == r[|a|..|a| + |bytes|][i - |a|];
      } else {
        OverwriteKeepsOthers(a + x + b, |a|, bytes, i);
      }
    }
  }

  /** `FILE *fout`: what has been written and the file position. */
  class OutputFile {
    var data: seq<uint8>
    var pos: nat

    /** `fopen(..., "wb")`: an empty file. */
    constructor Open()
      ensures data == [] && pos == 0
    {
      data := [];
      pos := 0;
    }

    /** `fwrite`: the bytes go at the position, which moves past them. */
    method Write(bytes: seq<uint8>)
      modifies this
      ensures data == Overwrite(old(data), old(pos), bytes)
      ensures pos == old(pos) + |bytes|
    {
      data := Overwrite(data, pos, bytes);
      pos := pos + |bytes|;
    }

    /** `fseek(..., SEEK_SET)`. */
    method Seek(p: nat)
      modifies this
      ensures data == old(data) && pos == p
    {
      pos := p;
    }

    /** `ftell`. */
    function Tell(): (offset: nat)
      reads this
    {
      pos
    }
  }

  // ----- the container the packer produces -----

  function Concat(segs: seq<seq<uint8>>): (data: seq<uint8>) {
    if segs == [] then [] else Concat(segs[..|segs| - 1]) + segs[|segs| - 1]
  }

  /** Segment s sits in the concatenation right after the segments before it. */
  lemma {:induction false} ConcatSlice(segs: seq<seq<uint8>>, s: nat)
    requires s < |segs|
    ensures |Concat(segs[..s])| + |segs[s]| <= |Concat(segs)|
    ensures Concat(segs)[|Concat(segs[..s])|..|Concat(segs[..s])| + |segs[s]|] == segs[s]
  {
    var m := |segs| - 1;
    var front := Concat(segs[..m]);
    assert Concat(segs) == front + segs[m];
    if s < m {
      ConcatSlice(segs[..m], s);
      assert segs[..m][..s] == segs[..s];
      assert segs[..m][s] == segs[s];
      var a := |Concat(segs[..s])|;
      assert Concat(segs)[a..a + |segs[s]|] == front[a..a + |segs[s]|];
    } else {
      assert segs[..m] == segs[..s];
    }
  }

  lemma ConcatStep(segs: seq<seq<uint8>>, s: nat)
    requires s < |segs|
    ensures Concat(segs[..s + 1]) == Concat(segs[..s]) + segs[s]
  {
    assert segs[..s + 1][..s] == segs[..s];
  }

  /** Where segment data starts: after the header and `n` table records. */
  function DataStart(n: nat): (start: nat) {
    HeaderSize + 20 * n
  }

  /** The file: header, table, then the segment buffers back to back. */
  function Image(fw: MarvellFirmware): (image: seq<uint8>)
    ensures |image| == DataStart(|fw.seghdrs|) + |Concat(fw.segments)|
  {
    EncodeHeader(fw.header) + EncodeTable(fw.seghdrs) + Concat(fw.segments)
  }

  /** The sum of the `size` fields of a segment-header table. */
  function TotalSize(hs: seq<MarvellSegmentHeader>): (total: nat) {
    if hs == [] then 0 else TotalSize(hs[..|hs| - 1]) + hs[|hs| - 1].size
  }

  /**
   * The file is exactly as long as the header, the table and the sizes the
   * table records: 20 + 20 * num_segments + the sum of the `size` fields.
   */
  lemma {:induction false} ImageLength(fw: MarvellFirmware)
    requires Consistent(fw)
    ensures |Image(fw)| == HeaderSize + 20 * fw.header.numSegments + TotalSize(fw.seghdrs)
  {
    ConcatLength(fw.segments, fw.seghdrs);
  }

  lemma {:induction false} ConcatLength(segs: seq<seq<uint8>>, hs: seq<MarvellSegmentHeader>)
    requires |segs| == |hs| && forall i :: 0 <= i < |segs| ==> |segs[i]| == hs[i].size
    ensures |Concat(segs)| == TotalSize(hs)
  {
    if segs != [] {
      var m := |segs| - 1;
      ConcatLength(segs[..m], hs[..m]);
    }
  }

  /** Every header leaves room for the 32-bit mask at line 124 not to wrap. */
  predicate SizedForMask(hs: seq<ProgramHeader>) {
    forall s :: 0 <= s < |hs| ==> hs[s].filesz + 3 < TwoTo32
  }

  predicate WellSized(phdrs: seq<ProgramHeader>) {
    SizedForMask(Loadable(phdrs))
  }

  predicate AllInElf(hs: seq<ProgramHeader>, elf: seq<uint8>) {
    forall s :: 0 <= s < |hs| ==> InElf(hs[s], elf)
  }

  /** The buffers of all segments. */
  function Buffers(hs: seq<ProgramHeader>, elf: seq<uint8>, uninit: (nat, nat) -> uint8): (segs: seq<seq<uint8>>)
    requires SizedForMask(hs) && AllInElf(hs, elf)
    ensures |segs| == |hs| && forall si :: 0 <= si < |hs| ==> |segs[si]| < TwoTo32
  {
    seq(|hs|, si requires 0 <= si < |hs| => SegmentBuffer(hs[si], elf, si, uninit))
  }

  /** `ftell` stored into the 32-bit `offset` field. */
  function FileOffset(pos: nat): (offset: uint32) {
    pos % TwoTo32
  }

  /**
   * The record for the segment `seg` that follows the buffers `before` in a
   * file with `n` segments: type 2, offset `ftell` (a long, kept to its low
   * 32 bits by the field), the padded size, `p_vaddr` and the checksum.
   */
  function PackedRecord(n: nat, ph: ProgramHeader, before: seq<seq<uint8>>, seg: seq<uint8>,
                        crc: seq<uint8> -> uint32): (record: MarvellSegmentHeader)
    requires |seg| < TwoTo32
  {
    MarvellSegmentHeader(SegmentMagic, FileOffset(DataStart(n) + |Concat(before)|), |seg|, ph.vaddr, crc(seg))
  }

  /** The records of the first |segs| segments. */
  function Records(n: nat, hs: seq<ProgramHeader>, segs: seq<seq<uint8>>, crc: seq<uint8> -> uint32): (r: seq<MarvellSegmentHeader>)
    requires |segs| <= |hs| && forall si :: 0 <= si < |segs| ==> |segs[si]| < TwoTo32
    ensures |r| == |segs|
  {
    seq(|segs|, si requires 0 <= si < |segs| => PackedRecord(n, hs[si], segs[..si], segs[si], crc))
  }

  lemma RecordsAppend(n: nat, hs: seq<ProgramHeader>, segs: seq<seq<uint8>>, b: seq<uint8>, crc: seq<uint8> -> uint32)
    requires |segs| < |hs| && |b| < TwoTo32 && forall si :: 0 <= si < |segs| ==> |segs[si]| < TwoTo32
    ensures Records(n, hs, segs + [b], crc) == Records(n, hs, segs, crc) + [PackedRecord(n, hs[|segs|], segs, b, crc)]
  {
    var l := segs + [b];
    forall si | 0 <= si < |segs| ensures l[..si] == segs[..si] {
    }
    assert l[..|segs|] == segs;
  }

  /** The header the packer writes first: the fresh one with the clock, the count and the ELF version. */
  function PackedHeader(n: nat, elfVersion: uint32, ctime: uint32): (h: MarvellHeader)
    requires n <= MaxSegments
    ensures h == MarvellHeader(Magic1, Magic2, ctime, n, elfVersion)
  {
    NewFirmware().header.(ctime := ctime, numSegments := n, elfVersion := elfVersion)
  }

  /** The firmware value the packer fills in, from a successful run. */
  function PackedFirmware(phdrs: seq<ProgramHeader>, elf: seq<uint8>, elfVersion: uint32, ctime: uint32,
                          uninit: (nat, nat) -> uint8, crc: seq<uint8> -> uint32): (fw: MarvellFirmware)
    requires WellSized(phdrs) && 0 < |Loadable(phdrs)| <= MaxSegments && AllInElf(Loadable(phdrs), elf)
  {
    var hs := Loadable(phdrs);
    var n := |hs|;
    var segs := Buffers(hs, elf, uninit);
    MarvellFirmware(PackedHeader(n, elfVersion, ctime), Records(n, hs, segs, crc), segs)
  }

  // ----- a run that stops at a segment it cannot read -----

  /** The position of the first header whose bytes the ELF file does not hold, or |hs| when there is none. */
  function FirstMissing(hs: seq<ProgramHeader>, elf: seq<uint8>): (k: nat)
    ensures k <= |hs| && AllInElf(hs[..k], elf)
    ensures k < |hs| ==> !InElf(hs[k], elf)
    ensures k == |hs| ==> AllInElf(hs, elf)
  {
    if hs == [] || !InElf(hs[0], elf) then 0
    else
      var k := 1 + FirstMissing(hs[1..], elf);
      assert forall s :: 1 <= s < k ==> hs[..k][s] == hs[1..][..k - 1][s - 1];
      assert hs[..|hs|] == hs;
      k
  }

  /** A header that cannot be read, after headers that all can, is the first missing one. */
  lemma {:induction false} FirstMissingIs(hs: seq<ProgramHeader>, elf: seq<uint8>, k: nat)
    requires k < |hs| && AllInElf(hs[..k], elf) && !InElf(hs[k], elf)
    ensures FirstMissing(hs, elf) == k
  {
    if k > 0 {
      assert hs[..k][0] == hs[0];
      var rest := hs[1..][..k - 1];
      forall s | 0 <= s < k - 1 ensures InElf(rest[s], elf) {
        assert rest[s] == hs[..k][s + 1];
      }
      FirstMissingIs(hs[1..], elf, k - 1);
    }
  }

  /** The buffers written before the run stops: those of the segments in front of the first missing one. */
  function BuffersBefore(hs: seq<ProgramHeader>, elf: seq<uint8>, uninit: (nat, nat) -> uint8): (segs: seq<seq<uint8>>)
    requires SizedForMask(hs)
    ensures |segs| == FirstMissing(hs, elf) <= |hs|
    ensures forall si :: 0 <= si < |segs| ==> segs[si] == SegmentBuffer(hs[si], elf, si, uninit)
  {
    var k := FirstMissing(hs, elf);
    SizedPrefix(hs, k);
    Buffers(hs[..k], elf, uninit)
  }

  /** The record the allocation zeroes every slot to (`memset(fw->seghdrs, 0, ...)`). */
  function BlankRecord(): (record: MarvellSegmentHeader) {
    MarvellSegmentHeader(0, 0, 0, 0, 0)
  }

  /** A table of blank records encodes as zero bytes only. */
  lemma {:induction false} BlankTable(hs: seq<MarvellSegmentHeader>)
    requires forall i :: 0 <= i < |hs| ==> hs[i] == BlankRecord()
    ensures EncodeTable(hs) == Zeros(20 * |hs|)
  {
    if hs != [] {
      var m := |hs| - 1;
      BlankTable(hs[..m]);
      assert EncodeSegmentHeader(hs[m]) == Zeros(20);
      assert Zeros(20 * m) + Zeros(20) == Zeros(20 * |hs|);
    }
  }

  /**
   * What a run that cannot read a segment leaves behind when it exits: the
   * header, the zeroed table and the buffers of the segments before that one.
   */
  function FailedRunFile(hs: seq<ProgramHeader>, elf: seq<uint8>, elfVersion: uint32, ctime: uint32,
                         uninit: (nat, nat) -> uint8): (file: seq<uint8>)
    requires SizedForMask(hs) && |hs| <= MaxSegments
  {
    EncodeHeader(PackedHeader(|hs|, elfVersion, ctime)) + Zeros(20 * |hs|) + Concat(BuffersBefore(hs, elf, uninit))
  }

  /**
   * The outcome of a run: the errors in the order the program meets them
   * (a read failure with the file as the exit leaves it), or the file.
   */
  function PackResult(phdrs: seq<ProgramHeader>, elf: seq<uint8>, elfVersion: uint32, ctime: uint32,
                      uninit: (nat, nat) -> uint8, crc: seq<uint8> -> uint32): (r: Result<seq<uint8>, PackError>)
    requires WellSized(phdrs)
  {
    var n := |Loadable(phdrs)|;
    if n == 0 then Err(NoSuitableSegments)
    else if n > MaxSegments then Err(TooManySegments)
    else if !AllInElf(Loadable(phdrs), elf) then Err(SegmentReadFailed(FailedRunFile(Loadable(phdrs), elf, elfVersion, ctime, uninit)))
    else Ok(Image(PackedFirmware(phdrs, elf, elfVersion, ctime, uninit, crc)))
  }

  /**
   * The file a stopped run leaves: the header with the count filled in, a
   * table of zero bytes, then the buffers written before the stop.
   */
  lemma FailedRunFileLayout(hs: seq<ProgramHeader>, elf: seq<uint8>, elfVersion: uint32, ctime: uint32,
                            uninit: (nat, nat) -> uint8)
    requires SizedForMask(hs) && 0 < |hs| <= MaxSegments
    ensures var w := FailedRunFile(hs, elf, elfVersion, ctime, uninit);
      var before := BuffersBefore(hs, elf, uninit);
      && |w| == DataStart(|hs|) + |Concat(before)|
      && w[..HeaderSize] == EncodeHeader(MarvellHeader(Magic1, Magic2, ctime, |hs|, elfVersion))
      && (forall i :: HeaderSize <= i < DataStart(|hs|) ==> w[i] == 0)
      && w[DataStart(|hs|)..] == Concat(before)
  {
    var n := |hs|;
    var before := BuffersBefore(hs, elf, uninit);
    var w := FailedRunFile(hs, elf, elfVersion, ctime, uninit);
    SplitThree(EncodeHeader(PackedHeader(n, elfVersion, ctime)), Zeros(20 * n), Concat(before));
    assert forall i :: HeaderSize <= i < DataStart(n) ==> w[i] == Zeros(20 * n)[i - HeaderSize];
  }

  /** A header with both magics and at least one record, followed by a zero type field, is rejected. */
  lemma ZeroTypeRejected(h: MarvellHeader, rest: seq<uint8>)
    requires h.mrvl == Magic1 && h.unknown1 == Magic2
    requires 0 < h.numSegments && |rest| >= 20 * h.numSegments && rest[..4] == [0, 0, 0, 0]
    ensures DecodeFirmware(EncodeHeader(h) + rest) == Err(BadSegmentType)
  {
    var w := EncodeHeader(h) + rest;
    HeaderReadsBack(h, rest);
    assert w[HeaderSize..HeaderSize + 4] == rest[..4];
    TypesCheckedBeforeData(w, 0);
  }

  /** The reader rejects the file a stopped run leaves: its first record's type is 0, not 2. */
  lemma FailedRunFileRejected(hs: seq<ProgramHeader>, elf: seq<uint8>, elfVersion: uint32, ctime: uint32,
                              uninit: (nat, nat) -> uint8)
    requires SizedForMask(hs) && 0 < |hs| <= MaxSegments
    ensures DecodeFirmware(FailedRunFile(hs, elf, elfVersion, ctime, uninit)) == Err(BadSegmentType)
  {
    var n := |hs|;
    var zeros := Zeros(20 * n);
    var rest := zeros + Concat(BuffersBefore(hs, elf, uninit));
    assert rest[..4] == zeros[..4] == [0, 0, 0, 0];
    ZeroTypeRejected(PackedHeader(n, elfVersion, ctime), rest);
    assert FailedRunFile(hs, elf, elfVersion, ctime, uninit) == EncodeHeader(PackedHeader(n, elfVersion, ctime)) + rest;
  }

  /**
   * A run with 1 to 9 segments, one of which the ELF file does not hold,
   * stops at the first such header and reports the file it leaves, which
   * the reader rejects.
   */
  lemma FailedRunLayout(phdrs: seq<ProgramHeader>, elf: seq<uint8>, elfVersion: uint32, ctime: uint32,
                        uninit: (nat, nat) -> uint8, crc: seq<uint8> -> uint32)
    requires WellSized(phdrs) && 0 < |Loadable(phdrs)| <= MaxSegments && !AllInElf(Loadable(phdrs), elf)
    ensures var hs := Loadable(phdrs);
      var k := FirstMissing(hs, elf);
      && k < |hs| && AllInElf(hs[..k], elf) && !InElf(hs[k], elf)
      && PackResult(phdrs, elf, elfVersion, ctime, uninit, crc)
           == Err(SegmentReadFailed(FailedRunFile(hs, elf, elfVersion, ctime, uninit)))
      && DecodeFirmware(FailedRunFile(hs, elf, elfVersion, ctime, uninit)) == Err(BadSegmentType)
  {
    FailedRunFileRejected(Loadable(phdrs), elf, elfVersion, ctime, uninit);
  }

  lemma ModAdd(a: nat, b: nat)
    ensures (a % TwoTo32 + b) % TwoTo32 == (a + b) % TwoTo32
  {
    var q := a / TwoTo32;
    assert a == q * TwoTo32 + a % TwoTo32;
    assert a + b == q * TwoTo32 + (a % TwoTo32 + b);
  }

  /** Consecutive records: each offset is the one before plus the size before, kept to 32 bits. */
  lemma RecordsConsecutive(n: nat, hs: seq<ProgramHeader>, segs: seq<seq<uint8>>, crc: seq<uint8> -> uint32, si: nat)
    requires |segs| <= |hs| && forall s :: 0 <= s < |segs| ==> |segs[s]| < TwoTo32
    requires si + 1 < |segs|
    ensures var r := Records(n, hs, segs, crc);
      r[si + 1].offset == (r[si].offset + r[si].size) % TwoTo32
  {
    ConcatStep(segs, si);
    ModAdd(DataStart(n) + |Concat(segs[..si])|, |segs[si]|);
  }

  lemma RecordFields(n: nat, hs: seq<ProgramHeader>, segs: seq<seq<uint8>>, crc: seq<uint8> -> uint32, si: nat)
    requires |segs| <= |hs| && forall s :: 0 <= s < |segs| ==> |segs[s]| < TwoTo32
    requires si < |segs|
    ensures var r := Records(n, hs, segs, crc)[si];
      r.segmentType == SegmentMagic && r.vaddr == hs[si].vaddr && r.size == |segs[si]| && r.checksum == crc(segs[si])
  {
  }

  /** Below 4 GiB the recorded offset is the exact file position. */
  lemma RecordOffsetExact(n: nat, hs: seq<ProgramHeader>, segs: seq<seq<uint8>>, crc: seq<uint8> -> uint32, si: nat)
    requires |segs| <= |hs| && forall s :: 0 <= s < |segs| ==> |segs[s]| < TwoTo32
    requires si < |segs| && DataStart(n) + |Concat(segs[..si])| < TwoTo32
    ensures Records(n, hs, segs, crc)[si].offset == DataStart(n) + |Concat(segs[..si])|
  {
  }

  lemma SliceAfter(p: seq<uint8>, d: seq<uint8>, a: nat, len: nat)
    requires a + len <= |d|
    ensures (p + d)[|p| + a..|p| + a + len] == d[a..a + len]
  {
  }

  /** The packed value, taken apart. */
  lemma PackedFirmwareParts(phdrs: seq<ProgramHeader>, elf: seq<uint8>, elfVersion: uint32, ctime: uint32,
                            uninit: (nat, nat) -> uint8, crc: seq<uint8> -> uint32)
    requires WellSized(phdrs) && 0 < |Loadable(phdrs)| <= MaxSegments && AllInElf(Loadable(phdrs), elf)
    ensures var fw := PackedFirmware(phdrs, elf, elfVersion, ctime, uninit, crc);
      var hs := Loadable(phdrs);
      && fw.header == MarvellHeader(Magic1, Magic2, ctime, |hs|, elfVersion)
      && fw.segments == Buffers(hs, elf, uninit)
      && fw.seghdrs == Records(|hs|, hs, fw.segments, crc)
      && Consistent(fw)
  {
  }

  /**
   * What the packer writes: the fresh header's magics with `ctime`,
   * `num_segments` and `elf_version` filled in; per segment type 2, the
   * program header's `p_vaddr`, the padded size, the checksum of the whole
   * padded buffer, the ELF bytes in front; the first segment right after the
   * table and each next one right after the one before (offsets kept to 32
   * bits).
   */
  lemma PackedFirmwareLayout(phdrs: seq<ProgramHeader>, elf: seq<uint8>, elfVersion: uint32, ctime: uint32,
                             uninit: (nat, nat) -> uint8, crc: seq<uint8> -> uint32, fw: MarvellFirmware)
    requires WellSized(phdrs) && 0 < |Loadable(phdrs)| <= MaxSegments && AllInElf(Loadable(phdrs), elf)
    requires fw == PackedFirmware(phdrs, elf, elfVersion, ctime, uninit, crc)
    ensures var hs := Loadable(phdrs);
      var n := |hs|;
      && Consistent(fw)
      && fw.header == MarvellHeader(Magic1, Magic2, ctime, n, elfVersion)
      && fw.seghdrs[0].offset == DataStart(n)
      && (forall si :: 0 <= si < n ==>
            && fw.seghdrs[si].segmentType == SegmentMagic
            && fw.seghdrs[si].vaddr == hs[si].vaddr
            && fw.seghdrs[si].size == PaddedSize(hs[si].filesz)
            && fw.seghdrs[si].checksum == crc(fw.segments[si])
            && fw.segments[si][..hs[si].filesz] == elf[hs[si].offset..hs[si].offset + hs[si].filesz])
      && (forall si :: 0 <= si < n - 1 ==>
            fw.seghdrs[si + 1].offset == (fw.seghdrs[si].offset + fw.seghdrs[si].size) % TwoTo32)
  {
    PackedFirmwareParts(phdrs, elf, elfVersion, ctime, uninit, crc);
    var hs := Loadable(phdrs);
    var n := |hs|;
    var segs := fw.segments;
    assert segs[..0] == [];
    RecordOffsetExact(n, hs, segs, crc, 0);
    forall si | 0 <= si < n
      ensures fw.seghdrs[si].segmentType == SegmentMagic
      ensures fw.seghdrs[si].vaddr == hs[si].vaddr
      ensures fw.seghdrs[si].size == PaddedSize(hs[si].filesz)
      ensures fw.seghdrs[si].checksum == crc(fw.segments[si])
      ensures fw.segments[si][..hs[si].filesz] == elf[hs[si].offset..hs[si].offset + hs[si].filesz]
    {
      RecordFields(n, hs, segs, crc, si);
      assert segs[si] == SegmentBuffer(hs[si], elf, si, uninit);
    }
    forall si | 0 <= si < n - 1
      ensures fw.seghdrs[si + 1].offset == (fw.seghdrs[si].offset + fw.seghdrs[si].size) % TwoTo32
    {
      RecordsConsecutive(n, hs, segs, crc, si);
    }
  }

  /** A file that starts with a header carrying both magics passes the checks and yields that header. */
  lemma HeaderReadsBack(h: MarvellHeader, rest: seq<uint8>)
    requires h.mrvl == Magic1 && h.unknown1 == Magic2
    ensures ReadMarvelHeader(EncodeHeader(h) + rest) == Ok(h)
  {
    var input := EncodeHeader(h) + rest;
    assert input[..HeaderSize] == EncodeHeader(h);
    assert input[..4] == EncodeHeader(h)[0..4];
    assert input[4..8] == EncodeHeader(h)[4..8];
    DecodeEncodeHeader(h);
  }

  /** The header of an image passes both magic checks and reads back as written. */
  lemma ImageHeaderReadsBack(fw: MarvellFirmware)
    requires fw.header.mrvl == Magic1 && fw.header.unknown1 == Magic2
    ensures ReadMarvelHeader(Image(fw)) == Ok(fw.header)
  {
    HeaderReadsBack(fw.header, EncodeTable(fw.seghdrs) + Concat(fw.segments));
    assert Image(fw) == EncodeHeader(fw.header) + (EncodeTable(fw.seghdrs) + Concat(fw.segments));
  }

  /** The table of an image reads back as written. */
  lemma ImageTableReadsBack(fw: MarvellFirmware)
    ensures var n := |fw.seghdrs|;
      |Image(fw)| >= HeaderSize + 20 * n
      && DecodeTable(Image(fw)[HeaderSize..HeaderSize + 20 * n], n) == fw.seghdrs
  {
    var n := |fw.seghdrs|;
    var input := Image(fw);
    assert input[HeaderSize..HeaderSize + 20 * n] == EncodeTable(fw.seghdrs);
    DecodeEncodeTable(fw.seghdrs);
  }

  /** A segment whose record points at its place in the data region reads back as written. */
  lemma ImageSegmentReadsBack(fw: MarvellFirmware, si: nat)
    requires Consistent(fw) && si < |fw.seghdrs|
    requires fw.seghdrs[si].size > 0
    requires fw.seghdrs[si].offset == DataStart(|fw.seghdrs|) + |Concat(fw.segments[..si])|
    ensures Readable(fw.seghdrs[si], Image(fw)) && SegmentData(fw.seghdrs[si], Image(fw)) == fw.segments[si]
  {
    var front := EncodeHeader(fw.header) + EncodeTable(fw.seghdrs);
    var data := Concat(fw.segments);
    assert Image(fw) == front + data;
    ConcatSlice(fw.segments, si);
    SliceAfter(front, data, |Concat(fw.segments[..si])|, |fw.segments[si]|);
  }

  /**
   * The reader accepts any file laid out this way and returns exactly the
   * firmware value it was written from.
   */
  lemma {:induction false} ImageReadsBack(fw: MarvellFirmware)
    requires Consistent(fw)
    requires fw.header.mrvl == Magic1 && fw.header.unknown1 == Magic2
    requires forall si :: 0 <= si < |fw.seghdrs| ==>
      && fw.seghdrs[si].segmentType == SegmentMagic
      && fw.seghdrs[si].size > 0
      && fw.seghdrs[si].offset == DataStart(|fw.seghdrs|) + |Concat(fw.segments[..si])|
    ensures DecodeFirmware(Image(fw)) == Ok(fw)
  {
    var n: nat := fw.header.numSegments;
    var input := Image(fw);
    ImageHeaderReadsBack(fw);
    ImageTableReadsBack(fw);
    assert DecodeTable(input[HeaderSize..HeaderSize + 20 * n], n) == fw.seghdrs;
    forall si | 0 <= si < n
      ensures Readable(fw.seghdrs[si], input) && SegmentData(fw.seghdrs[si], input) == fw.segments[si]
    {
      ImageSegmentReadsBack(fw, si);
    }
    DecodeFirmwareAccepts(input, fw.header, fw.seghdrs, fw.segments);
  }

  /**
   * Unless the file reaches 4 GiB, where offsets would wrap, reading the
   * packed container back yields the very firmware value that was packed.
   */
  lemma PackedImageReadsBack(phdrs: seq<ProgramHeader>, elf: seq<uint8>, elfVersion: uint32, ctime: uint32,
                             uninit: (nat, nat) -> uint8, crc: seq<uint8> -> uint32)
    requires WellSized(phdrs) && 0 < |Loadable(phdrs)| <= MaxSegments && AllInElf(Loadable(phdrs), elf)
    requires |Image(PackedFirmware(phdrs, elf, elfVersion, ctime, uninit, crc))| < TwoTo32
    ensures DecodeFirmware(Image(PackedFirmware(phdrs, elf, elfVersion, ctime, uninit, crc)))
      == Ok(PackedFirmware(phdrs, elf, elfVersion, ctime, uninit, crc))
  {
    var fw := PackedFirmware(phdrs, elf, elfVersion, ctime, uninit, crc);
    PackedFirmwareParts(phdrs, elf, elfVersion, ctime, uninit, crc);
    var hs := Loadable(phdrs);
    var n := |hs|;
    var segs := fw.segments;
    forall si | 0 <= si < n
      ensures fw.seghdrs[si].offset == DataStart(n) + |Concat(segs[..si])|
      ensures fw.seghdrs[si].size > 0
    {
      ConcatSlice(segs, si);
      RecordOffsetExact(n, hs, segs, crc, si);
    }
    ImageReadsBack(fw);
  }

  // ----- the packer -----

  /**
   * A run succeeds exactly when there are 1 to 9 loadable segments and each
   * lies inside the ELF file; the file it writes is then 20 + 20 * count
   * bytes plus the padded sizes its records hold.
   */
  lemma PackResultOk(phdrs: seq<ProgramHeader>, elf: seq<uint8>, elfVersion: uint32, ctime: uint32,
                     uninit: (nat, nat) -> uint8, crc: seq<uint8> -> uint32)
    requires WellSized(phdrs)
    ensures var r := PackResult(phdrs, elf, elfVersion, ctime, uninit, crc);
      r.Ok? <==> 0 < |Loadable(phdrs)| <= MaxSegments && AllInElf(Loadable(phdrs), elf)
    ensures var r := PackResult(phdrs, elf, elfVersion, ctime, uninit, crc);
      r.Ok? ==>
        var fw := PackedFirmware(phdrs, elf, elfVersion, ctime, uninit, crc);
        |r.value| == HeaderSize + 20 * |Loadable(phdrs)| + TotalSize(fw.seghdrs)
  {
    if 0 < |Loadable(phdrs)| <= MaxSegments && AllInElf(Loadable(phdrs), elf) {
      var fw := PackedFirmware(phdrs, elf, elfVersion, ctime, uninit, crc);
      PackedFirmwareParts(phdrs, elf, elfVersion, ctime, uninit, crc);
      ImageLength(fw);
    }
  }

  /** One more buffer extends the buffers of the first `si` segments. */
  lemma BuffersAppend(hs: seq<ProgramHeader>, elf: seq<uint8>, uninit: (nat, nat) -> uint8,
                      segs: seq<seq<uint8>>, b: seq<uint8>, si: nat)
    requires si < |hs| && SizedForMask(hs)
    requires AllInElf(hs[..si], elf) && segs == Buffers(hs[..si], elf, uninit)
    requires InElf(hs[si], elf) && b == SegmentBuffer(hs[si], elf, si, uninit)
    ensures AllInElf(hs[..si + 1], elf)
    ensures segs + [b] == Buffers(hs[..si + 1], elf, uninit)
  {
    var next := hs[..si + 1];
    assert next[..si] == hs[..si] && next[si] == hs[si];
    assert AllInElf(next, elf);
    var bs := Buffers(next, elf, uninit);
    assert |bs| == |segs + [b]|;
    forall s | 0 <= s < |bs| ensures bs[s] == (segs + [b])[s] {
      if s < si {
        assert segs[s] == SegmentBuffer(hs[..si][s], elf, s, uninit);
      }
    }
  }

  /**
   * The state after the first `k` loadable headers have been emitted: their
   * buffers, their records and the file, which holds `start` (header and
   * zeroed table) followed by those buffers.
   */
  ghost predicate Emitted(hs: seq<ProgramHeader>, k: nat, elf: seq<uint8>, uninit: (nat, nat) -> uint8,
                          crc: seq<uint8> -> uint32, start: seq<uint8>,
                          segs: seq<seq<uint8>>, hdrs: seq<MarvellSegmentHeader>, data: seq<uint8>)
  {
    && k <= |hs| && SizedForMask(hs) && SizedForMask(hs[..k]) && AllInElf(hs[..k], elf)
    && segs == Buffers(hs[..k], elf, uninit)
    && hdrs == Records(|hs|, hs, segs, crc)
    && |start| == DataStart(|hs|) && data == start + Concat(segs)
  }

  lemma SizedPrefix(hs: seq<ProgramHeader>, k: nat)
    requires k <= |hs| && SizedForMask(hs)
    ensures SizedForMask(hs[..k])
  {
    assert forall s :: 0 <= s < k ==> hs[..k][s] == hs[s];
  }

  /** Emitting one more segment, at the current end of the file, extends that state. */
  lemma WriteStep(hs: seq<ProgramHeader>, si: nat, elf: seq<uint8>, uninit: (nat, nat) -> uint8,
                  crc: seq<uint8> -> uint32, start: seq<uint8>,
                  segs: seq<seq<uint8>>, hdrs: seq<MarvellSegmentHeader>, data: seq<uint8>,
                  b: seq<uint8>, record: MarvellSegmentHeader)
    requires si < |hs| && Emitted(hs, si, elf, uninit, crc, start, segs, hdrs, data)
    requires InElf(hs[si], elf) && b == SegmentBuffer(hs[si], elf, si, uninit)
    requires record == MarvellSegmentHeader(SegmentMagic, FileOffset(|data|), |b|, hs[si].vaddr, crc(b))
    ensures Emitted(hs, si + 1, elf, uninit, crc, start, segs + [b], hdrs + [record], data + b)
  {
    SizedPrefix(hs, si + 1);
    BuffersAppend(hs, elf, uninit, segs, b, si);
    WriteStepRecord(hs, si, elf, uninit, crc, start, segs, hdrs, data, b, record);
    ConcatAppend(segs, b);
  }

  /** The record written for the next segment is the next of the packed records. */
  lemma WriteStepRecord(hs: seq<ProgramHeader>, si: nat, elf: seq<uint8>, uninit: (nat, nat) -> uint8,
                        crc: seq<uint8> -> uint32, start: seq<uint8>,
                        segs: seq<seq<uint8>>, hdrs: seq<MarvellSegmentHeader>, data: seq<uint8>,
                        b: seq<uint8>, record: MarvellSegmentHeader)
    requires si < |hs| && Emitted(hs, si, elf, uninit, crc, start, segs, hdrs, data)
    requires InElf(hs[si], elf) && b == SegmentBuffer(hs[si], elf, si, uninit)
    requires record == MarvellSegmentHeader(SegmentMagic, FileOffset(|data|), |b|, hs[si].vaddr, crc(b))
    ensures hdrs + [record] == Records(|hs|, hs, segs + [b], crc)
  {
    assert |segs| == si && |data| == DataStart(|hs|) + |Concat(segs)|;
    RecordsStep(|hs|, hs, segs, hdrs, b, record, crc);
  }

  lemma ConcatAppend(segs: seq<seq<uint8>>, b: seq<uint8>)
    ensures Concat(segs + [b]) == Concat(segs) + b
  {
    assert (segs + [b])[..|segs|] == segs;
  }

  /** The record of the next segment, placed at the end of those before it, extends the records. */
  lemma RecordsStep(n: nat, hs: seq<ProgramHeader>, segs: seq<seq<uint8>>, hdrs: seq<MarvellSegmentHeader>,
                    b: seq<uint8>, record: MarvellSegmentHeader, crc: seq<uint8> -> uint32)
    requires |segs| < |hs| && |b| < TwoTo32 && forall si :: 0 <= si < |segs| ==> |segs[si]| < TwoTo32
    requires hdrs == Records(n, hs, segs, crc)
    requires record == MarvellSegmentHeader(SegmentMagic, FileOffset(DataStart(n) + |Concat(segs)|), |b|, hs[|segs|].vaddr, crc(b))
    ensures hdrs + [record] == Records(n, hs, segs + [b], crc)
  {
    PackedRecordIs(n, hs[|segs|], segs, b, crc, record);
    RecordsAppend(n, hs, segs, b, crc);
  }

  lemma PackedRecordIs(n: nat, ph: ProgramHeader, segs: seq<seq<uint8>>, b: seq<uint8>,
                       crc: seq<uint8> -> uint32, record: MarvellSegmentHeader)
    requires |b| < TwoTo32
    requires record == MarvellSegmentHeader(SegmentMagic, FileOffset(DataStart(n) + |Concat(segs)|), |b|, ph.vaddr, crc(b))
    ensures record == PackedRecord(n, ph, segs, b, crc)
  {
  }

  /** Nothing emitted yet. */
  lemma EmittedNone(hs: seq<ProgramHeader>, elf: seq<uint8>, uninit: (nat, nat) -> uint8,
                    crc: seq<uint8> -> uint32, start: seq<uint8>)
    requires SizedForMask(hs) && |start| == DataStart(|hs|)
    ensures Emitted(hs, 0, elf, uninit, crc, start, [], [], start)
  {
    assert Buffers(hs[..0], elf, uninit) == [];
  }

  /** All loadable headers emitted: the buffers, records and data region of the whole image. */
  lemma EmittedAll(hs: seq<ProgramHeader>, elf: seq<uint8>, uninit: (nat, nat) -> uint8,
                   crc: seq<uint8> -> uint32, start: seq<uint8>,
                   segs: seq<seq<uint8>>, hdrs: seq<MarvellSegmentHeader>, data: seq<uint8>)
    requires Emitted(hs, |hs|, elf, uninit, crc, start, segs, hdrs, data)
    ensures AllInElf(hs, elf) && segs == Buffers(hs, elf, uninit)
    ensures hdrs == Records(|hs|, hs, segs, crc) && data == start + Concat(segs)
  {
    assert hs[..|hs|] == hs;
  }

  /** Slots from `si` kept before a step that keeps slots from `si + 1` stay kept. */
  lemma TailKept<T>(orig: seq<T>, mid: seq<T>, cur: seq<T>, si: nat)
    requires si < |mid| == |orig| && mid[si..] == orig[si..] && |cur| == |mid| && cur[si + 1..] == mid[si + 1..]
    ensures cur[si + 1..] == orig[si + 1..]
  {
    assert mid[si + 1..] == mid[si..][1..] && orig[si + 1..] == orig[si..][1..];
  }

  /** Stopped at a header that cannot be read: what was emitted is everything before the first missing one. */
  lemma EmittedUntilMissing(hs: seq<ProgramHeader>, si: nat, elf: seq<uint8>, uninit: (nat, nat) -> uint8,
                            crc: seq<uint8> -> uint32, start: seq<uint8>,
                            segs: seq<seq<uint8>>, hdrs: seq<MarvellSegmentHeader>, data: seq<uint8>)
    requires si < |hs| && Emitted(hs, si, elf, uninit, crc, start, segs, hdrs, data) && !InElf(hs[si], elf)
    ensures FirstMissing(hs, elf) == si && segs == BuffersBefore(hs, elf, uninit)
    ensures data == start + Concat(segs) && hdrs == Records(|hs|, hs, segs, crc)
  {
    FirstMissingIs(hs, elf, si);
  }

  /**
   * The body of the second pass for one loadable header: fill and checksum
   * its buffer, take `ftell` as its offset, and append it to the file.
   */
  method EmitSegment(ph: ProgramHeader, elf: seq<uint8>, si: nat, uninit: (nat, nat) -> uint8,
                     crc: seq<uint8> -> uint32, out: OutputFile) returns (r: Option<(seq<uint8>, MarvellSegmentHeader)>)
    requires ph.filesz + 3 < TwoTo32 && out.pos == |out.data|
    modifies out
    ensures r.Some? <==> InElf(ph, elf)
    ensures r.None? ==> out.data == old(out.data) && out.pos == old(out.pos)
    ensures r.Some? ==> r.value.0 == SegmentBuffer(ph, elf, si, uninit)
    ensures r.Some? ==> r.value.1 == MarvellSegmentHeader(SegmentMagic, FileOffset(old(out.pos)), |r.value.0|, ph.vaddr, crc(r.value.0))
    ensures r.Some? ==> out.data == old(out.data) + r.value.0 && out.pos == |out.data|
  {
    var buf := FillSegment(ph, elf, si, uninit);
    if buf.None? {
      return None;
    }
    var b := buf.value;
    var checksum := crc(b);
    var offset := FileOffset(out.Tell());
    OverwriteAtEnd(out.data, b);
    out.Write(b);
    return Some((b, MarvellSegmentHeader(SegmentMagic, offset, |b|, ph.vaddr, checksum)));
  }

  /**
   * One iteration of the second pass for the loadable header `hs[si]`:
   * emit its buffer and store its record and buffer in slot `si`. The ghost
   * `segs` and `hdrs` are what the slots before `si` hold.
   */
  method StoreSegment(ghost hs: seq<ProgramHeader>, si: nat, ph: ProgramHeader, elf: seq<uint8>, uninit: (nat, nat) -> uint8,
                      crc: seq<uint8> -> uint32, out: OutputFile, ghost start: seq<uint8>,
                      ghost segs: seq<seq<uint8>>, ghost hdrs: seq<MarvellSegmentHeader>,
                      seghdrs: array<MarvellSegmentHeader>, segments: array<seq<uint8>>)
    returns (ok: bool, ghost segs': seq<seq<uint8>>, ghost hdrs': seq<MarvellSegmentHeader>)
    requires si < |hs| == seghdrs.Length == segments.Length && hs[si] == ph && ph.filesz + 3 < TwoTo32
    requires segments[..si] == segs && seghdrs[..si] == hdrs
    requires Emitted(hs, si, elf, uninit, crc, start, segs, hdrs, out.data)
    requires out.pos == |out.data|
    modifies out, seghdrs, segments
    ensures !ok ==> !InElf(ph, elf)
    ensures !ok ==> out.data == old(out.data) && segs' == segs && hdrs' == hdrs
    ensures !ok ==> segments[..] == old(segments[..]) && seghdrs[..] == old(seghdrs[..])
    ensures ok ==> segments[..si + 1] == segs' && seghdrs[..si + 1] == hdrs'
    ensures ok ==> segments[si + 1..] == old(segments[si + 1..]) && seghdrs[si + 1..] == old(seghdrs[si + 1..])
    ensures ok ==> Emitted(hs, si + 1, elf, uninit, crc, start, segs', hdrs', out.data)
    ensures out.pos == |out.data|
  {
    ghost var dataBefore := out.data;
    var emitted := EmitSegment(ph, elf, si, uninit, crc, out);
    if emitted.None? {
      return false, segs, hdrs;
    }
    var (b, record) := emitted.value;
    WriteStep(hs, si, elf, uninit, crc, start, segs, hdrs, dataBefore, b, record);
    seghdrs[si] := record;
    segments[si] := b;
    segs', hdrs' := segs + [b], hdrs + [record];
    assert seghdrs[..si + 1] == hdrs';
    assert segments[..si + 1] == segs';
    return true, segs', hdrs';
  }

  /**
   * The second pass over the program headers: for each loadable one, fill
   * its buffer, checksum it, record `ftell` as its offset and append it to
   * the file, filling `seghdrs[si]` and `segments[si]` in place.
   */
  method WriteSegments(phdrs: seq<ProgramHeader>, elf: seq<uint8>, uninit: (nat, nat) -> uint8,
                       crc: seq<uint8> -> uint32, out: OutputFile,
                       seghdrs: array<MarvellSegmentHeader>, segments: array<seq<uint8>>) returns (ok: bool)
    requires WellSized(phdrs)
    requires seghdrs.Length == segments.Length == |Loadable(phdrs)| <= MaxSegments
    requires out.pos == |out.data| == DataStart(|Loadable(phdrs)|)
    modifies out, seghdrs, segments
    ensures ok <==> AllInElf(Loadable(phdrs), elf)
    ensures ok ==>
      && segments[..] == Buffers(Loadable(phdrs), elf, uninit)
      && seghdrs[..] == Records(|Loadable(phdrs)|, Loadable(phdrs), segments[..], crc)
      && out.data == old(out.data) + Concat(segments[..])
      && out.pos == |out.data|
    ensures !ok ==>
      var k := FirstMissing(Loadable(phdrs), elf);
      var before := BuffersBefore(Loadable(phdrs), elf, uninit);
      && out.data == old(out.data) + Concat(before)
      && out.pos == |out.data|
      && segments[..k] == before && seghdrs[..k] == Records(|Loadable(phdrs)|, Loadable(phdrs), before, crc)
      && segments[k..] == old(segments[k..]) && seghdrs[k..] == old(seghdrs[k..])
  {
    ghost var hs := Loadable(phdrs);
    ghost var start := out.data;
    ghost var segs: seq<seq<uint8>> := [];
    ghost var hdrs: seq<MarvellSegmentHeader> := [];
    ghost var segments0, seghdrs0 := segments[..], seghdrs[..];
    var n := seghdrs.Length;
    var si := 0;
    EmittedNone(hs, elf, uninit, crc, start);
    for i := 0 to |phdrs|
      invariant si == |Loadable(phdrs[..i])| <= n
      invariant segments[..si] == segs && seghdrs[..si] == hdrs
      invariant Emitted(hs, si, elf, uninit, crc, start, segs, hdrs, out.data)
      invariant segments[si..] == segments0[si..] && seghdrs[si..] == seghdrs0[si..]
      invariant out.pos == |out.data|
    {
      LoadableStep(phdrs, i);
      LoadablePrefix(phdrs, i + 1);
      if phdrs[i].ptype == PT_LOAD && phdrs[i].filesz > 0 {
        var ph := phdrs[i];
        assert hs[si] == ph by {
          assert Loadable(phdrs[..i + 1])[si] == ph;
        }
        ghost var segmentsMid, seghdrsMid := segments[..], seghdrs[..];
        ok, segs, hdrs := StoreSegment(hs, si, ph, elf, uninit, crc, out, start, segs, hdrs, seghdrs, segments);
        if !ok {
          assert !AllInElf(hs, elf) by {
            assert !InElf(hs[si], elf);
          }
          EmittedUntilMissing(hs, si, elf, uninit, crc, start, segs, hdrs, out.data);
          return;
        }
        TailKept(segments0, segmentsMid, segments[..], si);
        TailKept(seghdrs0, seghdrsMid, seghdrs[..], si);
        si := si + 1;
      }
    }
    assert phdrs[..|phdrs|] == phdrs;
    assert segments[..] == segs && seghdrs[..] == hdrs;
    EmittedAll(hs, elf, uninit, crc, start, segs, hdrs, out.data);
    return true;
  }

  /** The first i + 1 records encode as the first i followed by record i. */
  lemma EncodeTableSnoc(hs: seq<MarvellSegmentHeader>, i: nat)
    requires i < |hs|
    ensures EncodeTable(hs[..i + 1]) == EncodeTable(hs[..i]) + EncodeSegmentHeader(hs[i])
  {
    assert hs[..i + 1][..i] == hs[..i];
  }

  /** Writing a record just after the rewritten part replaces the 20 bytes there. */
  lemma RewriteSplice(head: seq<uint8>, done: seq<uint8>, record: seq<uint8>, rest: seq<uint8>, o: nat)
    requires |done| == o && |record| == 20 && o + 20 <= |rest|
    ensures Overwrite(head + done + rest[o..], |head| + o, record) == head + (done + record) + rest[o + 20..]
  {
    var front := head + done;
    var x := rest[o..o + 20];
    var tail := rest[o + 20..];
    assert rest[o..] == x + tail;
    assert front + rest[o..] == front + x + tail;
    OverwriteSplice(front, x, tail, record);
    assert front + record + tail == head + (done + record) + tail;
  }

  /** Writing record i over the zeroed table extends the rewritten prefix by one record. */
  lemma RewriteStep(head: seq<uint8>, hs: seq<MarvellSegmentHeader>, rest: seq<uint8>, i: nat)
    requires |head| == HeaderSize && i < |hs| && |rest| >= 20 * |hs|
    ensures Overwrite(head + EncodeTable(hs[..i]) + rest[20 * i..], HeaderSize + 20 * i, EncodeSegmentHeader(hs[i]))
      == head + EncodeTable(hs[..i + 1]) + rest[20 * (i + 1)..]
  {
    assert 20 * i + 20 <= |rest|;
    EncodeTableSnoc(hs, i);
    RewriteSplice(head, EncodeTable(hs[..i]), EncodeSegmentHeader(hs[i]), rest, 20 * i);
  }

  /**
   * `fseek(fout, sizeof header)` and one `fwrite` per record: the table
   * region is overwritten with the final records; the header before it and
   * the segment data after it are untouched.
   */
  method RewriteTable(out: OutputFile, hs: seq<MarvellSegmentHeader>)
    requires |out.data| >= HeaderSize + 20 * |hs|
    modifies out
    ensures out.data == old(out.data)[..HeaderSize] + EncodeTable(hs) + old(out.data)[HeaderSize + 20 * |hs|..]
    ensures out.pos == HeaderSize + 20 * |hs|
  {
    ghost var head := out.data[..HeaderSize];
    ghost var rest := out.data[HeaderSize..];
    assert out.data == head + EncodeTable(hs[..0]) + rest[20 * 0..];
    out.Seek(HeaderSize);
    for i := 0 to |hs|
      invariant out.pos == HeaderSize + 20 * i
      invariant out.data == head + EncodeTable(hs[..i]) + rest[20 * i..]
    {
      var record := EncodeSegmentHeader(hs[i]);
      RewriteStep(head, hs, rest, i);
      out.Write(record);
    }
    assert hs[..|hs|] == hs;
  }

  lemma SplitThree(a: seq<uint8>, b: seq<uint8>, c: seq<uint8>)
    ensures (a + b + c)[..|a|] == a && (a + b + c)[|a| + |b|..] == c
  {
  }

  /**
   * The header, the final records and the buffers of a complete run are the
   * packed image, and the first record's offset is the end of the table.
   */
  lemma PackedImageIs(phdrs: seq<ProgramHeader>, elf: seq<uint8>, elfVersion: uint32, ctime: uint32,
                      uninit: (nat, nat) -> uint8, crc: seq<uint8> -> uint32,
                      segs: seq<seq<uint8>>, records: seq<MarvellSegmentHeader>)
    requires WellSized(phdrs) && 0 < |Loadable(phdrs)| <= MaxSegments && AllInElf(Loadable(phdrs), elf)
    requires segs == Buffers(Loadable(phdrs), elf, uninit)
    requires records == Records(|Loadable(phdrs)|, Loadable(phdrs), segs, crc)
    ensures records[0].offset == DataStart(|Loadable(phdrs)|)
    ensures EncodeHeader(PackedHeader(|Loadable(phdrs)|, elfVersion, ctime)) + EncodeTable(records) + Concat(segs)
         == Image(PackedFirmware(phdrs, elf, elfVersion, ctime, uninit, crc))
  {
    var hs := Loadable(phdrs);
    assert segs[..0] == [];
    RecordOffsetExact(|hs|, hs, segs, crc, 0);
  }

  /**
   * `fopen`, then the header and the table as allocated: every record blank,
   * so the table is written as zero bytes.
   */
  method StartFile(header: MarvellHeader, seghdrs: array<MarvellSegmentHeader>) returns (out: OutputFile)
    requires forall i :: 0 <= i < seghdrs.Length ==> seghdrs[i] == BlankRecord()
    ensures fresh(out)
    ensures out.data == EncodeHeader(header) + Zeros(20 * seghdrs.Length) && out.pos == |out.data|
  {
    out := new OutputFile.Open();
    out.Write(EncodeHeader(header));
    OverwriteAtEnd([], EncodeHeader(header));
    var zeros := EncodeTable(seghdrs[..]);
    BlankTable(seghdrs[..]);
    OverwriteAtEnd(out.data, zeros);
    out.Write(zeros);
  }

  /**
   * `main` from the first count to the final assertion: count, check the
   * count, write the header and a zeroed table, write the segments, rewrite
   * the table. The check at line 149 that the file position after the table
   * is the first segment's offset holds on every run that gets there.
   */
  method Pack(phdrs: seq<ProgramHeader>, elf: seq<uint8>, elfVersion: uint32, ctime: uint32,
              uninit: (nat, nat) -> uint8, crc: seq<uint8> -> uint32) returns (r: Result<seq<uint8>, PackError>)
    requires WellSized(phdrs)
    ensures r == PackResult(phdrs, elf, elfVersion, ctime, uninit, crc)
  {
    var count := CountLoadable(phdrs);
    if count == 0 {
      return Err(NoSuitableSegments);
    }
    if count > MaxSegments {
      return Err(TooManySegments);
    }
    var header := PackedHeader(count, elfVersion, ctime);
    var seghdrs := new MarvellSegmentHeader[count](_ => BlankRecord());
    var segments := new seq<uint8>[count](_ => []);
    var out := StartFile(header, seghdrs);
    var ok := WriteSegments(phdrs, elf, uninit, crc, out, seghdrs, segments);
    if !ok {
      // err() exits with the header, the zeroed table and the earlier segments in the file
      return Err(SegmentReadFailed(out.data));
    }
    ghost var data := Concat(segments[..]);
    SplitThree(EncodeHeader(header), Zeros(20 * count), data);
    var records := seghdrs[..];
    RewriteTable(out, records);
    PackedImageIs(phdrs, elf, elfVersion, ctime, uninit, crc, segments[..], records);
    assert out.Tell() == seghdrs[0].offset;
    return Ok(out.data);
  }
}
