/**
 * Both converters together, on a two-segment example: a 4-byte segment at
 * 0x1F000000 and a 6-byte segment at 0x1F000100, taken from a 10-byte ELF file.
 */
module EndToEnd {
  import opened Bytes
  import opened MarvellFormat
  import opened MarvellReader
  import opened AxfToFirmware
  import opened FirmwareToElf

  function ExamplePhdrs(): (phdrs: seq<ProgramHeader>) {
    [ProgramHeader(PT_LOAD, 0, 0x1F00_0000, 4), ProgramHeader(PT_LOAD, 4, 0x1F00_0100, 6)]
  }

  lemma ExampleLoadable()
    ensures Loadable(ExamplePhdrs()) == ExamplePhdrs()
  {
    var p := ExamplePhdrs();
    assert p[..1][..0] == [];
    assert p[..1] == [p[0]];
  }

  lemma ExamplePadding()
    ensures PaddedSize(4) == 4 && PaddedSize(6) == 8
  {
    MaskClearsLowBits(7);
    MaskClearsLowBits(9);
  }

  /** The example passes the packer's checks: two segments, both inside the ELF file. */
  lemma ExampleWellFormed(phdrs: seq<ProgramHeader>, elf: seq<uint8>)
    requires phdrs == ExamplePhdrs() && |elf| == 10
    ensures WellSized(phdrs) && |Loadable(phdrs)| == 2 && AllInElf(Loadable(phdrs), elf)
  {
    ExampleLoadable();
    assert phdrs[0].offset + phdrs[0].filesz == 4 && phdrs[1].offset + phdrs[1].filesz == 10;
    assert SizedForMask(phdrs) by {
      forall s | 0 <= s < |phdrs| ensures phdrs[s].filesz + 3 < TwoTo32 {
        assert s == 0 || s == 1;
      }
    }
    assert AllInElf(phdrs, elf) by {
      forall s | 0 <= s < |phdrs| ensures InElf(phdrs[s], elf) {
        assert s == 0 || s == 1;
      }
    }
  }

  /** In a two-segment file the second segment follows the 4 bytes of the first. */
  lemma SecondRecordOffset(hs: seq<ProgramHeader>, segs: seq<seq<uint8>>, crc: seq<uint8> -> uint32)
    requires |hs| == 2 && |segs| == 2 && |segs[0]| == 4 && |segs[1]| == 8
    ensures Records(2, hs, segs, crc)[1].offset == 64
  {
    ConcatStep(segs, 0);
    assert segs[..0] == [];
    RecordOffsetExact(2, hs, segs, crc, 1);
  }

  /** The header and the sizes the packer records for the example. */
  lemma ExampleSizes(phdrs: seq<ProgramHeader>, elf: seq<uint8>, ctime: uint32, uninit: (nat, nat) -> uint8, crc: seq<uint8> -> uint32)
    requires phdrs == ExamplePhdrs() && |elf| == 10
    ensures WellSized(phdrs) && |Loadable(phdrs)| == 2 && AllInElf(Loadable(phdrs), elf)
    ensures var fw := PackedFirmware(phdrs, elf, 1, ctime, uninit, crc);
      && Consistent(fw)
      && fw.header == MarvellHeader(Magic1, Magic2, ctime, 2, 1)
      && |fw.segments[0]| == 4 && |fw.segments[1]| == 8
  {
    ExampleWellFormed(phdrs, elf);
    ExampleLoadable();
    ExamplePadding();
    PackedFirmwareParts(phdrs, elf, 1, ctime, uninit, crc);
  }

  /** Where the packer places the example's two segments. */
  lemma ExampleOffsets(phdrs: seq<ProgramHeader>, elf: seq<uint8>, ctime: uint32, uninit: (nat, nat) -> uint8, crc: seq<uint8> -> uint32)
    requires phdrs == ExamplePhdrs() && |elf| == 10
    ensures WellSized(phdrs) && |Loadable(phdrs)| == 2 && AllInElf(Loadable(phdrs), elf)
    ensures var fw := PackedFirmware(phdrs, elf, 1, ctime, uninit, crc);
      && fw.seghdrs[0].offset == 60 && fw.seghdrs[0].size == 4
      && fw.seghdrs[1].offset == 64 && fw.seghdrs[1].size == 8
      && fw.seghdrs[1].vaddr == 0x1F00_0100
  {
    ExampleSizes(phdrs, elf, ctime, uninit, crc);
    ExampleLoadable();
    var hs := Loadable(phdrs);
    var fw := PackedFirmware(phdrs, elf, 1, ctime, uninit, crc);
    assert fw.seghdrs == Records(2, hs, fw.segments, crc);
    assert fw.segments[..0] == [];
    RecordOffsetExact(2, hs, fw.segments, crc, 0);
    SecondRecordOffset(hs, fw.segments, crc);
  }

  /**
   * The example's buffers start with the ELF bytes each program header points
   * at; the two bytes after the second segment's data are the allocator's.
   */
  lemma ExampleContents(phdrs: seq<ProgramHeader>, elf: seq<uint8>, ctime: uint32, uninit: (nat, nat) -> uint8, crc: seq<uint8> -> uint32)
    requires phdrs == ExamplePhdrs() && |elf| == 10
    ensures WellSized(phdrs) && |Loadable(phdrs)| == 2 && AllInElf(Loadable(phdrs), elf)
    ensures var fw := PackedFirmware(phdrs, elf, 1, ctime, uninit, crc);
      && |fw.segments| == 2 && |fw.segments[1]| == 8
      && fw.segments[0] == elf[0..4] && fw.segments[1][..6] == elf[4..10]
      && fw.segments[1][6] == uninit(1, 6) && fw.segments[1][7] == uninit(1, 7)
  {
    ExampleSizes(phdrs, elf, ctime, uninit, crc);
    ExampleLoadable();
    var hs := Loadable(phdrs);
    var segs := PackedFirmware(phdrs, elf, 1, ctime, uninit, crc).segments;
    assert segs == Buffers(hs, elf, uninit);
    assert hs[0] == ProgramHeader(PT_LOAD, 0, 0x1F00_0000, 4);
    assert hs[1] == ProgramHeader(PT_LOAD, 4, 0x1F00_0100, 6);
    var b0, b1 := SegmentBuffer(hs[0], elf, 0, uninit), SegmentBuffer(hs[1], elf, 1, uninit);
    assert segs[0] == b0 && segs[1] == b1;
    assert b0[..4] == elf[0..4] && b1[..6] == elf[4..10];
    assert b0 == b0[..4];
  }

  /** A two-record table records the sum of its two sizes. */
  lemma TotalSizeOfTwo(hs: seq<MarvellSegmentHeader>)
    requires |hs| == 2
    ensures TotalSize(hs) == hs[0].size + hs[1].size
  {
    var h1 := hs[..1];
    assert h1 == [hs[0]];
    assert h1[..0] == [];
    assert TotalSize(h1[..0]) == 0;
    assert TotalSize(h1) == hs[0].size;
  }

  /** The packer succeeds on the example. */
  lemma ExamplePacks(phdrs: seq<ProgramHeader>, elf: seq<uint8>, ctime: uint32, uninit: (nat, nat) -> uint8, crc: seq<uint8> -> uint32)
    requires phdrs == ExamplePhdrs() && |elf| == 10
    ensures WellSized(phdrs)
    ensures PackResult(phdrs, elf, 1, ctime, uninit, crc) == Ok(Image(PackedFirmware(phdrs, elf, 1, ctime, uninit, crc)))
  {
    ExampleWellFormed(phdrs, elf);
  }

  /** The packed file is 20 + 2 * 20 + 4 + 8 = 72 bytes. */
  lemma ExampleLength(phdrs: seq<ProgramHeader>, elf: seq<uint8>, ctime: uint32, uninit: (nat, nat) -> uint8, crc: seq<uint8> -> uint32)
    requires phdrs == ExamplePhdrs() && |elf| == 10
    ensures WellSized(phdrs)
    ensures var r := PackResult(phdrs, elf, 1, ctime, uninit, crc);
      r.Ok? && |r.value| == 72
  {
    ExamplePacks(phdrs, elf, ctime, uninit, crc);
    ExampleSizes(phdrs, elf, ctime, uninit, crc);
    ExampleOffsets(phdrs, elf, ctime, uninit, crc);
    var fw := PackedFirmware(phdrs, elf, 1, ctime, uninit, crc);
    ImageLength(fw);
    TotalSizeOfTwo(fw.seghdrs);
  }

  /**
   * Reading the packed example back gives the packed value, and the reverse
   * converter's entry point is the second segment's address plus one.
   */
  lemma TwoSegmentExample(phdrs: seq<ProgramHeader>, elf: seq<uint8>, ctime: uint32, uninit: (nat, nat) -> uint8, crc: seq<uint8> -> uint32)
    requires phdrs == ExamplePhdrs() && |elf| == 10
    ensures WellSized(phdrs)
    ensures var r := PackResult(phdrs, elf, 1, ctime, uninit, crc);
      var fw := PackedFirmware(phdrs, elf, 1, ctime, uninit, crc);
      && r.Ok? && DecodeFirmware(r.value) == Ok(fw)
      && EntryPoint(fw) == Some(0x1F00_0101)
  {
    ExamplePacks(phdrs, elf, ctime, uninit, crc);
    ExampleSizes(phdrs, elf, ctime, uninit, crc);
    ExampleOffsets(phdrs, elf, ctime, uninit, crc);
    PackedImageReadsBack(phdrs, elf, 1, ctime, uninit, crc);
  }
}
