/**
 * The reverse converter of src/firmware2elf.c: from a container that has been
 * read, the sections of a 32-bit little-endian ARM executable. The container
 * does not say what a segment is, so section names, flags and alignments come
 * from the segment's position alone. The ELF writer library is replaced by the
 * list of section descriptors the program asks it to create.
 */
module FirmwareToElf {
  import opened Bytes
  import opened MarvellFormat
  import opened StringTable
  import opened MarvellReader

  // section types and flags of the ELF format and its ARM supplement
  const SHT_PROGBITS: uint32 := 1
  const SHT_STRTAB: uint32 := 3
  const SHT_ARM_ATTRIBUTES: uint32 := 0x7000_0003
  const SHF_WRITE: bv32 := 0x1
  const SHF_ALLOC: bv32 := 0x2
  const SHF_EXECINSTR: bv32 := 0x4
  const SHF_STRINGS: bv32 := 0x20

  // special section indices
  const SHN_UNDEF: uint16 := 0
  const SHN_LORESERVE: uint16 := 0xFF00

  // fixed header fields
  const ELFDATA2LSB: uint8 := 1
  const EM_ARM: uint32 := 40
  const ET_EXEC: uint32 := 2
  const EF_ARM_EABI_VER5: bv32 := 0x0500_0000
  const EF_ARM_ABI_FLOAT_SOFT: bv32 := 0x200

  /** What one `elf_newscn` + `elf_newdata` + `elf32_getshdr` group sets up. */
  datatype Section = Section(
    nameOff: nat,          // sh_name
    shType: uint32,        // sh_type
    flags: bv32,           // sh_flags
    addr: uint32,          // sh_addr (0 where the program leaves it unset)
    align: nat,            // d_align
    payload: seq<uint8>)   // d_buf, d_size bytes long

  datatype ElfImage = ElfImage(
    data: uint8,               // e_ident[EI_DATA]
    machine: uint32,
    fileType: uint32,
    flags: bv32,
    entry: Option<uint32>,     // None: e_entry left as the library set it
    shstrndx: uint16,          // e_shstrndx, an Elf32_Half; section index 0 is the library's null section
    sections: seq<Section>)    // sections 1, 2, ... in creation order

  function InitName(): (name: seq<uint8>) { AsciiBytes(".init") }
  function TextName(): (name: seq<uint8>) { AsciiBytes(".text") }
  function DataName(): (name: seq<uint8>) { AsciiBytes(".data") }
  function AttributesName(): (name: seq<uint8>) { AsciiBytes(".ARM.attributes") }
  function ShstrtabName(): (name: seq<uint8>) { AsciiBytes(".shstrtab") }

  /**
   * The five names are distinct C strings, and none ends another: the three
   * segment names have five bytes each, and ".ARM.attributes" does not end
   * in ".shstrtab".
   */
  lemma SectionNamesDistinct()
    ensures InitName() != TextName() && InitName() != DataName() && TextName() != DataName()
    ensures |InitName()| == 5 && |TextName()| == 5 && |DataName()| == 5
    ensures |AttributesName()| == 15 && |ShstrtabName()| == 9
    ensures IsCString(InitName()) && IsCString(TextName()) && IsCString(DataName())
    ensures IsCString(AttributesName()) && IsCString(ShstrtabName())
    ensures !IsSuffix(ShstrtabName(), AttributesName())
  {
    assert InitName()[1] == 'i' as int && TextName()[1] == 't' as int && DataName()[1] == 'd' as int;
    assert AttributesName()[6..][0] == 't' as int && ShstrtabName()[0] == '.' as int;
  }

  /** Equal lengths: one name ends the other only when they are the same. */
  lemma NotSuffixSameLength(name: seq<uint8>, s: seq<uint8>)
    requires |name| == |s| && name != s
    ensures !IsSuffix(name, s)
  {
    assert s[|s| - |name|..] == s;
  }

  /** Name, flags and alignment the converter gives the section made from segment `i`. */
  datatype SectionKind = SectionKind(name: seq<uint8>, flags: bv32, align: nat)

  /**
   * The `switch (i)`: flags start as SHF_ALLOC and alignment as 1, and cases
   * 0, 1 and 2 overwrite them; an unknown index (a warning is printed) is
   * named `.text` again but keeps SHF_ALLOC alone.
   */
  function SegmentSection(i: nat): (k: SectionKind)
    ensures IsCString(k.name) && |k.name| > 0
    ensures k.flags & SHF_ALLOC != 0
    ensures (k.flags & SHF_EXECINSTR != 0) <==> i <= 2
    ensures (k.flags & SHF_WRITE != 0) <==> i == 2
    ensures k.name == InitName() <==> i == 0
    ensures k.name == TextName() <==> i == 1 || i >= 3
    ensures k.name == DataName() <==> i == 2
    ensures k.align == (if i == 0 then 8 else if i == 1 then 16 else 1)
  {
    SectionNamesDistinct();
    if i == 0 then SectionKind(InitName(), SHF_ALLOC | SHF_EXECINSTR, 8)
    else if i == 1 then SectionKind(TextName(), SHF_ALLOC | SHF_EXECINSTR, 16)
    else if i == 2 then SectionKind(DataName(), SHF_ALLOC | SHF_WRITE | SHF_EXECINSTR, 1)
    else SectionKind(TextName(), SHF_ALLOC, 1)
  }

  /**
   * The entry rule: with at least two segments, segment 1's address plus one,
   * wrapping at 2^32 like the 32-bit `e_entry` it is stored in.
   */
  function EntryPoint(fw: MarvellFirmware): (e: Option<uint32>)
    requires Consistent(fw)
    ensures e.Some? <==> fw.header.numSegments >= 2
    ensures e.Some? ==> (e.value == fw.seghdrs[1].vaddr + 1 || (fw.seghdrs[1].vaddr == TwoTo32 - 1 && e.value == 0))
  {
    if fw.header.numSegments >= 2 then Some((fw.seghdrs[1].vaddr + 1) % TwoTo32) else None
  }

  /**
   * The rule adds one rather than setting bit 0: an even address gets the
   * Thumb bit, but an odd one comes out even.
   */
  lemma EntryIsNotThumbBitSet(fw: MarvellFirmware)
    requires Consistent(fw) && fw.header.numSegments >= 2
    ensures fw.seghdrs[1].vaddr % 2 == 0 ==> EntryPoint(fw).value % 2 == 1
    ensures fw.seghdrs[1].vaddr % 2 == 1 ==> EntryPoint(fw).value % 2 == 0
  {
  }

  /**
   * The `.ARM.attributes` payload: an "A" format-version byte, then one vendor
   * subsection "aeabi" holding a file-scope attribute list for a Cortex-M4.
   */
  function ArmAttributes(): (payload: seq<uint8>) {
    [0x41]                                                        // format version 'A'
    + [0x34, 0x00, 0x00, 0x00]                                    // subsection length
    + [0x61, 0x65, 0x61, 0x62, 0x69, 0x00]                        // vendor "aeabi"
    + [0x01, 0x2A, 0x00, 0x00, 0x00]                              // Tag_File and its length
    + [0x05, 0x43, 0x6F, 0x72, 0x74, 0x65, 0x78, 0x2D, 0x4D, 0x34, 0x00]  // Tag_CPU_name "Cortex-M4"
    + [0x06, 0x0D, 0x07, 0x4D, 0x09, 0x02, 0x0A, 0x06, 0x12, 0x04, 0x14, 0x01, 0x15]
    + [0x01, 0x17, 0x03, 0x18, 0x01, 0x1A, 0x01, 0x1B, 0x01, 0x1E, 0x04, 0x22, 0x01]
  }

  /**
   * The blob follows the build-attributes layout: format version 'A', a
   * little-endian subsection length counting everything after the version
   * byte, the NUL-terminated vendor name "aeabi", then tag 1 (Tag_File) with
   * its own length reaching the end of the blob.
   */
  lemma ArmAttributesLayout()
    ensures |ArmAttributes()| == 53
    ensures ArmAttributes()[0] == 'A' as int
    ensures DecodeU32(ArmAttributes()[1..5]) == |ArmAttributes()| - 1
    ensures ArmAttributes()[5..11] == AsciiBytes("aeabi") + [0]
    ensures ArmAttributes()[11] == 1
    ensures DecodeU32(ArmAttributes()[12..16]) == |ArmAttributes()| - 11
  {
    var a := ArmAttributes();
    assert a[0] == 0x41;
    assert a[1..5] == [0x34, 0x00, 0x00, 0x00];
    assert a[5..11] == [0x61, 0x65, 0x61, 0x62, 0x69, 0x00];
    assert AsciiBytes("aeabi") == [0x61, 0x65, 0x61, 0x62, 0x69];
    assert a[12..16] == [0x2A, 0x00, 0x00, 0x00];
  }

  /** No segment section carries a flag outside SHF_ALLOC, SHF_WRITE and SHF_EXECINSTR. */
  lemma SegmentFlagsKnown(i: nat)
    ensures SegmentSection(i).flags & !(SHF_ALLOC | SHF_WRITE | SHF_EXECINSTR) == 0
  {
  }

  /** Every section built from segment `k` of `fw`, with names resolved in `strtab`. */
  ghost predicate SegmentSectionBuilt(s: Section, k: nat, fw: MarvellFirmware, strtab: seq<uint8>)
    requires Consistent(fw) && k < fw.header.numSegments
  {
    && s.shType == SHT_PROGBITS
    && s.addr == fw.seghdrs[k].vaddr
    && s.payload == fw.segments[k]
    && |s.payload| == fw.seghdrs[k].size
    && s.flags == SegmentSection(k).flags
    && s.align == SegmentSection(k).align
    && NameAt(strtab, s.nameOff, SegmentSection(k).name)
  }

  lemma SegmentSectionBuiltStable(s: Section, k: nat, fw: MarvellFirmware, strtab: seq<uint8>, more: seq<uint8>)
    requires Consistent(fw) && k < fw.header.numSegments
    requires SegmentSectionBuilt(s, k, fw, strtab)
    ensures SegmentSectionBuilt(s, k, fw, strtab + more)
  {
    NameAtStable(strtab, more, s.nameOff, SegmentSection(k).name);
  }

  /** Sections 0 .. |secs|-1 were built from the first |secs| segments of `fw`. */
  ghost predicate SegmentSectionsBuilt(secs: seq<Section>, fw: MarvellFirmware, strtab: seq<uint8>)
    requires Consistent(fw) && |secs| <= fw.header.numSegments
  {
    forall k :: 0 <= k < |secs| ==> SegmentSectionBuilt(secs[k], k, fw, strtab)
  }

  lemma AllSegmentSectionsStable(secs: seq<Section>, fw: MarvellFirmware, strtab: seq<uint8>, more: seq<uint8>)
    requires Consistent(fw) && |secs| <= fw.header.numSegments
    requires SegmentSectionsBuilt(secs, fw, strtab)
    ensures SegmentSectionsBuilt(secs, fw, strtab + more)
  {
    forall k | 0 <= k < |secs| ensures SegmentSectionBuilt(secs[k], k, fw, strtab + more) {
      SegmentSectionBuiltStable(secs[k], k, fw, strtab, more);
    }
  }

  /**
   * What the loop over the segments has built after |secs| rounds: one
   * section per segment so far, named through `strtab`, where `.text` is
   * found at the offset section 1 got, and every later `.text` section shares it.
   */
  ghost predicate Copied(fw: MarvellFirmware, secs: seq<Section>, strtab: seq<uint8>) {
    && Consistent(fw) && |secs| <= fw.header.numSegments
    && WellFormedTable(strtab)
    && SegmentSectionsBuilt(secs, fw, strtab)
    && (|secs| >= 2 ==> Lookup(strtab, TextName()) == secs[1].nameOff)
    && (forall k :: 3 <= k < |secs| ==> secs[k].nameOff == secs[1].nameOff)
  }

  /** The section made from segment `i` once its name offset is known. */
  function SegmentSectionAt(fw: MarvellFirmware, i: nat, nameOff: nat): (s: Section)
    requires Consistent(fw) && i < fw.header.numSegments
  {
    var kind := SegmentSection(i);
    Section(nameOff, SHT_PROGBITS, kind.flags, fw.seghdrs[i].vaddr, kind.align, fw.segments[i])
  }

  /** One round keeps every earlier section's name readable and adds one more built section. */
  lemma CopyStepBuilt(fw: MarvellFirmware, secs: seq<Section>, strtab: seq<uint8>)
    requires Consistent(fw) && |secs| < fw.header.numSegments
    requires WellFormedTable(strtab) && SegmentSectionsBuilt(secs, fw, strtab)
    ensures var (strtab', nameOff) := GetOrAdd(strtab, SegmentSection(|secs|).name);
      && WellFormedTable(strtab') && strtab <= strtab'
      && SegmentSectionsBuilt(secs + [SegmentSectionAt(fw, |secs|, nameOff)], fw, strtab')
  {
    var i := |secs|;
    var (strtab', nameOff) := GetOrAdd(strtab, SegmentSection(i).name);
    GetOrAddResult(strtab, SegmentSection(i).name);
    var more := strtab'[|strtab|..];
    assert strtab' == strtab + more;
    AllSegmentSectionsStable(secs, fw, strtab, more);
    var secs' := secs + [SegmentSectionAt(fw, i, nameOff)];
    assert forall k :: 0 <= k < i ==> secs'[k] == secs[k];
  }

  /** One round keeps `.text` found at section 1's offset, which every later `.text` section reuses. */
  lemma CopyStepText(fw: MarvellFirmware, secs: seq<Section>, strtab: seq<uint8>)
    requires Copied(fw, secs, strtab) && |secs| < fw.header.numSegments
    ensures var (strtab', nameOff) := GetOrAdd(strtab, SegmentSection(|secs|).name);
      var secs' := secs + [SegmentSectionAt(fw, |secs|, nameOff)];
      && (|secs'| >= 2 ==> Lookup(strtab', TextName()) == secs'[1].nameOff)
      && (forall k :: 3 <= k < |secs'| ==> secs'[k].nameOff == secs'[1].nameOff)
  {
    var i := |secs|;
    var name := SegmentSection(i).name;
    var (strtab', nameOff) := GetOrAdd(strtab, name);
    if i == 1 {
      GetOrAddIdempotent(strtab, TextName());
    } else if i >= 2 {
      assert NameAt(strtab, secs[1].nameOff, TextName());
      if i >= 3 {
        // `.text` is already in the list, at the offset section 1 got
        LookupZeroIffAbsent(strtab, TextName());
        assert strtab' == strtab;
      } else {
        GetOrAddResult(strtab, name);
        assert strtab' == strtab + strtab'[|strtab|..];
        LookupStableAfterAppend(strtab, strtab'[|strtab|..], TextName());
      }
    }
  }

  /** One round of the loop: `strlist_get` of the segment's name, then the section. */
  lemma CopyStep(fw: MarvellFirmware, secs: seq<Section>, strtab: seq<uint8>)
    requires Copied(fw, secs, strtab) && |secs| < fw.header.numSegments
    ensures var (strtab', nameOff) := GetOrAdd(strtab, SegmentSection(|secs|).name);
      Copied(fw, secs + [SegmentSectionAt(fw, |secs|, nameOff)], strtab')
  {
    CopyStepBuilt(fw, secs, strtab);
    CopyStepText(fw, secs, strtab);
  }

  // ----- the contents of the section-name list -----

  /** The list after `strlist_get` of the names of segments 0 .. n-1, starting from `buf`. */
  function NamesAfter(buf: seq<uint8>, n: nat): (r: seq<uint8>) {
    if n == 0 then buf else GetOrAdd(NamesAfter(buf, n - 1), SegmentSection(n - 1).name).0
  }

  lemma NamesAfterNext(buf: seq<uint8>, n: nat)
    ensures NamesAfter(buf, n + 1) == GetOrAdd(NamesAfter(buf, n), SegmentSection(n).name).0
  {
  }

  /** The distinct segment names in the order they are first asked for. */
  function SegmentNames(n: nat): (names: seq<seq<uint8>>)
    ensures |names| == if n < 3 then n else 3
    ensures AllCStrings(names) && forall j :: 0 <= j < |names| ==> |names[j]| == 5
  {
    SectionNamesDistinct();
    if n == 0 then []
    else if n == 1 then [InitName()]
    else if n == 2 then [InitName(), TextName()]
    else [InitName(), TextName(), DataName()]
  }

  /** Segments 0, 1 and 2 ask for a name no earlier entry ends with, so it is appended. */
  lemma NextNameNew(n: nat)
    requires n < 3
    ensures GetOrAdd(Join(SegmentNames(n)), SegmentSection(n).name).0 == Join(SegmentNames(n + 1))
  {
    SectionNamesDistinct();
    var names := SegmentNames(n);
    var name := SegmentSection(n).name;
    forall j | 0 <= j < |names| ensures !IsSuffix(name, names[j]) {
      NotSuffixSameLength(name, names[j]);
    }
    GetOrAddNew(names, name);
    assert SegmentNames(n + 1) == names + [name];
  }

  /** Every segment from 3 on asks for `.text` again, which the list already holds. */
  lemma NextNameShared(n: nat)
    requires n >= 3
    ensures GetOrAdd(Join(SegmentNames(n)), SegmentSection(n).name).0 == Join(SegmentNames(n + 1))
  {
    var names := SegmentNames(n);
    assert SegmentSection(n).name == names[1];
    GetOrAddPresent(names, 1);
  }

  /**
   * From the fresh list, each name is appended the first time it is asked
   * for, and every segment from 3 on reuses `.text`: the list is the
   * distinct names in order.
   */
  lemma {:induction false} NamesAfterIsJoin(start: seq<uint8>, n: nat)
    requires start == [0]
    ensures NamesAfter(start, n) == Join(SegmentNames(n))
  {
    if n > 0 {
      NamesAfterIsJoin(start, n - 1);
      if n - 1 < 3 {
        NextNameNew(n - 1);
      } else {
        NextNameShared(n - 1);
      }
    }
  }

  /** The final `.shstrtab` payload for `n` segments. */
  function NameTable(n: nat): (table: seq<uint8>) {
    Join(SegmentNames(n) + [AttributesName(), ShstrtabName()])
  }

  /** Up to three names joined, written out. */
  lemma JoinUpToThree(a: seq<uint8>, b: seq<uint8>, c: seq<uint8>)
    ensures Join([a]) == [0] + a + [0]
    ensures Join([a, b]) == [0] + a + [0] + b + [0]
    ensures Join([a, b, c]) == [0] + a + [0] + b + [0] + c + [0]
  {
    JoinAppend([], a);
    assert [] + [a] == [a];
    JoinAppend([a], b);
    assert [a] + [b] == [a, b];
    JoinAppend([a, b], c);
    assert [a, b] + [c] == [a, b, c];
  }

  /**
   * The name table written out: the empty name, `.init`, `.text` and `.data`
   * as far as there are segments, `.ARM.attributes`, `.shstrtab`, each
   * NUL-terminated, and nothing else.
   */
  lemma NameTableLayout(n: nat)
    ensures n == 0 ==> NameTable(n) == [0] + AttributesName() + [0] + ShstrtabName() + [0]
    ensures n == 1 ==> NameTable(n) == [0] + InitName() + [0] + AttributesName() + [0] + ShstrtabName() + [0]
    ensures n == 2 ==>
      NameTable(n) == [0] + InitName() + [0] + TextName() + [0] + AttributesName() + [0] + ShstrtabName() + [0]
    ensures n >= 3 ==>
      NameTable(n) == [0] + InitName() + [0] + TextName() + [0] + DataName() + [0]
                      + AttributesName() + [0] + ShstrtabName() + [0]
    ensures |NameTable(n)| == if n == 0 then 27 else if n == 1 then 33 else if n == 2 then 39 else 45
  {
    SectionNamesDistinct();
    var names := SegmentNames(n);
    var a, t := AttributesName(), ShstrtabName();
    JoinAppend(names, a);
    JoinAppend(names + [a], t);
    assert names + [a] + [t] == names + [a, t];
    assert NameTable(n) == Join(names) + a + [0] + t + [0];
    JoinUpToThree(InitName(), TextName(), DataName());
  }

  /** `.ARM.attributes` is longer than every segment name, so `strlist_get` appends it. */
  lemma AttributesAppended(n: nat)
    ensures GetOrAdd(Join(SegmentNames(n)), AttributesName())
         == (Join(SegmentNames(n) + [AttributesName()]), |Join(SegmentNames(n))|)
  {
    SectionNamesDistinct();
    GetOrAddNew(SegmentNames(n), AttributesName());
  }

  /**
   * `.shstrtab` ends no earlier entry, so after it is appended the lookup
   * finds it where it was appended, and the list is the whole name table.
   */
  lemma SelfNameAppended(n: nat)
    ensures var named := Join(SegmentNames(n) + [AttributesName()]);
      && named + ShstrtabName() + [0] == NameTable(n)
      && Lookup(named + ShstrtabName() + [0], ShstrtabName()) == |named|
  {
    SectionNamesDistinct();
    var names := SegmentNames(n) + [AttributesName()];
    assert forall j :: 0 <= j < |names| - 1 ==> names[j] == SegmentNames(n)[j];
    AbsentFromJoin(names, ShstrtabName());
    LookupAfterAppend(Join(names), ShstrtabName());
    JoinAppend(names, ShstrtabName());
    assert names + [ShstrtabName()] == SegmentNames(n) + [AttributesName(), ShstrtabName()];
  }

  /**
   * The list `main` ends with: the segment names from the fresh list, then
   * `strlist_get` of `.ARM.attributes`, then `strlist_add` of `.shstrtab` and
   * its lookup, give the whole name table with both fixed names where they
   * were appended.
   */
  lemma NamesAssembled(n: nat, start: seq<uint8>, segNames: seq<uint8>, named: seq<uint8>, attrName: nat,
                       strtab: seq<uint8>, strName: nat)
    requires start == [0] && segNames == NamesAfter(start, n)
    requires (named, attrName) == GetOrAdd(segNames, AttributesName())
    requires strtab == named + ShstrtabName() + [0] && strName == Lookup(strtab, ShstrtabName())
    ensures strtab == segNames + strtab[|segNames|..]
    ensures strtab == NameTable(n)
    ensures attrName == |Join(SegmentNames(n))|
    ensures strName == |Join(SegmentNames(n) + [AttributesName()])|
  {
    NamesAfterIsJoin(start, n);
    AttributesStep(n, segNames, named, attrName);
    SelfNameStep(n, named, strtab, strName);
  }

  lemma AttributesStep(n: nat, segNames: seq<uint8>, named: seq<uint8>, attrName: nat)
    requires segNames == Join(SegmentNames(n)) && (named, attrName) == GetOrAdd(segNames, AttributesName())
    ensures named == segNames + AttributesName() + [0] && attrName == |segNames|
    ensures named == Join(SegmentNames(n) + [AttributesName()])
  {
    AttributesAppended(n);
    JoinAppend(SegmentNames(n), AttributesName());
  }

  lemma SelfNameStep(n: nat, named: seq<uint8>, strtab: seq<uint8>, strName: nat)
    requires named == Join(SegmentNames(n) + [AttributesName()])
    requires strtab == named + ShstrtabName() + [0] && strName == Lookup(strtab, ShstrtabName())
    ensures strtab == NameTable(n) && strName == |named|
  {
    SelfNameAppended(n);
  }

  /** One round of the loop: `strlist_get` of segment `|sections|`'s name, then its section. */
  method CopySegment(fw: MarvellFirmware, secnames: StringList, sections: seq<Section>, ghost start: seq<uint8>)
    returns (sections': seq<Section>)
    requires secnames.Valid() && Copied(fw, sections, secnames.buf) && |sections| < fw.header.numSegments
    requires secnames.buf == NamesAfter(start, |sections|)
    modifies secnames
    ensures secnames.Valid() && old(secnames.buf) <= secnames.buf
    ensures secnames.buf == NamesAfter(start, |sections'|)
    ensures |sections'| == |sections| + 1 && sections'[..|sections|] == sections
    ensures Copied(fw, sections', secnames.buf)
  {
    var i := |sections|;
    CopyStep(fw, sections, secnames.buf);
    NamesAfterNext(start, i);
    var nameOff := secnames.Get(SegmentSection(i).name);
    sections' := sections + [SegmentSectionAt(fw, i, nameOff)];
  }

  /** The loop over the segments: one section each, named through `secnames`. */
  method CopySegments(fw: MarvellFirmware, secnames: StringList) returns (sections: seq<Section>)
    requires Consistent(fw) && secnames.Valid()
    modifies secnames
    ensures secnames.Valid() && old(secnames.buf) <= secnames.buf
    ensures secnames.buf == NamesAfter(old(secnames.buf), fw.header.numSegments)
    ensures |sections| == fw.header.numSegments
    ensures SegmentSectionsBuilt(sections, fw, secnames.buf)
    ensures forall k :: 3 <= k < |sections| ==> sections[k].nameOff == sections[1].nameOff
  {
    ghost var start := secnames.buf;
    sections := [];
    for i := 0 to fw.header.numSegments
      invariant secnames.Valid() && start <= secnames.buf
      invariant secnames.buf == NamesAfter(start, i)
      invariant |sections| == i
      invariant Copied(fw, sections, secnames.buf)
    {
      sections := CopySegment(fw, secnames, sections, start);
    }
  }

  /**
   * `strlist_add` of ".shstrtab" (with no lookup first), then `strlist_ndx` of
   * the same name for the table's own `sh_name`.
   */
  method AddSelfName(secnames: StringList) returns (strName: nat)
    requires secnames.Valid()
    modifies secnames
    ensures secnames.Valid()
    ensures secnames.buf == old(secnames.buf) + ShstrtabName() + [0]
    ensures NameAt(secnames.buf, strName, ShstrtabName())
    ensures strName == Lookup(secnames.buf, ShstrtabName())
  {
    SectionNamesDistinct();
    var _ := secnames.Add(ShstrtabName());
    strName := secnames.Ndx(ShstrtabName());
    LookupIsFirstOccurrence(secnames.buf, ShstrtabName());
  }

  /**
   * What the converter hands to the ELF writer for `fw`: the fixed header
   * fields and the entry, one PROGBITS section per segment, `.ARM.attributes`
   * and the `.shstrtab` table holding exactly `NameTable(n)`, each section
   * named at the offset its name was appended at; `e_shstrndx` is the index
   * of the name table, n + 2, kept to the 16 bits of an `Elf32_Half`.
   */
  ghost predicate ElfBuilt(fw: MarvellFirmware, elf: ElfImage) {
    var n := fw.header.numSegments;
    && Consistent(fw)
    && |elf.sections| == n + 2
    && elf.data == ELFDATA2LSB && elf.machine == EM_ARM && elf.fileType == ET_EXEC
    && elf.flags == EF_ARM_EABI_VER5 | EF_ARM_ABI_FLOAT_SOFT
    && elf.entry == EntryPoint(fw)
    && elf.shstrndx == (n + 2) % 0x1_0000
    && SegmentSectionsBuilt(elf.sections[..n], fw, NameTable(n))
    && (forall k :: 3 <= k < n ==> elf.sections[k].nameOff == elf.sections[1].nameOff)
    && elf.sections[n] == Section(|Join(SegmentNames(n))|, SHT_ARM_ATTRIBUTES, 0, 0, 1, ArmAttributes())
    && elf.sections[n + 1] == Section(|Join(SegmentNames(n) + [AttributesName()])|, SHT_STRTAB,
                                      SHF_STRINGS | SHF_ALLOC, 0, 1, NameTable(n))
  }

  /** The two fixed sections' name offsets point at their names in the table. */
  lemma ElfBuiltNamesResolve(fw: MarvellFirmware, elf: ElfImage)
    requires ElfBuilt(fw, elf)
    ensures var n := fw.header.numSegments;
      && NameAt(elf.sections[n + 1].payload, elf.sections[n].nameOff, AttributesName())
      && NameAt(elf.sections[n + 1].payload, elf.sections[n + 1].nameOff, ShstrtabName())
  {
    NameAtJoinLastTwo(SegmentNames(fw.header.numSegments), AttributesName(), ShstrtabName());
  }

  /**
   * `e_shstrndx` is the name table's own index, the number of sections, exactly
   * when that fits in 16 bits; from `SHN_LORESERVE` on it lands in the range
   * ELF reserves for special indices.
   */
  lemma ShstrndxIsTableIndex(fw: MarvellFirmware, elf: ElfImage)
    requires ElfBuilt(fw, elf)
    ensures elf.shstrndx == |elf.sections| <==> |elf.sections| < 0x1_0000
    ensures SHN_LORESERVE <= |elf.sections| < 0x1_0000 ==> SHN_LORESERVE <= elf.shstrndx
  {
  }

  /** With 65534 segments the index wraps to `SHN_UNDEF`: the file no longer names its name table. */
  lemma ShstrndxWrapsToUndef(fw: MarvellFirmware, elf: ElfImage)
    requires ElfBuilt(fw, elf) && fw.header.numSegments == 0xFFFE
    ensures elf.shstrndx == SHN_UNDEF && |elf.sections| == 0x1_0000
  {
  }

  /**
   * `main` after the container has been read: one PROGBITS section per
   * segment, then `.ARM.attributes`, then the `.shstrtab` name table, whose
   * section index becomes `e_shstrndx`.
   */
  method BuildElf(fw: MarvellFirmware) returns (elf: ElfImage)
    requires Consistent(fw)
    ensures ElfBuilt(fw, elf)
  {
    var n: nat := fw.header.numSegments;
    var secnames := new StringList.Init();
    ghost var start := secnames.buf;
    var segs := CopySegments(fw, secnames);
    ghost var segNames := secnames.buf;

    var entry := EntryPoint(fw);

    // .ARM.attributes: longer than every segment name, so appended
    var attrName := secnames.Get(AttributesName());
    ghost var named := secnames.buf;

    // the section-name table names itself: appended unconditionally, then looked up
    var strName := AddSelfName(secnames);
    var strtab := secnames.buf;
    NamesAssembled(n, start, segNames, named, attrName, strtab, strName);
    AllSegmentSectionsStable(segs, fw, segNames, strtab[|segNames|..]);
    elf := AssembleElf(fw, segs, entry, attrName, strName, strtab);
  }

  /**
   * The header fields and the section list `main` hands to the writer: the
   * loop's sections, `.ARM.attributes` and `.shstrtab`; `e_shstrndx` is
   * `elf_ndxscn` of the last one, stored in an `Elf32_Half`.
   */
  function AssembleElf(fw: MarvellFirmware, segs: seq<Section>, entry: Option<uint32>,
                       attrName: nat, strName: nat, strtab: seq<uint8>): (elf: ElfImage)
    requires Consistent(fw) && |segs| == fw.header.numSegments && entry == EntryPoint(fw)
    requires SegmentSectionsBuilt(segs, fw, NameTable(|segs|))
    requires forall k :: 3 <= k < |segs| ==> segs[k].nameOff == segs[1].nameOff
    requires attrName == |Join(SegmentNames(|segs|))|
    requires strName == |Join(SegmentNames(|segs|) + [AttributesName()])|
    requires strtab == NameTable(|segs|)
    ensures ElfBuilt(fw, elf)
  {
    var sections := segs + [Section(attrName, SHT_ARM_ATTRIBUTES, 0, 0, 1, ArmAttributes()),
                            Section(strName, SHT_STRTAB, SHF_STRINGS | SHF_ALLOC, 0, 1, strtab)];
    assert sections[..|segs|] == segs;
    ElfImage(ELFDATA2LSB, EM_ARM, ET_EXEC, EF_ARM_EABI_VER5 | EF_ARM_ABI_FLOAT_SOFT, entry,
             |sections| % 0x1_0000, sections)
  }

  /**
   * `main` of the reverse converter: read the container, failing exactly as
   * the reader does, then build one section per segment plus the attributes
   * and name-table sections.
   */
  method ConvertFirmware(input: seq<uint8>) returns (r: Result<ElfImage, ReadError>)
    ensures r.Err? <==> DecodeFirmware(input).Err?
    ensures r.Err? ==> r.error == DecodeFirmware(input).error
    ensures r.Ok? ==> DecodeFirmware(input).Ok? && ElfBuilt(DecodeFirmware(input).value, r.value)
  {
    var fw := ReadFirmware(input);
    if fw.Err? {
      return Err(fw.error);
    }
    DecodeFirmwareOk(input);
    var elf := BuildElf(fw.value);
    return Ok(elf);
  }
}
