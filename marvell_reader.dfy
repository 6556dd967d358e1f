/**
 * src/marvel-88mw30x-firmware.c: the fresh firmware value and the container
 * reader. The input file is a byte sequence; a read that comes back short (an
 * `assert` or `errx` in the source, both fatal) is an error result.
 */
module MarvellReader {
  import opened Bytes
  import opened MarvellFormat

  /** "MRVL" */
  const Magic1: Tag := [0x4D, 0x52, 0x56, 0x4C]
  const Magic2: uint32 := 0x2E9C_F17B
  const SegmentMagic: uint32 := 2

  datatype ReadError =
    | ShortHeader         // fewer than 20 bytes: the header `fread` fails its assert
    | BadMagic1           // "magic1 does not match"
    | BadMagic2           // "magic2 does not match"
    | ShortSegmentTable   // "could not read %d segment headers"
    | BadSegmentType      // "segment_header[0] unexpected"
    | SegmentUnreadable   // the data `fread` of some segment fails its assert

  /** `new_mrvl_firmware`: the two magics, every other header field zero, no segments. */
  function NewFirmware(): (fw: MarvellFirmware)
    ensures fw.header.mrvl == Magic1 && fw.header.unknown1 == Magic2
    ensures fw.header.ctime == 0 && fw.header.numSegments == 0 && fw.header.elfVersion == 0
    ensures fw.seghdrs == [] && fw.segments == []
    ensures Consistent(fw)
  {
    MarvellFirmware(MarvellHeader(Magic1, Magic2, 0, 0, 0), [], [])
  }

  /** `read_marvel_header`: read 20 bytes, then check the tag, then the second magic. */
  function ReadMarvelHeader(input: seq<uint8>): (r: Result<MarvellHeader, ReadError>)
    ensures r == Err(ShortHeader) <==> |input| < HeaderSize
    ensures |input| >= HeaderSize ==> (r == Err(BadMagic1) <==> input[..4] != Magic1)
    ensures r.Ok? <==> |input| >= HeaderSize && input[..4] == Magic1 && input[4..8] == EncodeU32(Magic2)
    ensures r.Ok? ==> EncodeHeader(r.value) == input[..HeaderSize]
  {
    if |input| < HeaderSize then Err(ShortHeader)
    else
      var h := DecodeHeader(input[..HeaderSize]);
      EncodeDecodeHeader(input[..HeaderSize]);
      DecodeEncodeU32(Magic2);
      if h.mrvl != Magic1 then Err(BadMagic1)
      else if h.unknown1 != Magic2 then Err(BadMagic2)
      else Ok(h)
  }

  /** The `fseek` + `fread(buf, size, 1, f)` of one segment returns 1. */
  predicate Readable(sh: MarvellSegmentHeader, input: seq<uint8>) {
    // fread with a zero element size returns 0, so an empty segment fails too
    0 < sh.size && sh.offset + sh.size <= |input|
  }

  function SegmentData(sh: MarvellSegmentHeader, input: seq<uint8>): (data: seq<uint8>)
    requires Readable(sh, input)
  {
    input[sh.offset..sh.offset + sh.size]
  }

  /** Every record carries the segment magic. */
  predicate AllTyped(hs: seq<MarvellSegmentHeader>) {
    forall i :: 0 <= i < |hs| ==> hs[i].segmentType == SegmentMagic
  }

  /** Every record's data can be read. */
  predicate AllReadable(hs: seq<MarvellSegmentHeader>, input: seq<uint8>) {
    forall i :: 0 <= i < |hs| ==> Readable(hs[i], input)
  }

  /** The data of every record, in table order. */
  function LoadAll(hs: seq<MarvellSegmentHeader>, input: seq<uint8>): (segs: seq<seq<uint8>>)
    requires AllReadable(hs, input)
    ensures |segs| == |hs| && forall i :: 0 <= i < |hs| ==> segs[i] == SegmentData(hs[i], input)
  {
    seq(|hs|, i requires 0 <= i < |hs| => SegmentData(hs[i], input))
  }

  /**
   * What `read_marvel_firmware` yields for a file holding `input`: the header
   * checks, then the segment-header table, then every type tag, and only then
   * the segment data.
   */
  function DecodeFirmware(input: seq<uint8>): (r: Result<MarvellFirmware, ReadError>) {
    match ReadMarvelHeader(input)
    case Err(e) => Err(e)
    case Ok(h) =>
      var n: nat := h.numSegments;
      if |input| < HeaderSize + 20 * n then Err(ShortSegmentTable)
      else
        var hs := DecodeTable(input[HeaderSize..HeaderSize + 20 * n], n);
        if !AllTyped(hs) then Err(BadSegmentType)
        else if !AllReadable(hs, input) then Err(SegmentUnreadable)
        else Ok(MarvellFirmware(h, hs, LoadAll(hs, input)))
  }

  /** The type-check loop: every record carries the segment magic. */
  method CheckSegmentTypes(seghdrs: seq<MarvellSegmentHeader>) returns (ok: bool)
    ensures ok <==> forall j :: 0 <= j < |seghdrs| ==> seghdrs[j].segmentType == SegmentMagic
  {
    var i := 0;
    while i < |seghdrs|
      invariant 0 <= i <= |seghdrs|
      invariant forall j :: 0 <= j < i ==> seghdrs[j].segmentType == SegmentMagic
    {
      if seghdrs[i].segmentType != SegmentMagic {
        return false;
      }
      i := i + 1;
    }
    return true;
  }

  /** The data loop: seek to each segment's offset and read `size` bytes into its buffer. */
  method LoadSegments(seghdrs: seq<MarvellSegmentHeader>, input: seq<uint8>) returns (r: Option<seq<seq<uint8>>>)
    ensures r.Some? <==> forall j :: 0 <= j < |seghdrs| ==> Readable(seghdrs[j], input)
    ensures r.Some? ==> |r.value| == |seghdrs|
    ensures r.Some? ==> forall j :: 0 <= j < |seghdrs| ==> r.value[j] == SegmentData(seghdrs[j], input)
  {
    var segments := new seq<uint8>[|seghdrs|];
    var i := 0;
    while i < |seghdrs|
      invariant 0 <= i <= |seghdrs|
      invariant forall j :: 0 <= j < i ==> Readable(seghdrs[j], input)
      invariant forall j :: 0 <= j < i ==> segments[j] == SegmentData(seghdrs[j], input)
    {
      var sh := seghdrs[i];
      if !Readable(sh, input) {
        return None;
      }
      segments[i] := input[sh.offset..sh.offset + sh.size];
      i := i + 1;
    }
    return Some(segments[..]);
  }

  /** `read_marvel_firmware`. */
  method ReadFirmware(input: seq<uint8>) returns (r: Result<MarvellFirmware, ReadError>)
    ensures r == DecodeFirmware(input)
  {
    var hr := ReadMarvelHeader(input);
    if hr.Err? {
      return Err(hr.error);
    }
    var h := hr.value;
    var n: nat := h.numSegments;
    // only now, after both magics passed, is anything sized by num_segments read
    if |input| - HeaderSize < 20 * n {
      return Err(ShortSegmentTable);
    }
    var seghdrs := DecodeTable(input[HeaderSize..HeaderSize + 20 * n], n);
    var typed := CheckSegmentTypes(seghdrs);
    if !typed {
      return Err(BadSegmentType);
    }
    var segments := LoadSegments(seghdrs, input);
    if segments.None? {
      return Err(SegmentUnreadable);
    }
    assert segments.value == LoadAll(seghdrs, input);
    r := Ok(MarvellFirmware(h, seghdrs, segments.value));
  }

  /**
   * The converse: a file whose header and table read back, whose records
   * all carry the segment magic and whose segments all lie inside the file
   * is accepted, with segment i the bytes record i points at.
   */
  lemma DecodeFirmwareAccepts(input: seq<uint8>, h: MarvellHeader, hs: seq<MarvellSegmentHeader>, segs: seq<seq<uint8>>)
    requires ReadMarvelHeader(input) == Ok(h)
    requires |input| >= HeaderSize + 20 * h.numSegments
    requires DecodeTable(input[HeaderSize..HeaderSize + 20 * h.numSegments], h.numSegments) == hs
    requires |segs| == |hs|
    requires forall i :: 0 <= i < |hs| ==>
      && hs[i].segmentType == SegmentMagic && Readable(hs[i], input) && SegmentData(hs[i], input) == segs[i]
    ensures DecodeFirmware(input) == Ok(MarvellFirmware(h, hs, segs))
  {
    assert LoadAll(hs, input) == segs;
  }

  /**
   * On success the header and the segment-header table are exactly the bytes
   * read, the aggregate holds `num_segments` headers and buffers, and buffer i
   * is the `size` input bytes at `offset`. Nothing else is checked: the count
   * is not range-limited and offsets need not be ordered or disjoint.
   */
  lemma DecodeFirmwareOk(input: seq<uint8>)
    requires DecodeFirmware(input).Ok?
    ensures var fw := DecodeFirmware(input).value;
      var n := fw.header.numSegments;
      && Consistent(fw)
      && |input| >= HeaderSize + 20 * n
      && EncodeHeader(fw.header) == input[..HeaderSize]
      && EncodeTable(fw.seghdrs) == input[HeaderSize..HeaderSize + 20 * n]
      && (forall i :: 0 <= i < n ==> fw.seghdrs[i].segmentType == SegmentMagic)
      && (forall i :: 0 <= i < n ==>
            && fw.seghdrs[i].offset + fw.seghdrs[i].size <= |input|
            && fw.segments[i] == input[fw.seghdrs[i].offset..fw.seghdrs[i].offset + fw.seghdrs[i].size])
  {
    var h := ReadMarvelHeader(input).value;
    var n: nat := h.numSegments;
    EncodeDecodeTable(input[HeaderSize..HeaderSize + 20 * n], n);
  }

  /**
   * Both magics are checked on the first eight bytes alone: a file failing
   * either check is rejected the same way whatever its segment count and
   * whatever follows, so no work sized by `num_segments` happens first.
   */
  lemma MagicCheckedFirst(a: seq<uint8>, b: seq<uint8>)
    requires |a| >= HeaderSize && |b| >= HeaderSize && a[..8] == b[..8]
    requires a[..4] != Magic1 || a[4..8] != EncodeU32(Magic2)
    ensures DecodeFirmware(a) == DecodeFirmware(b)
    ensures DecodeFirmware(a) == Err(if a[..4] != Magic1 then BadMagic1 else BadMagic2)
  {
    assert a[..4] == a[..8][..4] && b[..4] == b[..8][..4];
    assert a[4..8] == a[..8][4..] && b[4..8] == b[..8][4..];
  }

  /**
   * Past the header checks, the file is rejected as short exactly when fewer
   * than `num_segments` 20-byte records follow the header.
   */
  lemma ShortTableRejected(input: seq<uint8>)
    requires ReadMarvelHeader(input).Ok?
    ensures DecodeFirmware(input) == Err(ShortSegmentTable)
      <==> |input| < HeaderSize + 20 * ReadMarvelHeader(input).value.numSegments
  {
  }

  /**
   * Every type tag is checked before any segment data is read: one bad tag
   * rejects the file even when some segment's data could not be read.
   */
  lemma TypesCheckedBeforeData(input: seq<uint8>, k: nat)
    requires ReadMarvelHeader(input).Ok?
    requires var n := ReadMarvelHeader(input).value.numSegments;
      k < n && |input| >= HeaderSize + 20 * n
      && input[HeaderSize + 20 * k..HeaderSize + 20 * k + 4] != EncodeU32(SegmentMagic)
    ensures DecodeFirmware(input) == Err(BadSegmentType)
  {
    var n: nat := ReadMarvelHeader(input).value.numSegments;
    var hs := DecodeTable(input[HeaderSize..HeaderSize + 20 * n], n);
    TableTypeField(input, n, k);
    assert hs[k].segmentType != SegmentMagic;
  }

  /** The type tag of record k is the four bytes at 20 + 20k. */
  lemma TableTypeField(input: seq<uint8>, n: nat, k: nat)
    requires k < n && |input| >= HeaderSize + 20 * n
    ensures var hs := DecodeTable(input[HeaderSize..HeaderSize + 20 * n], n);
      EncodeU32(hs[k].segmentType) == input[HeaderSize + 20 * k..HeaderSize + 20 * k + 4]
  {
    var table := input[HeaderSize..HeaderSize + 20 * n];
    var field := input[HeaderSize + 20 * k..HeaderSize + 20 * k + 4];
    assert 20 * k + 20 <= 20 * n;
    forall j | 0 <= j < 4 ensures table[20 * k..20 * (k + 1)][0..4][j] == field[j] {
      assert table[20 * k + j] == input[HeaderSize + 20 * k + j];
    }
    assert table[20 * k..20 * (k + 1)][0..4] == field;
    EncodeDecodeU32(field);
  }
}
