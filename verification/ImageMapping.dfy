/** Laying a PE file out as the image the loader would make: the headers at the
    start, each section's raw data at its address. */
module ImageMapping {
  import opened Integers
  import opened Alignment
  import opened PeLayout
  import opened AddressLookup

  /** Copying needs room: the ranges read lie in the file, those written in the image. */
  predicate Mappable(table: seq<PeSection>, headers: nat, fileSize: nat, imageSize: nat) {
    && headers <= fileSize && headers <= imageSize
    && forall i :: 0 <= i < |table| && table[i].rawSize != 0 ==>
         && table[i].va + table[i].rawSize <= imageSize
         && table[i].rawPointer + table[i].rawSize <= fileSize
  }

  /** The raw data of a section is copied over an address. */
  predicate Covers(sec: PeSection, rva: nat) {
    sec.va <= rva < sec.va + sec.rawSize
  }

  datatype Origin = InFile(offset: nat) | Untouched

  /** Where an image byte comes from after the first n sections were copied: from the
      last of them that covers it, else from the headers, else it is as it was. */
  function OriginOf(table: seq<PeSection>, n: nat, headers: nat, rva: nat): Origin
    requires n <= |table|
  {
    if n == 0 then
      if rva < headers then InFile(rva) else Untouched
    else if Covers(table[n - 1], rva) then
      InFile(table[n - 1].rawPointer + (rva - table[n - 1].va))
    else OriginOf(table, n - 1, headers, rva)
  }

  lemma {:induction false} OriginInFile(
      table: seq<PeSection>, n: nat, headers: nat, rva: nat, fileSize: nat, imageSize: nat)
    requires n <= |table| && Mappable(table, headers, fileSize, imageSize) && rva < imageSize
    ensures OriginOf(table, n, headers, rva).InFile? ==> OriginOf(table, n, headers, rva).offset < fileSize
  {
    if n > 0 { OriginInFile(table, n - 1, headers, rva, fileSize, imageSize); }
  }

  ghost predicate ByteFrom<T>(byte: T, before: T, file: seq<T>, origin: Origin) {
    match origin
    case InFile(offset) => offset < |file| && byte == file[offset]
    case Untouched => byte == before
  }

  ghost predicate IsMapped<T>(
      image: seq<T>, before: seq<T>, file: seq<T>, table: seq<PeSection>, n: nat, headers: nat)
    requires n <= |table|
  {
    && |image| == |before|
    && forall r :: 0 <= r < |image| ==> ByteFrom(image[r], before[r], file, OriginOf(table, n, headers, r))
  }

  /** memcpy between two buffers. */
  method Copy<T>(to: array<T>, at: nat, file: seq<T>, from: nat, n: nat)
    requires at + n <= to.Length && from + n <= |file|
    modifies to
    ensures forall r :: 0 <= r < to.Length ==>
              to[r] == if at <= r < at + n then file[from + (r - at)] else old(to[r])
  {
    for k := 0 to n
      invariant forall r :: 0 <= r < to.Length ==>
                  to[r] == if at <= r < at + k then file[from + (r - at)] else old(to[r])
    {
      to[at + k] := file[from + k];
    }
  }

  method CopyImageData<T>(image: array<T>, file: seq<T>, headers: nat, table: seq<PeSection>)
    requires Mappable(table, headers, |file|, image.Length)
    modifies image
    ensures IsMapped(image[..], old(image[..]), file, table, |table|, headers)
  {
    ghost var before := image[..];
    Copy(image, 0, file, 0, headers);
    for i := 0 to |table|
      invariant IsMapped(image[..], before, file, table, i, headers)
    {
      var section := table[i];
      if section.rawSize == 0 {
        continue;
      }
      Copy(image, section.va, file, section.rawPointer, section.rawSize);
    }
  }

  // ----- The mapped image and the file

  /** An address is stored in the file: it lies in the raw data of the section the
      lookup picks. */
  predicate Stored(table: seq<PeSection>, rva: u32) {
    var i := PeIndex(table, rva);
    i < |table| && rva - table[i].va < table[i].rawSize
  }

  /** Of several sections copied over an address, the last one counts. */
  lemma {:induction false} LastCover(table: seq<PeSection>, n: nat, headers: nat, rva: nat, j: nat) returns (i: nat)
    requires j < n <= |table| && Covers(table[j], rva)
    ensures j <= i < n && Covers(table[i], rva) && forall k :: i < k < n ==> !Covers(table[k], rva)
    ensures OriginOf(table, n, headers, rva) == InFile(table[i].rawPointer + (rva - table[i].va))
  {
    i := n - 1;
    if !Covers(table[i], rva) { i := LastCover(table, n - 1, headers, rva, j); }
  }

  /** For a stored address that no later section is copied over, the image holds the
      byte the file lookup finds. */
  lemma MappedImageReadsAsFile<T>(
      image: seq<T>, before: seq<T>, file: seq<T>, table: seq<PeSection>, headers: nat, rva: u32)
    requires |file| <= 0x1_0000_0000 && rva < |image|
    requires Mappable(table, headers, |file|, |image|)
    requires IsMapped(image, before, file, table, |table|, headers)
    requires Stored(table, rva)
    requires forall j :: PeIndex(table, rva) < j < |table| ==> !Covers(table[j], rva)
    ensures PeOffset(table, rva) < |file| && image[rva] == file[PeOffset(table, rva)]
  {
    var i := PeIndex(table, rva);
    var last := LastCover(table, |table|, headers, rva, i);
    WrapExactly(table[i].rawPointer + (rva - table[i].va));
  }

  /** In a rebuilt file, a stored address is mapped from where the file lookup finds it
      exactly if no later section is copied over it. */
  lemma MappedFromLookupExactlyWhen(
      sections: seq<BlobSection>, table: seq<PeSection>, base: u32, headers: nat, rva: u32)
    requires IsTable(table, sections, base) && FileFits(sections) && Stored(table, rva)
    ensures OriginOf(table, |table|, headers, rva) == InFile(PeOffset(table, rva))
       <==> forall j :: PeIndex(table, rva) < j < |table| ==> !Covers(table[j], rva)
  {
    var i := PeIndex(table, rva);
    RawRange(sections, table, base, i);
    PeOffsetIs(table, rva, i);
    var k := LastCover(table, |table|, headers, rva, i);
    if i < k { RawRangesAreContiguous(sections, table, base, i, k); }
  }

  /** Of two overlapping sections the lookup finds the first and the image shows the second. */
  lemma LaterSectionCanHide(headers: nat)
    ensures var (base, rva) := (0x01D0_0000, 0x2000);
      var sections := [BlobSection(base + 0x1000, 0x2000, 0x2000, 0), BlobSection(base + 0x2000, 0x1000, 0x1000, 0)];
      var table := TableOf(sections, base);
      && FileFits(sections) && Stored(table, rva) && PeIndex(table, rva) == 0
      && OriginOf(table, 2, headers, rva) == InFile(0x3000) && PeOffset(table, rva) == 0x2000
  {
    var (base, rva) := (0x01D0_0000, 0x2000);
    var sections := [BlobSection(base + 0x1000, 0x2000, 0x2000, 0), BlobSection(base + 0x2000, 0x1000, 0x1000, 0)];
    var table := TableOf(sections, base);
    FirstIs(s => InPeSection(s, rva), table, 0);
    assert RawOffset(sections, 0) == 0x1000 && RawOffset(sections, 1) == 0x3000;
    assert RawOffset(sections, 2) == RawOffset(sections, 1) + 0x1000;
  }

  /** Bytes outside the headers and the copied ranges keep their values. */
  lemma {:induction false} MappingFrame<T>(
      image: seq<T>, before: seq<T>, file: seq<T>, table: seq<PeSection>, n: nat, headers: nat, rva: nat)
    requires n <= |table| && IsMapped(image, before, file, table, n, headers)
    requires headers <= rva < |image| && forall j :: 0 <= j < n ==> !Covers(table[j], rva)
    ensures image[rva] == before[rva]
  {
    NoCover(table, n, headers, rva);
  }

  lemma {:induction false} NoCover(table: seq<PeSection>, n: nat, headers: nat, rva: nat)
    requires n <= |table| && headers <= rva && forall j :: 0 <= j < n ==> !Covers(table[j], rva)
    ensures OriginOf(table, n, headers, rva) == Untouched
  {
    if n > 0 { NoCover(table, n - 1, headers, rva); }
  }

  /** The image begins with the headers of the file, where no section is copied over them. */
  lemma {:induction false} HeadersAreMapped<T>(
      image: seq<T>, before: seq<T>, file: seq<T>, table: seq<PeSection>, headers: nat, rva: nat)
    requires IsMapped(image, before, file, table, |table|, headers) && rva < headers && rva < |image|
    requires forall j :: 0 <= j < |table| ==> !(table[j].va <= rva < table[j].va + table[j].rawSize)
    ensures rva < |file| && image[rva] == file[rva]
  {
    UncoveredHeader(table, |table|, headers, rva);
  }

  lemma {:induction false} UncoveredHeader(table: seq<PeSection>, n: nat, headers: nat, rva: nat)
    requires n <= |table| && rva < headers && forall j :: 0 <= j < n ==> !Covers(table[j], rva)
    ensures OriginOf(table, n, headers, rva) == InFile(rva)
  {
    if n > 0 { UncoveredHeader(table, n - 1, headers, rva); }
  }

  /** An address that a section covers shows the raw data of the last section that does. */
  lemma SectionsAreMapped<T>(
      image: seq<T>, before: seq<T>, file: seq<T>, table: seq<PeSection>, headers: nat, rva: nat, i: nat)
    requires IsMapped(image, before, file, table, |table|, headers) && i < |table| && rva < |image|
    requires table[i].va <= rva < table[i].va + table[i].rawSize
    requires forall j :: i < j < |table| ==> !(table[j].va <= rva < table[j].va + table[j].rawSize)
    ensures var offset := table[i].rawPointer + (rva - table[i].va); offset < |file| && image[rva] == file[offset]
  {
    var last := LastCover(table, |table|, headers, rva, i);
  }

  /** From the blob to the mapped image: mapping the rebuilt file puts, at every
      backed address that no later section is copied over, the blob's byte. */
  lemma MappedImageReadsAsBlob<T>(
      image: seq<T>, before: seq<T>, header: seq<T>, buffer: seq<T>, sections: seq<BlobSection>,
      table: seq<PeSection>, base: u32, zero: T, rva: u32)
    requires |header| == SIZE_OF_HEADERS && |buffer| < 0x1_0000_0000
    requires IsTable(table, sections, base) && FileFits(sections) && Regular(sections, base)
    requires forall i :: 0 <= i < |sections| ==> DataInside(sections[i], |buffer|)
    requires rva + base < 0x1_0000_0000 && Backed(sections, rva + base) && rva < |image|
    requires forall i :: 0 <= i < BlobIndex(sections, rva + base) ==> !WrapsAround(sections[i], base)
    requires forall j :: BlobIndex(sections, rva + base) < j < |table| ==> !Covers(table[j], rva)
    requires var file := header + Body(buffer, sections, |sections|, FILE_ALIGNMENT, zero);
             && Mappable(table, SIZE_OF_HEADERS, |file|, |image|)
             && IsMapped(image, before, file, table, |table|, SIZE_OF_HEADERS)
    ensures BlobOffset(sections, rva + base) < |buffer|
    ensures image[rva] == buffer[BlobOffset(sections, rva + base)]
  {
    var file := header + Body(buffer, sections, |sections|, FILE_ALIGNMENT, zero);
    var i := BlobIndex(sections, rva + base);
    LookupsAgree(sections, table, base, rva);
    RawRange(sections, table, base, i);
    OffsetsOfWriter(buffer, sections, |sections|, zero);
    assert IsEntry(table[i], sections, i, base);
    WrapExactly(sections[i].va - base);
    MappedImageReadsAsFile(image, before, file, table, SIZE_OF_HEADERS, rva);
    RebuiltFileReadsAsBlob(header, buffer, sections, table, base, zero, rva);
  }
}
