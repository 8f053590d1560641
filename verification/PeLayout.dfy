/** The section table and section data of a PE file rebuilt from a blob, and the
    two address lookups: through the blob and through the rebuilt file. */
module PeLayout {
  import opened Integers
  import opened Alignment

  const FILE_ALIGNMENT := 4096
  const SIZE_OF_HEADERS := 4096
  const MAX_SECTIONS := 0x1_0000

  datatype BlobSection = BlobSection(va: u32, vsize: u32, dataSize: u32, dataAddress: u32)
  datatype PeSection = PeSection(va: u32, vsize: u32, rawSize: u32, rawPointer: u32, flags: bv32)

  /** The size fields of the optional header. */
  datatype Sizes = Sizes(image: u32, code: u32, initialized: u32, uninitialized: u32)

  // ----- Section characteristics

  const CNT_CODE: bv32 := 0x20
  const CNT_INITIALIZED: bv32 := 0x40
  const CNT_UNINITIALIZED: bv32 := 0x80
  const MEM_DISCARDABLE: bv32 := 0x0200_0000
  const MEM_EXECUTE: bv32 := 0x2000_0000
  const MEM_READ: bv32 := 0x4000_0000
  const MEM_WRITE: bv32 := 0x8000_0000

  /** The first four sections are .text, .rdata, .data and .rsrc. */
  function Flags(i: nat): bv32 {
    if i == 0 then CNT_CODE | MEM_EXECUTE | MEM_READ
    else if i == 1 then CNT_INITIALIZED | MEM_READ
    else if i == 2 then CNT_INITIALIZED | MEM_READ | MEM_WRITE
    else if i == 3 then CNT_INITIALIZED | MEM_READ | MEM_DISCARDABLE
    else MEM_READ | CNT_INITIALIZED | MEM_WRITE
  }

  /** The characteristics as the PE format writes them. */
  lemma FlagsOfSections(i: nat)
    ensures Flags(i) == if i == 0 then 0x6000_0020 else if i == 1 then 0x4000_0040
                        else if i == 3 then 0x4200_0040 else 0xC000_0040
  {}

  lemma EachSectionHasOneKind(i: nat)
    ensures Flags(i) & CNT_UNINITIALIZED == 0
    ensures Flags(i) & CNT_CODE != 0 <==> i == 0
    ensures Flags(i) & CNT_INITIALIZED != 0 <==> i != 0
  {}

  // ----- What the table says

  function Wrap(n: int): u32 { n % 0x1_0000_0000 }

  /** What ALIGN_AS computes for the alignment used here. */
  function Align(num: u32): u32 {
    if num + 4095 >= 0x1_0000_0000 then 0
    else if num % 4096 == 0 then num
    else num + (4096 - num % 4096)
  }

  method AlignSize(num: u32) returns (size: u32)
    ensures size == Align(num)
  {
    assert Pow2(12) == 4096 by { assert Pow2(6) == 64; }
    AlignAsRoundsUp(num, 4096, 12);
    size := AlignAs(num, 4096);
  }

  /** Where the data of section i starts, before wrapping: the headers and the
      aligned data of the sections before it. */
  function RawOffset(sections: seq<BlobSection>, i: nat): nat
    requires i <= |sections|
  {
    if i == 0 then SIZE_OF_HEADERS
    else RawOffset(sections, i - 1) + Align(sections[i - 1].dataSize)
  }

  /** The aligned virtual sizes of the first n sections that have a flag. */
  function VirtualTotal(sections: seq<BlobSection>, n: nat, flag: bv32): nat
    requires n <= |sections|
  {
    if n == 0 then 0
    else
      VirtualTotal(sections, n - 1, flag)
      + if Flags(n - 1) & flag != 0 then Align(sections[n - 1].vsize) else 0
  }

  ghost predicate IsEntry(e: PeSection, sections: seq<BlobSection>, i: nat, base: u32)
    requires i < |sections|
  {
    && e.va == Wrap(sections[i].va - base)
    && e.vsize == sections[i].vsize
    && e.rawSize == Align(sections[i].dataSize)
    && e.rawPointer == Wrap(RawOffset(sections, i))
    && e.flags == Flags(i)
  }

  ghost predicate IsTable(table: seq<PeSection>, sections: seq<BlobSection>, base: u32) {
    && |table| == |sections|
    && forall i :: 0 <= i < |table| ==> IsEntry(table[i], sections, i, base)
  }

  function TableOf(sections: seq<BlobSection>, base: u32): (table: seq<PeSection>)
    ensures IsTable(table, sections, base)
  {
    seq(|sections|, i requires 0 <= i < |sections| =>
      var sec := sections[i];
      PeSection(Wrap(sec.va - base), sec.vsize, Align(sec.dataSize), Wrap(RawOffset(sections, i)), Flags(i)))
  }

  lemma WrapSum(a: int, b: int)
    ensures Wrap(Wrap(a) + b) == Wrap(a + b)
  {}

  lemma WrapSums(a: int, b: int, c: int)
    ensures Wrap(Wrap(a + b) + c) == Wrap(Wrap(a + c) + b)
    ensures Wrap(Wrap(a + b) + c) == Wrap(a + Wrap(b + c))
  {
    WrapSum(a + b, c);
    WrapSum(a + c, b);
    WrapSum(b + c, a);
  }

  /** The totals over the first n sections, before the headers are added. */
  ghost predicate Accumulated(sizes: Sizes, sections: seq<BlobSection>, n: nat)
    requires n <= |sections|
  {
    && sizes.code == Wrap(VirtualTotal(sections, n, CNT_CODE))
    && sizes.initialized == Wrap(VirtualTotal(sections, n, CNT_INITIALIZED))
    && sizes.uninitialized == 0
    && sizes.image == Wrap(sizes.code + sizes.initialized)
  }

  /** The aligned virtual sizes of the sections from the i-th up to the n-th. */
  function SumOfSizes(sections: seq<BlobSection>, i: nat, n: nat): nat
    requires i <= n <= |sections|
    decreases n - i
  {
    if i == n then 0 else Align(sections[i].vsize) + SumOfSizes(sections, i + 1, n)
  }

  lemma {:induction false} SumSnoc(sections: seq<BlobSection>, i: nat, n: nat)
    requires i <= n < |sections|
    ensures SumOfSizes(sections, i, n + 1) == SumOfSizes(sections, i, n) + Align(sections[n].vsize)
    decreases n - i
  {
    if i < n { SumSnoc(sections, i + 1, n); }
  }

  /** The first section is all the code there is, and the others are the initialised data. */
  lemma {:induction false} TotalsAreSums(sections: seq<BlobSection>, n: nat)
    requires n <= |sections|
    ensures VirtualTotal(sections, n, CNT_CODE) == if n == 0 then 0 else Align(sections[0].vsize)
    ensures VirtualTotal(sections, n, CNT_INITIALIZED) == if n == 0 then 0 else SumOfSizes(sections, 1, n)
  {
    if n > 0 {
      TotalsAreSums(sections, n - 1);
      EachSectionHasOneKind(n - 1);
      if n > 1 { SumSnoc(sections, 1, n - 1); }
    }
  }

  /** The sizes in the optional header: of the code that of the first section, of the
      initialised data that of the others, and of the image the headers and all sections. */
  ghost predicate SizesAreSums(sizes: Sizes, sections: seq<BlobSection>) {
    && sizes.code == Wrap(if sections == [] then 0 else Align(sections[0].vsize))
    && sizes.initialized == Wrap(if sections == [] then 0 else SumOfSizes(sections, 1, |sections|))
    && sizes.uninitialized == 0
    && sizes.image == Wrap(4096 + SumOfSizes(sections, 0, |sections|))
  }

  lemma BuiltSizesAreSums(sizes: Sizes, sections: seq<BlobSection>)
    requires sizes.code == Wrap(VirtualTotal(sections, |sections|, CNT_CODE))
    requires sizes.initialized == Wrap(VirtualTotal(sections, |sections|, CNT_INITIALIZED))
    requires sizes.uninitialized == 0
    requires sizes.image == Wrap(SIZE_OF_HEADERS + sizes.code + sizes.initialized + sizes.uninitialized)
    ensures SizesAreSums(sizes, sections)
  {
    TotalsAreSums(sections, |sections|);
    var (c, d) := (VirtualTotal(sections, |sections|, CNT_CODE), VirtualTotal(sections, |sections|, CNT_INITIALIZED));
    WrapSum(c, SIZE_OF_HEADERS + sizes.initialized);
    WrapSum(d, SIZE_OF_HEADERS + c);
  }

  /** Adds a section's aligned virtual size to the totals its flags select. */
  method AddSection(before: Sizes, ghost sections: seq<BlobSection>, i: nat, size: u32) returns (sizes: Sizes)
    requires i < |sections| && Accumulated(before, sections, i) && size == Align(sections[i].vsize)
    ensures Accumulated(sizes, sections, i + 1)
  {
    hide Wrap, Align, Flags;
    var flag := Flags(i);
    EachSectionHasOneKind(i);
    WrapSums(before.code, before.initialized, size);
    WrapSum(VirtualTotal(sections, i, CNT_CODE), size);
    WrapSum(VirtualTotal(sections, i, CNT_INITIALIZED), size);
    sizes := before.(image := Wrap(before.image + size));
    if flag & CNT_CODE != 0 {
      sizes := sizes.(code := Wrap(sizes.code + size));
    }
    if flag & CNT_INITIALIZED != 0 {
      sizes := sizes.(initialized := Wrap(sizes.initialized + size));
    }
    if flag & CNT_UNINITIALIZED != 0 {
      sizes := sizes.(uninitialized := Wrap(sizes.uninitialized + size));
    }
  }

  /** Builds the section table; the optional header's size fields accumulate. The
      size of the image is the headers plus the sections of the three kinds. */
  method BuildSectionTable(sections: seq<BlobSection>, base: u32)
    returns (table: seq<PeSection>, sizes: Sizes)
    requires |sections| < MAX_SECTIONS
    ensures IsTable(table, sections, base) && SizesAreSums(sizes, sections)
    ensures sizes.image == Wrap(SIZE_OF_HEADERS + sizes.code + sizes.initialized + sizes.uninitialized)
  {
    table := [];
    sizes := Sizes(0, 0, 0, 0);
    var fileOffset := SIZE_OF_HEADERS;
    for i := 0 to |sections|
      invariant |table| == i && forall j :: 0 <= j < i ==> IsEntry(table[j], sections, j, base)
      invariant fileOffset == Wrap(RawOffset(sections, i))
      invariant Accumulated(sizes, sections, i)
    {
      var sec := sections[i];
      var flag := Flags(i);
      var size := AlignSize(sec.vsize);
      sizes := AddSection(sizes, sections, i, size);
      var rawSize := AlignSize(sec.dataSize);
      EachSectionHasOneKind(i);
      var rawPointer := if flag & CNT_UNINITIALIZED != 0 then 0 else fileOffset;
      table := table + [PeSection(Wrap(sec.va - base), sec.vsize, rawSize, rawPointer, flag)];
      WrapSum(RawOffset(sections, i), rawSize);
      fileOffset := Wrap(fileOffset + rawSize);
    }
    WrapSum(sizes.code + sizes.initialized, SIZE_OF_HEADERS);
    sizes := sizes.(image := Wrap(sizes.image + SIZE_OF_HEADERS));
    BuiltSizesAreSums(sizes, sections);
  }

  // ----- The section data

  function Zeros<T>(n: nat, zero: T): (r: seq<T>)
    ensures |r| == n
  {
    seq(n, _ => zero)
  }

  /** The data lies inside the buffer. */
  predicate DataInside(sec: BlobSection, length: nat) {
    sec.dataAddress + sec.dataSize <= length
  }

  /** The section's data padded to a whole number of alignment units. */
  function Padded<T>(buffer: seq<T>, sec: BlobSection, align: nat, zero: T): (r: seq<T>)
    requires align > 0 && DataInside(sec, |buffer|)
    ensures |r| == RoundUp(sec.dataSize, align)
  {
    buffer[sec.dataAddress..sec.dataAddress + sec.dataSize]
      + Zeros(RoundUp(sec.dataSize, align) - sec.dataSize, zero)
  }

  function Body<T>(buffer: seq<T>, sections: seq<BlobSection>, n: nat, align: nat, zero: T): seq<T>
    requires align > 0 && n <= |sections|
    requires forall i :: 0 <= i < n ==> DataInside(sections[i], |buffer|)
  {
    if n == 0 then []
    else Body(buffer, sections, n - 1, align, zero) + Padded(buffer, sections[n - 1], align, zero)
  }

  /** Appends the data of every section to the stream. */
  method WriteSectionData<T>(
      buffer: array<T>, sections: seq<BlobSection>, align: nat, zero: T, stream: seq<T>)
    returns (out: seq<T>)
    requires 0 < align < 0x1_0000_0000 && |sections| < MAX_SECTIONS
    requires forall i :: 0 <= i < |sections| ==> DataInside(sections[i], buffer.Length)
    ensures out == stream + Body(buffer[..], sections, |sections|, align, zero)
  {
    out := stream;
    for i := 0 to |sections|
      invariant out == stream + Body(buffer[..], sections, i, align, zero)
    {
      var sec := sections[i];
      out := out + buffer[sec.dataAddress..sec.dataAddress + sec.dataSize];
      var mod := align - sec.dataSize % align;
      if mod != align {
        out := out + Zeros(mod, zero);
      }
      assert buffer[..][sec.dataAddress..sec.dataAddress + sec.dataSize]
          == buffer[sec.dataAddress..sec.dataAddress + sec.dataSize];
    }
  }

  // ----- Layout agreement

  /** The sizes and offsets of the file fit 32 bits. */
  ghost predicate FileFits(sections: seq<BlobSection>) {
    && RawOffset(sections, |sections|) < 0x1_0000_0000
    && forall i :: 0 <= i < |sections| ==> sections[i].dataSize + 4095 < 0x1_0000_0000
  }

  lemma {:induction false} RawOffsetsGrow(sections: seq<BlobSection>, i: nat, j: nat)
    requires i < j <= |sections|
    ensures RawOffset(sections, i) + Align(sections[i].dataSize) <= RawOffset(sections, j)
  {
    if i + 1 < j { RawOffsetsGrow(sections, i, j - 1); }
  }

  lemma AlignIsMultiple(num: u32)
    ensures Align(num) % 4096 == 0
  {}

  lemma AlignedSum(a: nat, b: nat)
    requires a % 4096 == 0 && b % 4096 == 0
    ensures (a + b) % 4096 == 0
  {}

  lemma {:induction false} RawOffsetsAligned(sections: seq<BlobSection>, i: nat)
    requires i <= |sections|
    ensures SIZE_OF_HEADERS <= RawOffset(sections, i) && RawOffset(sections, i) % FILE_ALIGNMENT == 0
  {
    if i > 0 {
      RawOffsetsAligned(sections, i - 1);
      AlignIsMultiple(sections[i - 1].dataSize);
      AlignedSum(RawOffset(sections, i - 1), Align(sections[i - 1].dataSize));
    }
  }

  /** The raw ranges of the table are aligned, lie after the headers, follow each
      other without gaps and so are disjoint. */
  lemma RawRangesAreContiguous(sections: seq<BlobSection>, table: seq<PeSection>, base: u32, i: nat, j: nat)
    requires IsTable(table, sections, base) && FileFits(sections) && i < j < |table|
    ensures table[0].rawPointer == SIZE_OF_HEADERS
    ensures table[i].rawPointer % FILE_ALIGNMENT == 0 && table[i].rawSize % FILE_ALIGNMENT == 0
    ensures table[i].rawPointer + table[i].rawSize <= table[j].rawPointer
    ensures j == i + 1 ==> table[i].rawPointer + table[i].rawSize == table[j].rawPointer
  {
    RawOffsetsGrow(sections, i, j);
    RawOffsetsGrow(sections, j, |sections|);
    RawOffsetsAligned(sections, i);
  }

  lemma AlignIsExactlyRoundUp(size: u32)
    ensures Align(size) == RoundUp(size, FILE_ALIGNMENT) <==> size + 4095 < 0x1_0000_0000
  {}

  lemma {:induction false} OffsetsOfWriter<T>(buffer: seq<T>, sections: seq<BlobSection>, n: nat, zero: T)
    requires n <= |sections| && forall i :: 0 <= i < |sections| ==> DataInside(sections[i], |buffer|)
    requires forall i :: 0 <= i < |sections| ==> sections[i].dataSize + 4095 < 0x1_0000_0000
    ensures SIZE_OF_HEADERS + |Body(buffer, sections, n, FILE_ALIGNMENT, zero)| == RawOffset(sections, n)
  {
    if n > 0 {
      OffsetsOfWriter(buffer, sections, n - 1, zero);
      AlignIsExactlyRoundUp(sections[n - 1].dataSize);
    }
  }

  lemma {:induction false} BodyAt<T>(
      buffer: seq<T>, sections: seq<BlobSection>, n: nat, zero: T, i: nat, k: nat)
    requires i < n <= |sections| && FileFits(sections)
    requires forall i :: 0 <= i < |sections| ==> DataInside(sections[i], |buffer|)
    requires k < |Padded(buffer, sections[i], FILE_ALIGNMENT, zero)|
    ensures var at := RawOffset(sections, i) - SIZE_OF_HEADERS + k;
            var body := Body(buffer, sections, n, FILE_ALIGNMENT, zero);
            0 <= at < |body| && body[at] == Padded(buffer, sections[i], FILE_ALIGNMENT, zero)[k]
  {
    var head := Body(buffer, sections, n - 1, FILE_ALIGNMENT, zero);
    var tail := Padded(buffer, sections[n - 1], FILE_ALIGNMENT, zero);
    OffsetsOfWriter(buffer, sections, n - 1, zero);
    if i < n - 1 {
      BodyAt(buffer, sections, n - 1, zero, i, k);
    } else {
      assert (head + tail)[|head| + k] == tail[k];
    }
  }

  lemma WrapExactly(n: nat)
    ensures Wrap(n) == n <==> n < 0x1_0000_0000
  {}

  lemma RawRange(sections: seq<BlobSection>, table: seq<PeSection>, base: u32, i: nat)
    requires IsTable(table, sections, base) && FileFits(sections) && i < |sections|
    ensures table[i].rawPointer == RawOffset(sections, i) && SIZE_OF_HEADERS <= table[i].rawPointer
    ensures table[i].rawSize == RoundUp(sections[i].dataSize, FILE_ALIGNMENT) >= sections[i].dataSize
    ensures table[i].rawPointer + table[i].rawSize <= RawOffset(sections, |sections|)
  {
    assert IsEntry(table[i], sections, i, base);
    RawOffsetsGrow(sections, i, |sections|);
    RawOffsetsAligned(sections, i);
    WrapExactly(RawOffset(sections, i));
  }

  /** The table says where the writer puts every section and how much it writes. */
  ghost predicate LayoutAgrees<T>(buffer: seq<T>, sections: seq<BlobSection>, table: seq<PeSection>, zero: T)
    requires |table| == |sections| && forall i :: 0 <= i < |sections| ==> DataInside(sections[i], |buffer|)
  {
    forall i :: 0 <= i < |sections| ==>
      && table[i].rawPointer == SIZE_OF_HEADERS + |Body(buffer, sections, i, FILE_ALIGNMENT, zero)|
      && table[i].rawSize == |Padded(buffer, sections[i], FILE_ALIGNMENT, zero)|
  }

  /** It does exactly if no section's size and no section's place in the file leaves 32 bits. */
  lemma LayoutAgreesExactlyWhen<T>(
      buffer: seq<T>, sections: seq<BlobSection>, table: seq<PeSection>, base: u32, zero: T)
    requires IsTable(table, sections, base)
    requires forall i :: 0 <= i < |sections| ==> DataInside(sections[i], |buffer|)
    ensures LayoutAgrees(buffer, sections, table, zero) <==> forall i :: 0 <= i < |sections| ==>
      && sections[i].dataSize + 4095 < 0x1_0000_0000
      && SIZE_OF_HEADERS + |Body(buffer, sections, i, FILE_ALIGNMENT, zero)| < 0x1_0000_0000
  {
    hide Align, RoundUp, Body, Padded, RawOffset, Wrap;
    forall i | 0 <= i < |sections|
      ensures table[i].rawSize == |Padded(buffer, sections[i], FILE_ALIGNMENT, zero)|
         <==> sections[i].dataSize + 4095 < 0x1_0000_0000
      ensures table[i].rawPointer == Wrap(RawOffset(sections, i))
    {
      assert IsEntry(table[i], sections, i, base);
      AlignIsExactlyRoundUp(sections[i].dataSize);
    }
    if forall i :: 0 <= i < |sections| ==> sections[i].dataSize + 4095 < 0x1_0000_0000 {
      forall i | 0 <= i < |sections|
        ensures SIZE_OF_HEADERS + |Body(buffer, sections, i, FILE_ALIGNMENT, zero)| == RawOffset(sections, i)
      {
        OffsetsOfWriter(buffer, sections, i, zero);
      }
      forall i | 0 <= i < |sections|
        ensures Wrap(RawOffset(sections, i)) == RawOffset(sections, i) <==> RawOffset(sections, i) < 0x1_0000_0000
      {
        WrapExactly(RawOffset(sections, i));
      }
    }
  }

  ghost predicate Holds<T>(file: seq<T>, at: nat, content: seq<T>) {
    at + |content| <= |file| && file[at..at + |content|] == content
  }

  lemma HeldByte<T>(file: seq<T>, at: nat, content: seq<T>, k: nat)
    requires Holds(file, at, content) && k < |content|
    ensures file[at + k] == content[k]
  {
    assert file[at..at + |content|][k] == file[at + k];
  }

  lemma HoldsBytes<T>(file: seq<T>, at: nat, content: seq<T>)
    requires at + |content| <= |file|
    requires forall k {:trigger content[k]} :: 0 <= k < |content| ==> file[at + k] == content[k]
    ensures Holds(file, at, content)
  {}

  /** The table's raw range of a section holds, in the file made of the headers and
      the written data, that section's bytes and then zeros. */
  lemma DataIsWhereTheTableSays<T>(
      header: seq<T>, buffer: seq<T>, sections: seq<BlobSection>, table: seq<PeSection>, base: u32,
      zero: T, i: nat)
    requires |header| == SIZE_OF_HEADERS && IsTable(table, sections, base) && FileFits(sections)
    requires forall i :: 0 <= i < |sections| ==> DataInside(sections[i], |buffer|)
    requires i < |table|
    ensures var file := header + Body(buffer, sections, |sections|, FILE_ALIGNMENT, zero);
            var padded := Padded(buffer, sections[i], FILE_ALIGNMENT, zero);
            |padded| == table[i].rawSize && Holds(file, table[i].rawPointer, padded)
  {
    var body := Body(buffer, sections, |sections|, FILE_ALIGNMENT, zero);
    var padded := Padded(buffer, sections[i], FILE_ALIGNMENT, zero);
    OffsetsOfWriter(buffer, sections, |sections|, zero);
    RawRange(sections, table, base, i);
    forall k {:trigger padded[k]} | 0 <= k < |padded|
      ensures (header + body)[table[i].rawPointer + k] == padded[k]
    {
      BodyAt(buffer, sections, |sections|, zero, i, k);
    }
    HoldsBytes(header + body, table[i].rawPointer, padded);
  }

  /** Byte for byte: a raw range begins with the section's data and goes on with zeros. */
  lemma DataThenZeros<T>(
      header: seq<T>, buffer: seq<T>, sections: seq<BlobSection>, table: seq<PeSection>, base: u32,
      zero: T, i: nat, k: nat)
    requires |header| == 4096 && IsTable(table, sections, base) && FileFits(sections)
    requires forall i :: 0 <= i < |sections| ==> DataInside(sections[i], |buffer|)
    requires i < |table| && k < table[i].rawSize
    ensures var file := header + Body(buffer, sections, |sections|, 4096, zero);
      && table[i].rawPointer + k < |file|
      && file[table[i].rawPointer + k]
      == if k < sections[i].dataSize then buffer[sections[i].dataAddress + k] else zero
  {
    DataIsWhereTheTableSays(header, buffer, sections, table, base, zero, i);
    HeldByte(header + Body(buffer, sections, |sections|, 4096, zero), table[i].rawPointer,
             Padded(buffer, sections[i], 4096, zero), k);
  }
}
