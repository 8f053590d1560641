/** From an address to a file offset, twice: through the blob's sections, and
    through the section table of the rebuilt PE file. */
module AddressLookup {
  import opened Integers
  import opened Alignment
  import opened PeLayout

  /** The index of the first element that satisfies p, or |s|. */
  function First<T>(p: T -> bool, s: seq<T>): (i: nat)
    ensures i <= |s| && (i < |s| ==> p(s[i])) && forall j :: 0 <= j < i ==> !p(s[j])
  {
    if s == [] || p(s[0]) then 0 else 1 + First(p, s[1..])
  }

  lemma FirstIs<T>(p: T -> bool, s: seq<T>, i: nat)
    requires i <= |s| && (i < |s| ==> p(s[i])) && forall j :: 0 <= j < i ==> !p(s[j])
    ensures First(p, s) == i
  {}

  /** An address of the loaded blob lies in a section. */
  predicate InBlobSection(sec: BlobSection, address: u32) {
    !(sec.va > address || Wrap(sec.va + sec.vsize) <= address)
  }

  /** An address relative to the image base lies in a section. The last address of
      the section is computed with wrap-around. */
  predicate InPeSection(sec: PeSection, rva: u32) {
    rva >= sec.va && rva <= Wrap(sec.va + sec.vsize - 1)
  }

  function BlobIndex(sections: seq<BlobSection>, address: u32): nat {
    First(s => InBlobSection(s, address), sections)
  }

  function PeIndex(table: seq<PeSection>, rva: u32): nat {
    First(s => InPeSection(s, rva), table)
  }

  function BlobOffset(sections: seq<BlobSection>, address: u32): u32 {
    var i := BlobIndex(sections, address);
    if i < |sections| then Wrap(address - sections[i].va + sections[i].dataAddress) else 0
  }

  function PeOffset(table: seq<PeSection>, rva: u32): u32 {
    var i := PeIndex(table, rva);
    if i < |table| then Wrap(rva - table[i].va + table[i].rawPointer) else 0
  }

  method RvaToOffset(sections: seq<BlobSection>, address: u32) returns (offset: u32)
    ensures offset == BlobOffset(sections, address)
  {
    for i := 0 to |sections|
      invariant forall j :: 0 <= j < i ==> !InBlobSection(sections[j], address)
    {
      var sec := sections[i];
      if sec.va > address || Wrap(sec.va + sec.vsize) <= address {
        continue;
      }
      FirstIs(s => InBlobSection(s, address), sections, i);
      return Wrap(Wrap(address - sec.va) + sec.dataAddress);
    }
    FirstIs(s => InBlobSection(s, address), sections, |sections|);
    return 0;
  }

  method OffsetRelativeToSection(table: seq<PeSection>, rva: u32) returns (offset: u32)
    ensures offset == PeOffset(table, rva)
  {
    for i := 0 to |table|
      invariant forall j :: 0 <= j < i ==> !InPeSection(table[j], rva)
    {
      var section := table[i];
      if rva >= section.va && rva <= Wrap(section.va + section.vsize - 1) {
        FirstIs(s => InPeSection(s, rva), table, i);
        return Wrap(Wrap(rva - section.va) + section.rawPointer);
      }
    }
    FirstIs(s => InPeSection(s, rva), table, |table|);
    return 0;
  }

  // ----- What a lookup finds

  /** An address lies in this range. */
  predicate Within(address: int, start: int, size: int) {
    start <= address < start + size
  }

  /** The blob lookup computes the place of the address in the first section whose range
      holds it, and zero if there is none. */
  lemma BlobLookupFinds(sections: seq<BlobSection>, address: u32, i: nat)
    requires forall j :: 0 <= j < |sections| ==> sections[j].va + sections[j].vsize < 0x1_0000_0000
    requires i <= |sections|
    requires forall j :: 0 <= j < i ==> !Within(address, sections[j].va, sections[j].vsize)
    requires i < |sections| ==> Within(address, sections[i].va, sections[i].vsize)
    ensures BlobOffset(sections, address)
         == if i < |sections| then (sections[i].dataAddress + (address - sections[i].va)) % 0x1_0000_0000 else 0
  {
    FirstIs(s => InBlobSection(s, address), sections, i);
  }

  /** So does the PE lookup, where no empty section starts at zero. */
  lemma PeLookupFinds(table: seq<PeSection>, rva: u32, i: nat)
    requires forall j :: 0 <= j < |table| ==> 0 < table[j].va + table[j].vsize <= 0x1_0000_0000
    requires i <= |table|
    requires forall j :: 0 <= j < i ==> !Within(rva, table[j].va, table[j].vsize)
    requires i < |table| ==> Within(rva, table[i].va, table[i].vsize)
    ensures PeOffset(table, rva)
         == if i < |table| then (table[i].rawPointer + (rva - table[i].va)) % 0x1_0000_0000 else 0
  {
    forall j | 0 <= j < |table|
      ensures InPeSection(table[j], rva) <==> Within(rva, table[j].va, table[j].vsize)
    {
      WrapExactly(table[j].va + table[j].vsize - 1);
    }
    FirstIs(s => InPeSection(s, rva), table, i);
  }

  // ----- The two lookups

  /** Sections at or above the image base whose end does not wrap. */
  predicate Regular(sections: seq<BlobSection>, base: u32) {
    forall i :: 0 <= i < |sections| ==>
      base <= sections[i].va && sections[i].va + sections[i].vsize < 0x1_0000_0000
  }

  /** An empty section at the image base. Seen from the PE table its last address
      wraps, so that it contains everything. */
  predicate WrapsAround(sec: BlobSection, base: u32) {
    sec.va == base && sec.vsize == 0
  }

  lemma SameSection(sections: seq<BlobSection>, table: seq<PeSection>, base: u32, rva: u32, i: nat)
    requires IsTable(table, sections, base) && Regular(sections, base) && i < |sections|
    requires rva + base < 0x1_0000_0000
    ensures InPeSection(table[i], rva)
       <==> InBlobSection(sections[i], rva + base) || WrapsAround(sections[i], base)
  {}

  /** Both lookups pick the same section for an address exactly when no empty
      section at the image base precedes the one the blob lookup picks. */
  lemma LookupsAgree(sections: seq<BlobSection>, table: seq<PeSection>, base: u32, rva: u32)
    requires IsTable(table, sections, base) && Regular(sections, base)
    requires rva + base < 0x1_0000_0000
    ensures PeIndex(table, rva) == BlobIndex(sections, rva + base)
       <==> forall i :: 0 <= i < BlobIndex(sections, rva + base) ==> !WrapsAround(sections[i], base)
  {
    var b := BlobIndex(sections, rva + base);
    forall i | 0 <= i < |sections|
      ensures InPeSection(table[i], rva)
         <==> InBlobSection(sections[i], rva + base) || WrapsAround(sections[i], base)
    {
      SameSection(sections, table, base, rva, i);
    }
    if forall i :: 0 <= i < b ==> !WrapsAround(sections[i], base) {
      FirstIs(s => InPeSection(s, rva), table, b);
    }
  }

  /** An empty section at the image base hides the section behind it from one lookup only. */
  lemma LookupsCanDisagree()
    ensures var (base, rva) := (0x01D0_0000, 0x1000);
      var sections := [BlobSection(base, 0, 0, 0), BlobSection(base + rva, 0x1000, 0x1000, 0)];
      && Regular(sections, base) && FileFits(sections)
      && BlobIndex(sections, rva + base) == 1 && PeIndex(TableOf(sections, base), rva) == 0
  {
    var (base, rva) := (0x01D0_0000, 0x1000);
    var sections := [BlobSection(base, 0, 0, 0), BlobSection(base + rva, 0x1000, 0x1000, 0)];
    var table := TableOf(sections, base);
    FirstIs(s => InBlobSection(s, rva + base), sections, 1);
    SameSection(sections, table, base, rva, 0);
    FirstIs(s => InPeSection(s, rva), table, 0);
    assert RawOffset(sections, 2) == RawOffset(sections, 1) + 0x1000;
  }

  // ----- Reading through the rebuilt file

  /** The blob's address r + base is backed by data: it lies in the stored part of
      the section the lookup picks. */
  predicate Backed(sections: seq<BlobSection>, address: u32) {
    var i := BlobIndex(sections, address);
    i < |sections| && address - sections[i].va < sections[i].dataSize
  }

  /** Reading an address through the rebuilt PE file gives the byte that reading it
      through the decoded blob gives. */
  lemma RebuiltFileReadsAsBlob<T>(
      header: seq<T>, buffer: seq<T>, sections: seq<BlobSection>, table: seq<PeSection>, base: u32,
      zero: T, rva: u32)
    requires |header| == SIZE_OF_HEADERS && |buffer| < 0x1_0000_0000
    requires IsTable(table, sections, base) && FileFits(sections) && Regular(sections, base)
    requires forall i :: 0 <= i < |sections| ==> DataInside(sections[i], |buffer|)
    requires rva + base < 0x1_0000_0000 && Backed(sections, rva + base)
    requires forall i :: 0 <= i < BlobIndex(sections, rva + base) ==> !WrapsAround(sections[i], base)
    ensures var file := header + Body(buffer, sections, |sections|, FILE_ALIGNMENT, zero);
            && PeOffset(table, rva) < |file| && BlobOffset(sections, rva + base) < |buffer|
            && file[PeOffset(table, rva)] == buffer[BlobOffset(sections, rva + base)]
  {
    var i := BlobIndex(sections, rva + base);
    var k := rva + base - sections[i].va;
    LookupsAgree(sections, table, base, rva);
    OffsetsInSection(sections, table, base, rva, |buffer|);
    DataIsWhereTheTableSays(header, buffer, sections, table, base, zero, i);
    HeldByte(header + Body(buffer, sections, |sections|, FILE_ALIGNMENT, zero),
             table[i].rawPointer, Padded(buffer, sections[i], FILE_ALIGNMENT, zero), k);
  }

  lemma BlobOffsetIs(sections: seq<BlobSection>, address: u32, i: nat)
    requires i == BlobIndex(sections, address) < |sections| && sections[i].va <= address
    requires sections[i].dataAddress + (address - sections[i].va) < 0x1_0000_0000
    ensures BlobOffset(sections, address) == sections[i].dataAddress + (address - sections[i].va)
  {
    WrapExactly(sections[i].dataAddress + (address - sections[i].va));
  }

  lemma PeOffsetIs(table: seq<PeSection>, rva: u32, i: nat)
    requires i == PeIndex(table, rva) < |table| && table[i].va <= rva
    requires table[i].rawPointer + (rva - table[i].va) < 0x1_0000_0000
    ensures PeOffset(table, rva) == table[i].rawPointer + (rva - table[i].va)
  {
    WrapExactly(table[i].rawPointer + (rva - table[i].va));
  }

  lemma OffsetsInSection(
      sections: seq<BlobSection>, table: seq<PeSection>, base: u32, rva: u32, length: nat)
    requires IsTable(table, sections, base) && Regular(sections, base) && length < 0x1_0000_0000
    requires FileFits(sections) && rva + base < 0x1_0000_0000 && Backed(sections, rva + base)
    requires PeIndex(table, rva) == BlobIndex(sections, rva + base)
    requires DataInside(sections[BlobIndex(sections, rva + base)], length)
    ensures var i := BlobIndex(sections, rva + base);
            var k := rva + base - sections[i].va;
            && PeOffset(table, rva) == table[i].rawPointer + k
            && BlobOffset(sections, rva + base) == sections[i].dataAddress + k
  {
    var i := BlobIndex(sections, rva + base);
    var k := rva + base - sections[i].va;
    RawRange(sections, table, base, i);
    assert table[i].va == sections[i].va - base by {
      assert IsEntry(table[i], sections, i, base);
      WrapExactly(sections[i].va - base);
    }
    PeOffsetIs(table, rva, i);
    BlobOffsetIs(sections, rva + base, i);
  }
}
