/** The walk over a blob's import descriptors and their thunks, and the data directories
    it fills in. */
module Imports {
  import opened Integers
  import opened PeLayout
  import opened AddressLookup
  import opened Words

  const DESCRIPTOR_SIZE := 20
  const THUNK_SIZE := 4

  datatype Blob = Blob(file: seq<u8>, sections: seq<BlobSection>, imageBase: u32, importTable: u32)

  datatype ImportEntry = ImportEntry(name: seq<u8>, hint: u16, ordinal: u16, va: u32)

  datatype DataDirectory = DataDirectory(va: u32, size: u32)

  /** A descriptor with the thunks it refers to, up to the null thunk. */
  datatype Descriptor = Descriptor(name: u32, firstThunk: u32, thunks: seq<u32>)

  // ----- Reading the blob

  /** The place in the file of an address relative to the image base. */
  function Place(b: Blob, rva: u32): nat {
    BlobOffset(b.sections, Wrap(rva + b.imageBase))
  }

  predicate ByOrdinal(thunk: u32) {
    thunk >= 0x8000_0000
  }

  predicate HasText(file: seq<u8>, at: nat)
    decreases |file| - at
  {
    at < |file| && (file[at] == 0 || HasText(file, at + 1))
  }

  function Text(file: seq<u8>, at: nat): seq<u8>
    requires HasText(file, at)
    decreases |file| - at
  {
    if file[at] == 0 then [] else [file[at]] + Text(file, at + 1)
  }

  /** What an import by name refers to lies in the file. */
  predicate HasImport(b: Blob, thunk: u32) {
    ByOrdinal(thunk) || HasText(b.file, Place(b, thunk) + 2)
  }

  function Import(b: Blob, firstThunk: u32, thunk: u32): ImportEntry
    requires HasImport(b, thunk)
  {
    var va := Wrap(b.imageBase + firstThunk);
    if ByOrdinal(thunk) then ImportEntry([], 0, thunk % 0x1_0000, va)
    else
      var at := Place(b, thunk);
      ImportEntry(Text(b.file, at + 2), Word(b.file, at), thunk % 0x1_0000, va)
  }

  predicate HasThunks(b: Blob, at: nat)
    decreases |b.file| - at
  {
    at + THUNK_SIZE <= |b.file|
    && (Dword(b.file, at) == 0 || (HasImport(b, Dword(b.file, at)) && HasThunks(b, at + THUNK_SIZE)))
  }

  function Thunks(b: Blob, at: nat): (thunks: seq<u32>)
    requires HasThunks(b, at)
    ensures forall i :: 0 <= i < |thunks| ==> HasImport(b, thunks[i])
    decreases |b.file| - at
  {
    if Dword(b.file, at) == 0 then [] else [Dword(b.file, at)] + Thunks(b, at + THUNK_SIZE)
  }

  function NameAt(b: Blob, at: nat): u32
    requires at + DESCRIPTOR_SIZE <= |b.file|
  {
    Dword(b.file, at + 12)
  }

  function FirstThunkAt(b: Blob, at: nat): u32
    requires at + DESCRIPTOR_SIZE <= |b.file|
  {
    Dword(b.file, at + 16)
  }

  /** The lists of descriptors and thunks end before the file does. */
  predicate HasDescriptors(b: Blob, at: nat)
    decreases |b.file| - at
  {
    at + DESCRIPTOR_SIZE <= |b.file|
    && (NameAt(b, at) == 0
        || (HasThunks(b, Place(b, FirstThunkAt(b, at))) && HasDescriptors(b, at + DESCRIPTOR_SIZE)))
  }

  predicate Complete(b: Blob, ds: seq<Descriptor>) {
    forall i, k :: 0 <= i < |ds| && 0 <= k < |ds[i].thunks| ==> HasImport(b, ds[i].thunks[k])
  }

  function DescriptorAt(b: Blob, at: nat): Descriptor
    requires at + DESCRIPTOR_SIZE <= |b.file| && HasThunks(b, Place(b, FirstThunkAt(b, at)))
  {
    Descriptor(NameAt(b, at), FirstThunkAt(b, at), Thunks(b, Place(b, FirstThunkAt(b, at))))
  }

  function Descriptors(b: Blob, at: nat): (ds: seq<Descriptor>)
    requires HasDescriptors(b, at)
    ensures Complete(b, ds)
    decreases |b.file| - at
  {
    if NameAt(b, at) == 0 then [] else [DescriptorAt(b, at)] + Descriptors(b, at + DESCRIPTOR_SIZE)
  }

  // ----- What the walk computes

  function ImportsOf(b: Blob, firstThunk: u32, thunks: seq<u32>): seq<ImportEntry>
    requires forall k :: 0 <= k < |thunks| ==> HasImport(b, thunks[k])
  {
    seq(|thunks|, k requires 0 <= k < |thunks| => Import(b, firstThunk, thunks[k]))
  }

  function ImportList(b: Blob, ds: seq<Descriptor>): seq<ImportEntry>
    requires Complete(b, ds)
  {
    if ds == [] then [] else ImportsOf(b, ds[0].firstThunk, ds[0].thunks) + ImportList(b, ds[1..])
  }

  function Max(a: u32, b: u32): u32 {
    if b > a then b else a
  }

  /** Behind the null thunk. */
  function ThunkEnd(d: Descriptor): u32 {
    Wrap(d.firstThunk + THUNK_SIZE * (|d.thunks| + 1))
  }

  function Start(ds: seq<Descriptor>): u32 {
    if ds == [] then 0xFFFF_FFFF
    else
      var s := Start(ds[1..]);
      if ds[0].firstThunk < s then ds[0].firstThunk else s
  }

  function End(ds: seq<Descriptor>): u32 {
    if ds == [] then 0 else Max(ThunkEnd(ds[0]), End(ds[1..]))
  }

  /** The furthest name of a by-name thunk; the name follows the hint. */
  function FurthestThunk(thunks: seq<u32>): u32 {
    if thunks == [] then 0
    else Max(if ByOrdinal(thunks[0]) then 0 else thunks[0] + 2, FurthestThunk(thunks[1..]))
  }

  function Furthest(ds: seq<Descriptor>): u32 {
    if ds == [] then 0 else Max(Max(ds[0].name, FurthestThunk(ds[0].thunks)), Furthest(ds[1..]))
  }

  // ----- The program

  lemma ImportsOfCons(b: Blob, firstThunk: u32, thunk: u32, rest: seq<u32>)
    requires HasImport(b, thunk) && forall k :: 0 <= k < |rest| ==> HasImport(b, rest[k])
    ensures ImportsOf(b, firstThunk, [thunk] + rest) == [Import(b, firstThunk, thunk)] + ImportsOf(b, firstThunk, rest)
    ensures FurthestThunk([thunk] + rest) == Max(if ByOrdinal(thunk) then 0 else thunk + 2, FurthestThunk(rest))
  {
    assert ([thunk] + rest)[1..] == rest;
  }

  method ReadThunks(b: Blob, firstThunk: u32, furthest: u32) returns (entries: seq<ImportEntry>, last: u32)
    requires HasThunks(b, Place(b, firstThunk))
    ensures entries == ImportsOf(b, firstThunk, Thunks(b, Place(b, firstThunk)))
    ensures last == Max(furthest, FurthestThunk(Thunks(b, Place(b, firstThunk))))
  {
    entries, last := [], furthest;
    var at := Place(b, firstThunk);
    ghost var all := Thunks(b, at);
    while Dword(b.file, at) != 0
      invariant HasThunks(b, at)
      invariant ImportsOf(b, firstThunk, all) == entries + ImportsOf(b, firstThunk, Thunks(b, at))
      invariant Max(furthest, FurthestThunk(all)) == Max(last, FurthestThunk(Thunks(b, at)))
      decreases |b.file| - at
    {
      var thunk := Dword(b.file, at);
      ImportsOfCons(b, firstThunk, thunk, Thunks(b, at + THUNK_SIZE));
      if !ByOrdinal(thunk) {
        if thunk + 2 > last {
          last := thunk + 2;
        }
      }
      entries := entries + [Import(b, firstThunk, thunk)];
      at := at + THUNK_SIZE;
    }
  }

  datatype Summary = Summary(imports: seq<ImportEntry>, first: u32, last: u32, furthest: u32, count: nat)

  /** What has been gathered so far, completed with the remaining descriptors, is what the
      whole list comes to. */
  ghost predicate Gathered(b: Blob, all: seq<Descriptor>, rest: seq<Descriptor>, s: Summary)
    requires Complete(b, all) && Complete(b, rest)
  {
    && s.count + |rest| == |all|
    && ImportList(b, all) == s.imports + ImportList(b, rest)
    && Start(all) == (if s.first < Start(rest) then s.first else Start(rest))
    && End(all) == Max(s.last, End(rest))
    && Furthest(all) == Max(s.furthest, Furthest(rest))
  }

  lemma GatherOne(b: Blob, all: seq<Descriptor>, d: Descriptor, rest: seq<Descriptor>, s: Summary, t: Summary)
    requires Complete(b, all) && Complete(b, rest) && Complete(b, [d] + rest)
    requires forall k :: 0 <= k < |d.thunks| ==> HasImport(b, d.thunks[k])
    requires Gathered(b, all, [d] + rest, s)
    requires t.imports == s.imports + ImportsOf(b, d.firstThunk, d.thunks)
    requires t.first == if d.firstThunk < s.first then d.firstThunk else s.first
    requires t.last == Max(s.last, ThunkEnd(d)) && t.count == s.count + 1
    requires t.furthest == Max(Max(s.furthest, d.name), FurthestThunk(d.thunks))
    ensures Gathered(b, all, rest, t)
  {
    assert ([d] + rest)[1..] == rest;
  }

  method ReadDescriptor(b: Blob, at: nat, s: Summary) returns (t: Summary)
    requires at + DESCRIPTOR_SIZE <= |b.file| && HasThunks(b, Place(b, FirstThunkAt(b, at)))
    ensures var d := DescriptorAt(b, at);
      && t.imports == s.imports + ImportsOf(b, d.firstThunk, d.thunks)
      && t.first == (if d.firstThunk < s.first then d.firstThunk else s.first)
      && t.last == Max(s.last, ThunkEnd(d)) && t.count == s.count + 1
      && t.furthest == Max(Max(s.furthest, d.name), FurthestThunk(d.thunks))
  {
    var (firstThunk, name) := (FirstThunkAt(b, at), NameAt(b, at));
    t := s;
    if firstThunk < t.first {
      t := t.(first := firstThunk);
    }
    if name > t.furthest {
      t := t.(furthest := name);
    }
    var entries, furthest := ReadThunks(b, firstThunk, t.furthest);
    t := t.(imports := t.imports + entries, furthest := furthest, count := t.count + 1);
    var end := Wrap(firstThunk + THUNK_SIZE * (|entries| + 1));
    if end > t.last {
      t := t.(last := end);
    }
  }

  lemma GatherNone(b: Blob, all: seq<Descriptor>)
    requires Complete(b, all)
    ensures Gathered(b, all, all, Summary([], 0xFFFF_FFFF, 0, 0, 0))
  {}

  lemma GatheredAll(b: Blob, all: seq<Descriptor>, s: Summary)
    requires Complete(b, all) && Gathered(b, all, [], s)
    ensures s == Summary(ImportList(b, all), Start(all), End(all), Furthest(all), |all|)
  {}

  method WalkDescriptors(b: Blob, start: nat) returns (s: Summary)
    requires HasDescriptors(b, start)
    ensures var all := Descriptors(b, start);
      s == Summary(ImportList(b, all), Start(all), End(all), Furthest(all), |all|)
  {
    var at := start;
    ghost var all := Descriptors(b, start);
    s := Summary([], 0xFFFF_FFFF, 0, 0, 0);
    GatherNone(b, all);
    while NameAt(b, at) != 0
      invariant HasDescriptors(b, at)
      invariant Gathered(b, all, Descriptors(b, at), s)
      decreases |b.file| - at
    {
      var t := ReadDescriptor(b, at, s);
      GatherOne(b, all, DescriptorAt(b, at), Descriptors(b, at + DESCRIPTOR_SIZE), s, t);
      s := t;
      at := at + DESCRIPTOR_SIZE;
    }
    GatheredAll(b, all, s);
  }

  method ProcessImports(b: Blob)
    returns (imports: seq<ImportEntry>, idd: DataDirectory, iatdd: DataDirectory, furthest: u32)
    requires HasDescriptors(b, BlobOffset(b.sections, b.importTable))
    ensures imports == ImportList(b, Descriptors(b, BlobOffset(b.sections, b.importTable)))
    ensures var ds := Descriptors(b, BlobOffset(b.sections, b.importTable));
      && idd == DataDirectory(Wrap(b.importTable - b.imageBase), Wrap(DESCRIPTOR_SIZE * (|ds| + 1)))
      && iatdd == DataDirectory(Start(ds), Wrap(End(ds) - Start(ds)))
      && furthest == Furthest(ds)
  {
    var s := WalkDescriptors(b, BlobOffset(b.sections, b.importTable));
    imports, furthest := s.imports, s.furthest;
    idd := DataDirectory(Wrap(b.importTable - b.imageBase), Wrap(DESCRIPTOR_SIZE * (s.count + 1)));
    iatdd := DataDirectory(s.first, Wrap(s.last - s.first));
  }

  // ----- What is found is what lies in the file

  /** The thunks, none of them null, and a null thunk lie in the file. */
  ghost predicate ThunksLie(b: Blob, at: nat, thunks: seq<u32>) {
    && at + THUNK_SIZE * (|thunks| + 1) <= |b.file|
    && (forall k :: 0 <= k < |thunks| ==>
          thunks[k] != 0 && HasImport(b, thunks[k]) && Dword(b.file, at + THUNK_SIZE * k) == thunks[k])
    && Dword(b.file, at + THUNK_SIZE * |thunks|) == 0
  }

  /** A descriptor that is not null lies in the file, and its thunks where it says. */
  ghost predicate DescriptorLies(b: Blob, at: nat, d: Descriptor)
    requires at + DESCRIPTOR_SIZE <= |b.file|
  {
    && d.name != 0 && NameAt(b, at) == d.name && FirstThunkAt(b, at) == d.firstThunk
    && ThunksLie(b, Place(b, d.firstThunk), d.thunks)
  }

  /** The descriptors lie in the file one after another, with a null descriptor behind them. */
  ghost predicate DescriptorsLie(b: Blob, at: nat, ds: seq<Descriptor>) {
    && at + DESCRIPTOR_SIZE * (|ds| + 1) <= |b.file|
    && (forall i :: 0 <= i < |ds| ==> DescriptorLies(b, at + DESCRIPTOR_SIZE * i, ds[i]))
    && NameAt(b, at + DESCRIPTOR_SIZE * |ds|) == 0
  }

  lemma {:induction false} ThunksAreFound(b: Blob, at: nat, thunks: seq<u32>)
    ensures ThunksLie(b, at, thunks) <==> HasThunks(b, at) && Thunks(b, at) == thunks
    decreases |b.file| - at
  {
    if thunks != [] {
      ThunksLieCons(b, at, thunks);
      if at + THUNK_SIZE <= |b.file| && Dword(b.file, at) != 0 {
        ThunksAreFound(b, at + THUNK_SIZE, thunks[1..]);
      }
    }
  }

  lemma ThunksLieCons(b: Blob, at: nat, thunks: seq<u32>)
    requires thunks != []
    ensures ThunksLie(b, at, thunks) <==>
      && at + THUNK_SIZE <= |b.file|
      && thunks[0] != 0 && HasImport(b, thunks[0]) && Dword(b.file, at) == thunks[0]
      && ThunksLie(b, at + THUNK_SIZE, thunks[1..])
  {}

  lemma DescriptorsLieCons(b: Blob, at: nat, ds: seq<Descriptor>)
    requires ds != []
    ensures DescriptorsLie(b, at, ds) <==>
      && at + DESCRIPTOR_SIZE <= |b.file|
      && DescriptorLies(b, at, ds[0])
      && DescriptorsLie(b, at + DESCRIPTOR_SIZE, ds[1..])
  {}

  /** The walk finds these descriptors with these thunks exactly if they lie in the file. */
  lemma {:induction false} DescriptorsAreFound(b: Blob, at: nat, ds: seq<Descriptor>)
    ensures DescriptorsLie(b, at, ds) <==> HasDescriptors(b, at) && Descriptors(b, at) == ds
    decreases |b.file| - at
  {
    if ds != [] {
      DescriptorsLieCons(b, at, ds);
      if at + DESCRIPTOR_SIZE <= |b.file| && NameAt(b, at) != 0 {
        ThunksAreFound(b, Place(b, ds[0].firstThunk), ds[0].thunks);
        DescriptorsAreFound(b, at + DESCRIPTOR_SIZE, ds[1..]);
      }
    }
  }

  // ----- What the directories say

  /** How many thunks the descriptors before the i-th have. */
  function Before(ds: seq<Descriptor>, i: nat): nat
    requires i <= |ds|
  {
    if i == 0 then 0 else |ds[0].thunks| + Before(ds[1..], i - 1)
  }

  lemma {:induction false} ImportCount(b: Blob, ds: seq<Descriptor>)
    requires Complete(b, ds)
    ensures |ImportList(b, ds)| == Before(ds, |ds|)
    decreases |ds|
  {
    if ds != [] { ImportCount(b, ds[1..]); }
  }

  ghost predicate IsListed(b: Blob, ds: seq<Descriptor>, at: nat, firstThunk: u32, thunk: u32)
    requires Complete(b, ds) && HasImport(b, thunk)
  {
    at < |ImportList(b, ds)| && ImportList(b, ds)[at] == Import(b, firstThunk, thunk)
  }

  lemma ListedBehind(b: Blob, ds: seq<Descriptor>, at: nat, firstThunk: u32, thunk: u32)
    requires ds != [] && Complete(b, ds) && Complete(b, ds[1..]) && HasImport(b, thunk)
    requires IsListed(b, ds[1..], at, firstThunk, thunk)
    ensures IsListed(b, ds, |ds[0].thunks| + at, firstThunk, thunk)
  {}

  /** One import for each thunk: the k-th thunk of the i-th descriptor comes after all
      thunks of the earlier descriptors. */
  lemma {:induction false} ImportIsInOrder(b: Blob, ds: seq<Descriptor>, i: nat, k: nat)
    requires Complete(b, ds) && i < |ds| && k < |ds[i].thunks|
    ensures |ImportList(b, ds)| == Before(ds, |ds|)
    ensures IsListed(b, ds, Before(ds, i) + k, ds[i].firstThunk, ds[i].thunks[k])
    decreases |ds|
  {
    ImportCount(b, ds);
    if i > 0 {
      ImportIsInOrder(b, ds[1..], i - 1, k);
      ListedBehind(b, ds, Before(ds[1..], i - 1) + k, ds[i].firstThunk, ds[i].thunks[k]);
    }
  }

  /** The address table starts at the least first thunk and ends behind the furthest null
      thunk: it holds every thunk of every descriptor and begins and ends with one. */
  lemma {:induction false} AddressTableIsHull(ds: seq<Descriptor>)
    requires ds != []
    ensures forall d :: d in ds ==> Start(ds) <= d.firstThunk && ThunkEnd(d) <= End(ds)
    ensures exists d :: d in ds && d.firstThunk == Start(ds)
    ensures exists d :: d in ds && ThunkEnd(d) == End(ds)
  {
    assert ds == [ds[0]] + ds[1..];
    if |ds| > 1 { AddressTableIsHull(ds[1..]); }
  }

  /** The furthest name is the name of a descriptor or of a by-name import, and no such
      name is further. */
  ghost predicate IsName(ds: seq<Descriptor>, rva: int) {
    exists d :: d in ds && (rva == d.name || IsThunkName(d.thunks, rva))
  }

  ghost predicate IsThunkName(thunks: seq<u32>, rva: int) {
    exists t :: t in thunks && !ByOrdinal(t) && rva == t + 2
  }

  lemma ThunkNameCons(thunks: seq<u32>, rva: int)
    requires thunks != []
    ensures IsThunkName(thunks, rva) <==>
      (!ByOrdinal(thunks[0]) && rva == thunks[0] + 2) || IsThunkName(thunks[1..], rva)
  {
    assert thunks == [thunks[0]] + thunks[1..];
  }

  lemma NameCons(ds: seq<Descriptor>, rva: int)
    requires ds != []
    ensures IsName(ds, rva) <==>
      rva == ds[0].name || IsThunkName(ds[0].thunks, rva) || IsName(ds[1..], rva)
  {
    assert ds == [ds[0]] + ds[1..];
  }

  lemma {:induction false} FurthestThunkIsMaximum(thunks: seq<u32>)
    ensures FurthestThunk(thunks) == 0 || IsThunkName(thunks, FurthestThunk(thunks))
    ensures forall rva :: IsThunkName(thunks, rva) ==> rva <= FurthestThunk(thunks)
  {
    if thunks != [] {
      FurthestThunkIsMaximum(thunks[1..]);
      forall rva { ThunkNameCons(thunks, rva); }
    }
  }

  lemma {:induction false} FurthestIsMaximum(ds: seq<Descriptor>)
    requires ds != []
    ensures IsName(ds, Furthest(ds))
    ensures forall rva :: IsName(ds, rva) ==> rva <= Furthest(ds)
  {
    FurthestThunkIsMaximum(ds[0].thunks);
    forall rva { NameCons(ds, rva); }
    if |ds| > 1 { FurthestIsMaximum(ds[1..]); }
  }

  ghost predicate InDirectory(dir: DataDirectory, rva: int) {
    dir.va <= rva && rva + THUNK_SIZE <= dir.va + dir.size
  }

  /** The directory holds every thunk and null thunk when none of them lies beyond the
      address space. */
  lemma EveryThunkIsInTheTable(ds: seq<Descriptor>, i: nat, k: nat)
    requires i < |ds| && k <= |ds[i].thunks|
    requires forall d :: d in ds ==> d.firstThunk + THUNK_SIZE * (|d.thunks| + 1) < 0x1_0000_0000
    ensures InDirectory(DataDirectory(Start(ds), Wrap(End(ds) - Start(ds))), ds[i].firstThunk + THUNK_SIZE * k)
  {
    var d := ds[i];
    AddressTableIsHull(ds);
    assert d in ds;
    WrapExactly(d.firstThunk + THUNK_SIZE * (|d.thunks| + 1));
    WrapExactly(End(ds) - Start(ds));
  }

  // ----- The same imports in the rebuilt file

  /** The blob, the section table built for it and the headers put before its data. */
  ghost predicate Rebuilt(b: Blob, header: seq<u8>, table: seq<PeSection>) {
    && |header| == 4096 && |b.file| < 0x1_0000_0000
    && IsTable(table, b.sections, b.imageBase) && FileFits(b.sections) && Regular(b.sections, b.imageBase)
    && forall i :: 0 <= i < |b.sections| ==> DataInside(b.sections[i], |b.file|)
  }

  ghost function RebuiltFile(b: Blob, header: seq<u8>): seq<u8>
    requires forall i :: 0 <= i < |b.sections| ==> DataInside(b.sections[i], |b.file|)
  {
    header + Body(b.file, b.sections, |b.sections|, 4096, 0)
  }

  /** The n bytes from an address relative to the image base on are data of the section
      that the blob lookup picks, and the PE lookup picks the same. */
  ghost predicate InData(b: Blob, rva: u32, n: nat) {
    var i := BlobIndex(b.sections, Wrap(rva + b.imageBase));
    && rva + b.imageBase < 0x1_0000_0000 && i < |b.sections|
    && 0 < n && rva + b.imageBase - b.sections[i].va + n <= b.sections[i].dataSize
    && forall j :: 0 <= j < i ==> !WrapsAround(b.sections[j], b.imageBase)
  }

  lemma OffsetsInData(b: Blob, table: seq<PeSection>, rva: u32, n: nat) returns (i: nat, k: nat)
    requires |b.file| < 0x1_0000_0000 && IsTable(table, b.sections, b.imageBase)
    requires FileFits(b.sections) && Regular(b.sections, b.imageBase)
    requires forall i :: 0 <= i < |b.sections| ==> DataInside(b.sections[i], |b.file|)
    requires InData(b, rva, n)
    ensures i < |b.sections| && k + n <= b.sections[i].dataSize
    ensures BlobOffset(b.sections, rva + b.imageBase) == b.sections[i].dataAddress + k
    ensures PeOffset(table, rva) == table[i].rawPointer + k
  {
    hide BlobOffset, PeOffset, PeIndex;
    WrapExactly(rva + b.imageBase);
    i := BlobIndex(b.sections, rva + b.imageBase);
    k := rva + b.imageBase - b.sections[i].va;
    LookupsAgree(b.sections, table, b.imageBase, rva);
    OffsetsInSection(b.sections, table, b.imageBase, rva, |b.file|);
  }

  lemma ByteReadsAlike(b: Blob, header: seq<u8>, table: seq<PeSection>, rva: u32, n: nat, o: nat)
    requires Rebuilt(b, header, table) && InData(b, rva, n) && o < n
    ensures Place(b, rva) + o < |b.file| && PeOffset(table, rva) + o < |RebuiltFile(b, header)|
    ensures RebuiltFile(b, header)[PeOffset(table, rva) + o] == b.file[Place(b, rva) + o]
  {
    hide BlobOffset, PeOffset, Body;
    WrapExactly(rva + b.imageBase);
    var i, k := OffsetsInData(b, table, rva, n);
    RawRange(b.sections, table, b.imageBase, i);
    DataThenZeros(header, b.file, b.sections, table, b.imageBase, 0, i, k + o);
  }

  /** A stretch of one file is a stretch of another. */
  ghost predicate SameStretch(f: seq<u8>, at: nat, g: seq<u8>, from: nat, n: nat) {
    at + n <= |f| && from + n <= |g| && f[at..at + n] == g[from..from + n]
  }

  lemma StretchByte(f: seq<u8>, at: nat, g: seq<u8>, from: nat, n: nat, o: nat)
    requires SameStretch(f, at, g, from, n) && o < n
    ensures f[at + o] == g[from + o]
  {
    assert f[at..at + n][o] == g[from..from + n][o];
  }

  lemma StretchDword(f: seq<u8>, at: nat, g: seq<u8>, from: nat, n: nat, o: nat)
    requires SameStretch(f, at, g, from, n) && o + 4 <= n
    ensures Dword(f, at + o) == Dword(g, from + o)
  {
    StretchByte(f, at, g, from, n, o);
    StretchByte(f, at, g, from, n, o + 1);
    StretchByte(f, at, g, from, n, o + 2);
    StretchByte(f, at, g, from, n, o + 3);
  }

  /** A stretch of data reads alike in the blob and in the rebuilt file. */
  lemma DataReadsAlike(b: Blob, header: seq<u8>, table: seq<PeSection>, rva: u32, n: nat)
    requires Rebuilt(b, header, table) && InData(b, rva, n)
    ensures SameStretch(RebuiltFile(b, header), PeOffset(table, rva), b.file, Place(b, rva), n)
  {
    hide PeOffset, Place, RebuiltFile, InData;
    var (f, at, from) := (RebuiltFile(b, header), PeOffset(table, rva), Place(b, rva));
    assert 0 < n by { NotEmpty(b, rva, n); }
    ByteReadsAlike(b, header, table, rva, n, n - 1);
    var (x, y) := (f[at..at + n], b.file[from..from + n]);
    forall o | 0 <= o < n
      ensures x[o] == y[o]
    {
      ByteReadsAlike(b, header, table, rva, n, o);
    }
  }

  lemma NotEmpty(b: Blob, rva: u32, n: nat)
    requires InData(b, rva, n)
    ensures 0 < n
  {}

  /** The thunks lie in the file one after another, with a null thunk behind them. */
  ghost predicate FileHasThunks(file: seq<u8>, at: nat, thunks: seq<u32>) {
    && at + 4 * (|thunks| + 1) <= |file|
    && (forall k :: 0 <= k < |thunks| ==> thunks[k] != 0 && Dword(file, at + 4 * k) == thunks[k])
    && Dword(file, at + 4 * |thunks|) == 0
  }

  /** A descriptor as the PE format lays it out: 20 bytes, the name's address at 12, the
      first thunk's at 16. */
  ghost predicate FileHasDescriptor(file: seq<u8>, table: seq<PeSection>, at: nat, d: Descriptor) {
    && at + 20 <= |file|
    && d.name != 0 && Dword(file, at + 12) == d.name && Dword(file, at + 16) == d.firstThunk
    && FileHasThunks(file, PeOffset(table, d.firstThunk), d.thunks)
  }

  /** The import directory of a PE file, read through its own section table. */
  ghost predicate FileHasImports(file: seq<u8>, table: seq<PeSection>, rva: u32, ds: seq<Descriptor>) {
    var at := PeOffset(table, rva);
    && (forall i :: 0 <= i < |ds| ==> FileHasDescriptor(file, table, at + 20 * i, ds[i]))
    && at + 20 * (|ds| + 1) <= |file| && Dword(file, at + 20 * |ds| + 12) == 0
  }

  lemma SameThunks(b: Blob, f: seq<u8>, at: nat, from: nat, thunks: seq<u32>)
    requires SameStretch(f, at, b.file, from, 4 * (|thunks| + 1)) && ThunksLie(b, from, thunks)
    ensures FileHasThunks(f, at, thunks)
  {
    hide HasImport, Dword;
    var n := 4 * (|thunks| + 1);
    forall k | 0 <= k < |thunks|
      ensures thunks[k] != 0 && Dword(f, at + 4 * k) == thunks[k]
    {
      StretchDword(f, at, b.file, from, n, 4 * k);
    }
    StretchDword(f, at, b.file, from, n, 4 * |thunks|);
  }

  lemma SameDescriptor(b: Blob, f: seq<u8>, table: seq<PeSection>, at: nat, from: nat, n: nat, o: nat, d: Descriptor)
    requires SameStretch(f, at, b.file, from, n) && o + 20 <= n && DescriptorLies(b, from + o, d)
    requires SameStretch(f, PeOffset(table, d.firstThunk), b.file, Place(b, d.firstThunk), 4 * (|d.thunks| + 1))
    ensures FileHasDescriptor(f, table, at + o, d)
  {
    hide PeOffset, Place, Dword, ThunksLie;
    StretchDword(f, at, b.file, from, n, o + 12);
    StretchDword(f, at, b.file, from, n, o + 16);
    SameThunks(b, f, PeOffset(table, d.firstThunk), Place(b, d.firstThunk), d.thunks);
  }

  lemma SameImports(b: Blob, f: seq<u8>, table: seq<PeSection>, rva: u32, ds: seq<Descriptor>)
    requires DescriptorsLie(b, Place(b, rva), ds)
    requires SameStretch(f, PeOffset(table, rva), b.file, Place(b, rva), 20 * (|ds| + 1))
    requires forall i :: 0 <= i < |ds| ==> SameStretch(f, PeOffset(table, ds[i].firstThunk), b.file,
                                             Place(b, ds[i].firstThunk), 4 * (|ds[i].thunks| + 1))
    ensures FileHasImports(f, table, rva, ds)
  {
    hide PeOffset, Place, Dword, ThunksLie;
    var (at, from, n) := (PeOffset(table, rva), Place(b, rva), 20 * (|ds| + 1));
    forall i | 0 <= i < |ds|
      ensures FileHasDescriptor(f, table, at + 20 * i, ds[i])
    {
      SameDescriptor(b, f, table, at, from, n, 20 * i, ds[i]);
    }
    StretchDword(f, at, b.file, from, n, 20 * |ds| + 12);
  }

  /** The imports found in the blob are those the rebuilt file holds, read through its own
      section table, as far as the lists are data of the sections they begin in. */
  lemma RebuiltFileHasImports(b: Blob, header: seq<u8>, table: seq<PeSection>, ds: seq<Descriptor>)
    requires Rebuilt(b, header, table) && b.imageBase <= b.importTable
    requires HasDescriptors(b, BlobOffset(b.sections, b.importTable))
    requires ds == Descriptors(b, BlobOffset(b.sections, b.importTable))
    requires InData(b, b.importTable - b.imageBase, 20 * (|ds| + 1))
    requires forall i :: 0 <= i < |ds| ==> InData(b, ds[i].firstThunk, 4 * (|ds[i].thunks| + 1))
    ensures FileHasImports(RebuiltFile(b, header), table, b.importTable - b.imageBase, ds)
  {
    hide PeOffset, BlobOffset, RebuiltFile, InData, Descriptors, HasDescriptors;
    var rva := b.importTable - b.imageBase;
    WrapExactly(b.importTable);
    DescriptorsAreFound(b, BlobOffset(b.sections, b.importTable), ds);
    DataReadsAlike(b, header, table, rva, 20 * (|ds| + 1));
    forall i | 0 <= i < |ds|
      ensures SameStretch(RebuiltFile(b, header), PeOffset(table, ds[i].firstThunk), b.file,
                          Place(b, ds[i].firstThunk), 4 * (|ds[i].thunks| + 1))
    {
      DataReadsAlike(b, header, table, ds[i].firstThunk, 4 * (|ds[i].thunks| + 1));
    }
    SameImports(b, RebuiltFile(b, header), table, rva, ds);
  }

  // ----- What an import holds

  lemma {:induction false} TextUpToZero(file: seq<u8>, at: nat)
    requires HasText(file, at)
    ensures var t := Text(file, at);
      && at + |t| < |file| && file[at..at + |t|] == t && file[at + |t|] == 0 && 0 !in t
    decreases |file| - at
  {
    if file[at] != 0 { TextUpToZero(file, at + 1); }
  }

  /** What a thunk imports, in the terms of the PE format: by its low 16 bits if its highest
      bit is set, else by the hint and the text, up to a zero, that stand at its address. */
  ghost predicate FileHasImport(file: seq<u8>, at: nat, thunk: u32, e: ImportEntry) {
    && e.ordinal == thunk % 65536
    && if thunk >= 0x8000_0000 then e.name == [] && e.hint == 0
       else
         && at + 2 + |e.name| < |file|
         && e.hint == file[at] as int + 256 * file[at + 1] as int
         && file[at + 2..at + 2 + |e.name|] == e.name && file[at + 2 + |e.name|] == 0 && 0 !in e.name
  }

  lemma ImportInBlob(b: Blob, firstThunk: u32, thunk: u32)
    requires HasImport(b, thunk)
    ensures FileHasImport(b.file, Place(b, thunk), thunk, Import(b, firstThunk, thunk))
    ensures Import(b, firstThunk, thunk).va == (b.imageBase + firstThunk) % 0x1_0000_0000
  {
    if !ByOrdinal(thunk) {
      TextUpToZero(b.file, Place(b, thunk) + 2);
      LowestFirst(b.file, Place(b, thunk));
    }
  }

  /** An entry of the list is what the rebuilt file holds at its thunk. */
  lemma RebuiltFileHasImport(b: Blob, header: seq<u8>, table: seq<PeSection>, firstThunk: u32, thunk: u32)
    requires Rebuilt(b, header, table) && HasImport(b, thunk)
    requires thunk < 0x8000_0000 ==> InData(b, thunk, 3 + |Import(b, firstThunk, thunk).name|)
    ensures FileHasImport(RebuiltFile(b, header), PeOffset(table, thunk), thunk, Import(b, firstThunk, thunk))
  {
    ImportInBlob(b, firstThunk, thunk);
    hide PeOffset, Place, RebuiltFile, InData, Import, HasImport;
    if thunk < 0x8000_0000 {
      var e := Import(b, firstThunk, thunk);
      DataReadsAlike(b, header, table, thunk, 3 + |e.name|);
      SameImport(RebuiltFile(b, header), PeOffset(table, thunk), b.file, Place(b, thunk), thunk, e);
    }
  }

  lemma SameImport(f: seq<u8>, at: nat, g: seq<u8>, from: nat, thunk: u32, e: ImportEntry)
    requires thunk < 0x8000_0000 && FileHasImport(g, from, thunk, e) && SameStretch(f, at, g, from, 3 + |e.name|)
    ensures FileHasImport(f, at, thunk, e)
  {
    var (n, m) := (3 + |e.name|, |e.name|);
    StretchByte(f, at, g, from, n, 0);
    StretchByte(f, at, g, from, n, 1);
    StretchByte(f, at, g, from, n, n - 1);
    var (x, y) := (f[at + 2..at + 2 + m], g[from + 2..from + 2 + m]);
    forall k | 0 <= k < m
      ensures x[k] == y[k]
    {
      StretchByte(f, at, g, from, n, 2 + k);
    }
  }
}
