/** Unpacking an encrypted module in place: check the magic number, decode,
    unmask the blob header, validate it, count the sections. */
module BlobFile {
  import opened LittleEndian
  import opened Splices
  import opened ByteBits
  import opened BlobCodec

  const MIN_FILE_SIZE := 4096
  const INFO_SIZE := 68
  const MAGIC_OFFSET := 64
  const MAGIC: bv32 := 0x12345678

  // Fields of the blob header, which follows the info header.
  const COUNT_OFFSET := 72
  const EXPORT_OFFSET := 76
  const BASE_OFFSET := 80
  const ENTRY_OFFSET := 84
  const IMPORT_OFFSET := 88

  datatype Result = Unpacked(image: seq<bv8>) | Rejected(error: BlobError)
  datatype BlobError = InvalidLength | BadInfoHeader | BadDataHeader

  /** How unpacking in place ended. */
  datatype Outcome = Success | Failure(error: BlobError)

  // ----- What unpacking computes

  function DecodeFile(file: seq<bv8>): (r: seq<bv8>)
    requires INFO_SIZE <= |file|
    ensures |r| == |file|
  {
    file[..INFO_SIZE] + Decode(W, file[INFO_SIZE..])
  }

  // Each obfuscated field and what recovers it.
  function UnmaskExport(v: bv32): bv32 { v ^ 0x7A32BC85 }
  function UnmaskBase(v: bv32): bv32 { v ^ 0x49C042D1 }
  function UnmaskEntry(v: bv32): bv32 { v - 0x0000000C }
  function UnmaskImport(v: bv32): bv32 { v ^ 0x872C3D47 }

  function Modify(s: seq<bv8>, at: nat, f: bv32 -> bv32): (r: seq<bv8>)
    requires at + 4 <= |s|
    ensures |r| == |s|
  {
    PutDword(s, at, f(Dword(s, at)))
  }

  function UnmaskHeader(s: seq<bv8>): (r: seq<bv8>)
    requires MIN_FILE_SIZE <= |s|
    ensures |r| == |s|
  {
    var a := Modify(s, EXPORT_OFFSET, UnmaskExport);
    var b := Modify(a, BASE_OFFSET, UnmaskBase);
    var c := Modify(b, ENTRY_OFFSET, UnmaskEntry);
    Modify(c, IMPORT_OFFSET, UnmaskImport)
  }

  predicate ValidInfoHeader(s: seq<bv8>)
    requires MIN_FILE_SIZE <= |s|
  {
    Dword(s, MAGIC_OFFSET) == MAGIC
  }

  predicate ValidDataHeader(s: seq<bv8>)
    requires MIN_FILE_SIZE <= |s|
  {
    && Dword(s, BASE_OFFSET) != 0
    && Dword(s, EXPORT_OFFSET) != 0
    && Dword(s, IMPORT_OFFSET) != 0
    && Word(s, COUNT_OFFSET) != 0
  }

  function Increment(n: bv16): bv16 { n + 1 }
  function Decrement(n: bv16): bv16 { n - 1 }

  /** The stored count is one short of the number of sections. */
  function CountSections(s: seq<bv8>): (r: seq<bv8>)
    requires MIN_FILE_SIZE <= |s|
    ensures |r| == |s|
  {
    PutWord(s, COUNT_OFFSET, Increment(Word(s, COUNT_OFFSET)))
  }

  function Unpack(file: seq<bv8>): Result {
    if |file| < MIN_FILE_SIZE then Rejected(InvalidLength)
    else if !ValidInfoHeader(file) then Rejected(BadInfoHeader)
    else
      var header := UnmaskHeader(DecodeFile(file));
      if !ValidDataHeader(header) then Rejected(BadDataHeader)
      else Unpacked(CountSections(header))
  }

  // ----- A packer, written independently

  function EncodeFile(image: seq<bv8>): (r: seq<bv8>)
    requires INFO_SIZE <= |image|
    ensures |r| == |image|
  {
    image[..INFO_SIZE] + Encode(image[INFO_SIZE..])
  }

  // The masks as the packer applies them.
  function MaskExport(v: bv32): bv32 { 0x7A32BC85 ^ v }
  function MaskBase(v: bv32): bv32 { 0x49C042D1 ^ v }
  function MaskEntry(v: bv32): bv32 { v + 12 }
  function MaskImport(v: bv32): bv32 { 0x872C3D47 ^ v }

  function MaskHeader(s: seq<bv8>): (r: seq<bv8>)
    requires MIN_FILE_SIZE <= |s|
    ensures |r| == |s|
  {
    var a := Modify(s, IMPORT_OFFSET, MaskImport);
    var b := Modify(a, ENTRY_OFFSET, MaskEntry);
    var c := Modify(b, BASE_OFFSET, MaskBase);
    Modify(c, EXPORT_OFFSET, MaskExport)
  }

  function UncountSections(s: seq<bv8>): (r: seq<bv8>)
    requires MIN_FILE_SIZE <= |s|
    ensures |r| == |s|
  {
    PutWord(s, COUNT_OFFSET, Decrement(Word(s, COUNT_OFFSET)))
  }

  function Pack(image: seq<bv8>): (r: seq<bv8>)
    requires MIN_FILE_SIZE <= |image|
    ensures |r| == |image|
  {
    EncodeFile(MaskHeader(UncountSections(image)))
  }

  /** The images an encrypted file can hold. */
  predicate Packable(image: seq<bv8>) {
    && MIN_FILE_SIZE <= |image|
    && ValidInfoHeader(image)
    && Dword(image, BASE_OFFSET) != 0
    && Dword(image, EXPORT_OFFSET) != 0
    && Dword(image, IMPORT_OFFSET) != 0
    && Word(image, COUNT_OFFSET) != 1
  }

  // ----- Unpacking and packing undo each other

  lemma CodecInverse(s: seq<bv8>)
    requires INFO_SIZE <= |s|
    ensures EncodeFile(DecodeFile(s)) == s && DecodeFile(EncodeFile(s)) == s
  {
    EncodeDecode(s[INFO_SIZE..]);
    DecodeEncode(s[INFO_SIZE..]);
    assert DecodeFile(s)[INFO_SIZE..] == Decode(W, s[INFO_SIZE..]);
    assert EncodeFile(s)[INFO_SIZE..] == Encode(s[INFO_SIZE..]);
  }

  /** Modifying a field by f and then by g, where g undoes f, changes nothing. */
  lemma ModifyUndo(s: seq<bv8>, at: nat, f: bv32 -> bv32, g: bv32 -> bv32)
    requires at + 4 <= |s| && forall v :: g(f(v)) == v
    ensures Modify(Modify(s, at, f), at, g) == s
  {
    DwordPut(s, at, f(Dword(s, at)));
    DwordUndo(s, at, f(Dword(s, at)));
  }

  lemma ExportMask(v: bv32)
    ensures UnmaskExport(MaskExport(v)) == v && MaskExport(UnmaskExport(v)) == v
  {}

  lemma BaseMask(v: bv32)
    ensures UnmaskBase(MaskBase(v)) == v && MaskBase(UnmaskBase(v)) == v
  {}

  lemma EntryMask(v: bv32)
    ensures UnmaskEntry(MaskEntry(v)) == v && MaskEntry(UnmaskEntry(v)) == v
  {}

  lemma ImportMask(v: bv32)
    ensures UnmaskImport(MaskImport(v)) == v && MaskImport(UnmaskImport(v)) == v
  {}

  lemma FieldMasks()
    ensures forall v :: UnmaskExport(MaskExport(v)) == v && MaskExport(UnmaskExport(v)) == v
    ensures forall v :: UnmaskBase(MaskBase(v)) == v && MaskBase(UnmaskBase(v)) == v
    ensures forall v :: UnmaskEntry(MaskEntry(v)) == v && MaskEntry(UnmaskEntry(v)) == v
    ensures forall v :: UnmaskImport(MaskImport(v)) == v && MaskImport(UnmaskImport(v)) == v
  {
    forall v { ExportMask(v); }
    forall v { BaseMask(v); }
    forall v { EntryMask(v); }
    forall v { ImportMask(v); }
  }

  lemma MaskUnmask(s: seq<bv8>)
    requires MIN_FILE_SIZE <= |s|
    ensures MaskHeader(UnmaskHeader(s)) == s && UnmaskHeader(MaskHeader(s)) == s
  {
    FieldMasks();
    var a := Modify(s, EXPORT_OFFSET, UnmaskExport);
    var b := Modify(a, BASE_OFFSET, UnmaskBase);
    var c := Modify(b, ENTRY_OFFSET, UnmaskEntry);
    ModifyUndo(c, IMPORT_OFFSET, UnmaskImport, MaskImport);
    ModifyUndo(b, ENTRY_OFFSET, UnmaskEntry, MaskEntry);
    ModifyUndo(a, BASE_OFFSET, UnmaskBase, MaskBase);
    ModifyUndo(s, EXPORT_OFFSET, UnmaskExport, MaskExport);
    var d := Modify(s, IMPORT_OFFSET, MaskImport);
    var e := Modify(d, ENTRY_OFFSET, MaskEntry);
    var f := Modify(e, BASE_OFFSET, MaskBase);
    ModifyUndo(f, EXPORT_OFFSET, MaskExport, UnmaskExport);
    ModifyUndo(e, BASE_OFFSET, MaskBase, UnmaskBase);
    ModifyUndo(d, ENTRY_OFFSET, MaskEntry, UnmaskEntry);
    ModifyUndo(s, IMPORT_OFFSET, MaskImport, UnmaskImport);
  }

  lemma CountInverse(s: seq<bv8>)
    requires MIN_FILE_SIZE <= |s|
    ensures UncountSections(CountSections(s)) == s && CountSections(UncountSections(s)) == s
  {}

  /** Unpacking accepts a file with a given image exactly when that file is the
      packed form of that image: it is a bijection onto the packable images. */
  lemma UnpackIsInverseOfPack(file: seq<bv8>, image: seq<bv8>)
    ensures Unpack(file) == Unpacked(image) <==> Packable(image) && Pack(image) == file
  {
    if MIN_FILE_SIZE <= |file| {
      var header := UnmaskHeader(DecodeFile(file));
      CodecInverse(file);
      MaskUnmask(DecodeFile(file));
      CountInverse(header);
      if Unpack(file) == Unpacked(image) {
        InfoKept(file);
        CountChangesCountOnly(header);
      }
    }
    if Packable(image) && Pack(image) == file {
      var header := UncountSections(image);
      CodecInverse(MaskHeader(header));
      MaskUnmask(header);
      CountInverse(image);
      InfoKept(file);
      CountChangesCountOnly(header);
    }
  }

  lemma ModifyKeepsInfo(s: seq<bv8>, at: nat, f: bv32 -> bv32)
    requires INFO_SIZE <= at && at + 4 <= |s|
    ensures Modify(s, at, f)[..INFO_SIZE] == s[..INFO_SIZE]
  {
    SpliceFrame(s, at, DwordBytes(f(Dword(s, at))), 0, INFO_SIZE);
  }

  lemma InfoKept(file: seq<bv8>)
    requires MIN_FILE_SIZE <= |file|
    ensures ValidInfoHeader(CountSections(UnmaskHeader(DecodeFile(file)))) == ValidInfoHeader(file)
  {
    var s := DecodeFile(file);
    var a := Modify(s, EXPORT_OFFSET, UnmaskExport);
    var b := Modify(a, BASE_OFFSET, UnmaskBase);
    var c := Modify(b, ENTRY_OFFSET, UnmaskEntry);
    var d := Modify(c, IMPORT_OFFSET, UnmaskImport);
    ModifyKeepsInfo(s, EXPORT_OFFSET, UnmaskExport);
    ModifyKeepsInfo(a, BASE_OFFSET, UnmaskBase);
    ModifyKeepsInfo(b, ENTRY_OFFSET, UnmaskEntry);
    ModifyKeepsInfo(c, IMPORT_OFFSET, UnmaskImport);
    SpliceFrame(d, COUNT_OFFSET, WordBytes(Increment(Word(d, COUNT_OFFSET))), 0, INFO_SIZE);
    SameInfo(CountSections(d), file);
  }

  lemma SameInfo(s: seq<bv8>, t: seq<bv8>)
    requires MIN_FILE_SIZE <= |s| && MIN_FILE_SIZE <= |t| && s[..INFO_SIZE] == t[..INFO_SIZE]
    ensures ValidInfoHeader(s) == ValidInfoHeader(t)
  {
    forall k | 0 <= k < INFO_SIZE
      ensures s[k] == t[k]
    {
      assert s[..INFO_SIZE][k] == t[..INFO_SIZE][k];
    }
  }

  lemma CountChangesCountOnly(s: seq<bv8>)
    requires MIN_FILE_SIZE <= |s|
    ensures Word(CountSections(s), 72) == Word(s, 72) + 1
    ensures Word(s, COUNT_OFFSET) != 0 <==> Word(CountSections(s), COUNT_OFFSET) != 1
    ensures Dword(CountSections(s), EXPORT_OFFSET) == Dword(s, EXPORT_OFFSET)
    ensures Dword(CountSections(s), BASE_OFFSET) == Dword(s, BASE_OFFSET)
    ensures Dword(CountSections(s), IMPORT_OFFSET) == Dword(s, IMPORT_OFFSET)
  {}

  // ----- The unpacked header, field by field

  lemma ModifyFrame(s: seq<bv8>, at: nat, f: bv32 -> bv32, other: nat)
    requires at + 4 <= |s| && other + 4 <= |s| && (other + 4 <= at || at + 4 <= other)
    ensures Dword(Modify(s, at, f), other) == Dword(s, other)
  {
    var r := Modify(s, at, f);
    SpliceFrame(s, at, DwordBytes(f(Dword(s, at))), other, other + 4);
    DwordFrame(r, s, other);
  }

  lemma ModifiedField(s: seq<bv8>, at: nat, f: bv32 -> bv32)
    requires at + 4 <= |s|
    ensures Dword(Modify(s, at, f), at) == f(Dword(s, at))
  {
    DwordPut(s, at, f(Dword(s, at)));
  }

  /** Where the fields are and what becomes of them: the export point at 76, the image base
      at 80, the entry point at 84 and the import table at 88. */
  lemma UnmaskedFields(s: seq<bv8>)
    requires 4096 <= |s|
    ensures Dword(UnmaskHeader(s), 76) == Dword(s, 76) ^ 0x7A32BC85
    ensures Dword(UnmaskHeader(s), 80) == Dword(s, 80) ^ 0x49C042D1
    ensures Dword(UnmaskHeader(s), 84) == Dword(s, 84) - 12
    ensures Dword(UnmaskHeader(s), 88) == Dword(s, 88) ^ 0x872C3D47
    ensures UnmaskHeader(s)[..76] == s[..76] && UnmaskHeader(s)[92..] == s[92..]
  {
    hide Modify;
    var a := Modify(s, 76, UnmaskExport);
    var b := Modify(a, 80, UnmaskBase);
    var c := Modify(b, 84, UnmaskEntry);
    ModifiedField(s, 76, UnmaskExport);
    ModifyFrame(a, 80, UnmaskBase, 76);
    ModifyFrame(b, 84, UnmaskEntry, 76);
    ModifyFrame(c, 88, UnmaskImport, 76);
    ModifyFrame(s, 76, UnmaskExport, 80);
    ModifiedField(a, 80, UnmaskBase);
    ModifyFrame(b, 84, UnmaskEntry, 80);
    ModifyFrame(c, 88, UnmaskImport, 80);
    ModifyFrame(s, 76, UnmaskExport, 84);
    ModifyFrame(a, 80, UnmaskBase, 84);
    ModifiedField(b, 84, UnmaskEntry);
    ModifyFrame(c, 88, UnmaskImport, 84);
    ModifyFrame(s, 76, UnmaskExport, 88);
    ModifyFrame(a, 80, UnmaskBase, 88);
    ModifyFrame(b, 84, UnmaskEntry, 88);
    ModifiedField(c, 88, UnmaskImport);
    ModifyOutside(s, 76, UnmaskExport);
    ModifyOutside(a, 80, UnmaskBase);
    ModifyOutside(b, 84, UnmaskEntry);
    ModifyOutside(c, 88, UnmaskImport);
  }

  lemma ModifyOutside(s: seq<bv8>, at: nat, f: bv32 -> bv32)
    requires 76 <= at <= 88 && 92 <= |s|
    ensures Modify(s, at, f)[..76] == s[..76] && Modify(s, at, f)[92..] == s[92..]
  {
    SpliceFrame(s, at, DwordBytes(f(Dword(s, at))), 0, 76);
    SpliceFrame(s, at, DwordBytes(f(Dword(s, at))), 92, |s|);
  }

  /** Decoding leaves 68 bytes alone. */
  lemma DecodingStartsBehindInfo(file: seq<bv8>)
    requires 68 <= |file|
    ensures DecodeFile(file)[..68] == file[..68] && DecodeFile(file)[68..] == Decode(0x57, file[68..])
  {}

  /** A file is unpacked exactly if it is long enough, has the magic number at 64 and, once
      decoded, neither an image base, export point or import table of zero, nor no section. */
  lemma UnpacksExactlyWhen(file: seq<bv8>)
    ensures Unpack(file).Unpacked? <==>
      && 4096 <= |file| && Dword(file, 64) == 0x12345678
      && var s := DecodeFile(file);
         && Dword(s, 80) ^ 0x49C042D1 != 0 && Dword(s, 76) ^ 0x7A32BC85 != 0 && Dword(s, 88) ^ 0x872C3D47 != 0
         && Word(s, 72) != 0
  {
    hide Dword, Word, UnmaskHeader, DecodeFile, CountSections;
    if 4096 <= |file| {
      UnmaskedFields(DecodeFile(file));
      WordOfSame(UnmaskHeader(DecodeFile(file)), DecodeFile(file));
    }
  }

  lemma WordOfSame(s: seq<bv8>, t: seq<bv8>)
    requires 76 <= |s| && 76 <= |t| && s[..76] == t[..76]
    ensures Word(s, 72) == Word(t, 72)
  {
    hide Word;
    assert s[..76][72] == t[..76][72] && s[..76][73] == t[..76][73];
    WordOfBytesAt(s, 72);
    WordOfBytesAt(t, 72);
  }

  // ----- The program

  method XorBuffer(buffer: array<bv8>, length: nat)
    requires length == buffer.Length
    modifies buffer
    ensures length < INFO_SIZE ==> buffer[..] == old(buffer[..])
    ensures INFO_SIZE <= length ==> buffer[..] == DecodeFile(old(buffer[..]))
  {
    var xorChar := W;
    ghost var file := buffer[..];
    var i := INFO_SIZE;
    while i < length
      invariant length < INFO_SIZE ==> buffer[..] == file
      invariant INFO_SIZE <= length ==> INFO_SIZE <= i <= length
      invariant INFO_SIZE <= length ==>
          buffer[..] == PartlyDecoded(file, i) && xorChar == KeyAfter(W, file[INFO_SIZE..i])
    {
      DecodeOneMore(file, i);
      buffer[i] := buffer[i] ^ xorChar;
      xorChar := NextKey(xorChar, buffer[i]);
      i := i + 1;
    }
    assert INFO_SIZE <= length ==> file[INFO_SIZE..length] == file[INFO_SIZE..];
  }

  /** The buffer when the bytes before i have been decoded. */
  ghost function PartlyDecoded(file: seq<bv8>, i: nat): (r: seq<bv8>)
    requires INFO_SIZE <= i <= |file|
    ensures |r| == |file|
  {
    file[..INFO_SIZE] + Decode(W, file[INFO_SIZE..i]) + file[i..]
  }

  lemma DecodeOneMore(file: seq<bv8>, i: nat)
    requires INFO_SIZE <= i < |file|
    ensures var key, b := KeyAfter(W, file[INFO_SIZE..i]), PartlyDecoded(file, i);
            b[i] == file[i] && PartlyDecoded(file, i + 1) == b[i := file[i] ^ key]
    ensures KeyAfter(W, file[INFO_SIZE..i + 1]) == Step(KeyAfter(W, file[INFO_SIZE..i]), file[i])
  {
    assert file[INFO_SIZE..i + 1] == file[INFO_SIZE..i] + [file[i]];
    DecodeSnoc(W, file[INFO_SIZE..i], file[i]);
    Append(file[..INFO_SIZE], Decode(W, file[INFO_SIZE..i]), file[i..], file[i] ^ KeyAfter(W, file[INFO_SIZE..i]));
    assert file[i..][1..] == file[i + 1..];
  }

  lemma Append<T>(a: seq<T>, b: seq<T>, c: seq<T>, x: T)
    requires c != []
    ensures a + (b + [x]) + c[1..] == (a + b + c)[|a| + |b| := x]
  {}

  method StoreDword(buffer: array<bv8>, at: nat, v: bv32)
    requires at + 4 <= buffer.Length
    modifies buffer
    ensures buffer[..] == PutDword(old(buffer[..]), at, v)
  {
    var b := DwordBytes(v);
    buffer[at], buffer[at + 1], buffer[at + 2], buffer[at + 3] := b[0], b[1], b[2], b[3];
  }

  method DecryptHeader(buffer: array<bv8>)
    requires MIN_FILE_SIZE <= buffer.Length
    modifies buffer
    ensures buffer[..] == UnmaskHeader(old(buffer[..]))
  {
    StoreDword(buffer, EXPORT_OFFSET, UnmaskExport(Dword(buffer[..], EXPORT_OFFSET)));
    StoreDword(buffer, BASE_OFFSET, UnmaskBase(Dword(buffer[..], BASE_OFFSET)));
    StoreDword(buffer, ENTRY_OFFSET, UnmaskEntry(Dword(buffer[..], ENTRY_OFFSET)));
    StoreDword(buffer, IMPORT_OFFSET, UnmaskImport(Dword(buffer[..], IMPORT_OFFSET)));
  }

  method ValidBlobDataHeader(buffer: array<bv8>) returns (valid: bool)
    requires MIN_FILE_SIZE <= buffer.Length
    ensures valid == ValidDataHeader(buffer[..])
  {
    if Dword(buffer[..], BASE_OFFSET) == 0 {
      return false;
    }
    if Dword(buffer[..], EXPORT_OFFSET) == 0 {
      return false;
    }
    if Dword(buffer[..], IMPORT_OFFSET) == 0 {
      return false;
    }
    if Word(buffer[..], COUNT_OFFSET) == 0 {
      return false;
    }
    return true;
  }

  method IncrementSectionCount(buffer: array<bv8>)
    requires MIN_FILE_SIZE <= buffer.Length
    modifies buffer
    ensures buffer[..] == CountSections(old(buffer[..]))
  {
    var b := WordBytes(Increment(Word(buffer[..], COUNT_OFFSET)));
    buffer[COUNT_OFFSET], buffer[COUNT_OFFSET + 1] := b[0], b[1];
  }

  /** Unpacks in place. A file rejected for its length or magic number is left as
      it was; one rejected for its blob header has been decoded. */
  method DecryptFileBuffer(buffer: array<bv8>) returns (outcome: Outcome)
    modifies buffer
    ensures match Unpack(old(buffer[..]))
            case Unpacked(image) => outcome == Success && buffer[..] == image
            case Rejected(BadDataHeader) =>
              outcome == Failure(BadDataHeader) && buffer[..] == UnmaskHeader(DecodeFile(old(buffer[..])))
            case Rejected(e) => outcome == Failure(e) && buffer[..] == old(buffer[..])
  {
    if buffer.Length < MIN_FILE_SIZE {
      return Failure(InvalidLength);
    }
    if Dword(buffer[..], MAGIC_OFFSET) != MAGIC {
      return Failure(BadInfoHeader);
    }
    XorBuffer(buffer, buffer.Length);
    DecryptHeader(buffer);
    var valid := ValidBlobDataHeader(buffer);
    if !valid {
      return Failure(BadDataHeader);
    }
    IncrementSectionCount(buffer);
    return Success;
  }
}
