/** The base relocation table: blocks of entries, the walk over them that patches
    the image, and how relocating an image as a whole composes. */
module RelocationTable {
  import opened Integers
  import opened Options
  import opened Alignment
  import opened Relocation
  import opened Splices
  import opened Words

  const BLOCK_HEADER := 8

  // ----- Reading the table

  function BlockAddress(image: seq<u8>, block: nat): u32
    requires block + BLOCK_HEADER <= |image|
  {
    Dword(image, block)
  }

  function BlockSize(image: seq<u8>, block: nat): u32
    requires block + BLOCK_HEADER <= |image|
  {
    Dword(image, block + 4)
  }

  /** The entries after the header; each is two bytes. */
  function EntryCount(size: nat): nat
    requires BLOCK_HEADER <= size
  {
    (size - BLOCK_HEADER) / 2
  }

  /** The upper four bits are the type, the lower twelve the offset in the block's page. */
  function DecodeEntry(entry: u16, page: u32): Patch {
    Patch(entry / 0x1000, page + entry % 0x1000)
  }

  /** The masks and the shift that take an entry apart. */
  lemma EntryBits(entry: u16)
    ensures And(entry, 0xF000) / 0x1000 == entry / 0x1000
    ensures And(entry, 0x0FFF) == entry % 0x1000
  {
    assert Pow2(12) == 0x1000 && Pow2(16) == 0x1_0000 by {
      assert Pow2(6) == 64;
    }
    AndHighBits(entry, 12, 16);
    AndLowBits(entry, 12);
  }

  function BlockPatches(image: seq<u8>, block: nat, n: nat): (ps: seq<Patch>)
    requires block + BLOCK_HEADER + 2 * n <= |image|
    ensures |ps| == n
  {
    if n == 0 then []
    else
      BlockPatches(image, block, n - 1)
      + [DecodeEntry(Word(image, block + BLOCK_HEADER + 2 * (n - 1)), BlockAddress(image, block))]
  }

  /** Every block that is visited lies in the image, and its size, unless it is the
      zero that ends the walk, covers its header. */
  predicate WellFormed(image: seq<u8>, block: nat, remaining: int)
    decreases remaining
  {
    remaining <= 0 ||
    (&& block + BLOCK_HEADER <= |image|
     && var size := BlockSize(image, block);
        size == 0 ||
        (&& BLOCK_HEADER <= size && block + size <= |image|
         && WellFormed(image, block + size, remaining - size)))
  }

  /** The entries of all blocks, in order. */
  function TablePatches(image: seq<u8>, block: nat, remaining: int): seq<Patch>
    requires WellFormed(image, block, remaining)
    decreases remaining
  {
    if remaining <= 0 then []
    else
      var size := BlockSize(image, block);
      if size == 0 then []
      else
        BlockPatches(image, block, EntryCount(size))
        + TablePatches(image, block + size, remaining - size)
  }

  /** Where reading the table ends. */
  function TableEnd(image: seq<u8>, block: nat, remaining: int): (end: nat)
    requires WellFormed(image, block, remaining)
    ensures block <= end && (block <= |image| ==> end <= |image|)
    ensures remaining > 0 ==> block + BLOCK_HEADER <= end
    decreases remaining
  {
    if remaining <= 0 then block
    else
      var size := BlockSize(image, block);
      if size == 0 then block + BLOCK_HEADER else TableEnd(image, block + size, remaining - size)
  }

  // ----- The table depends on its own bytes only

  lemma DwordSame(s: seq<u8>, t: seq<u8>, lo: nat, hi: nat, i: nat)
    requires lo <= i && i + 4 <= hi <= |s| && |t| == |s| && s[lo..hi] == t[lo..hi]
    ensures Dword(s, i) == Dword(t, i)
  {
    assert forall k :: lo <= k < hi ==> s[k] == s[lo..hi][k - lo] == t[k];
  }

  lemma WordSame(s: seq<u8>, t: seq<u8>, lo: nat, hi: nat, i: nat)
    requires lo <= i && i + 2 <= hi <= |s| && |t| == |s| && s[lo..hi] == t[lo..hi]
    ensures Word(s, i) == Word(t, i)
  {
    assert forall k :: lo <= k < hi ==> s[k] == s[lo..hi][k - lo] == t[k];
  }

  lemma {:induction false} BlockSame(s: seq<u8>, t: seq<u8>, lo: nat, hi: nat, block: nat, n: nat)
    requires lo <= block && block + BLOCK_HEADER + 2 * n <= hi <= |s|
    requires |t| == |s| && s[lo..hi] == t[lo..hi]
    ensures BlockPatches(s, block, n) == BlockPatches(t, block, n)
  {
    if n > 0 {
      BlockSame(s, t, lo, hi, block, n - 1);
      DwordSame(s, t, lo, hi, block);
      WordSame(s, t, lo, hi, block + BLOCK_HEADER + 2 * (n - 1));
    }
  }

  lemma SizeSame(s: seq<u8>, t: seq<u8>, lo: nat, hi: nat, block: nat)
    requires lo <= block && block + BLOCK_HEADER <= hi <= |s|
    requires |t| == |s| && s[lo..hi] == t[lo..hi]
    ensures BlockSize(s, block) == BlockSize(t, block)
  {
    DwordSame(s, t, lo, hi, block + 4);
  }

  lemma {:induction false} ShapeSame(s: seq<u8>, t: seq<u8>, lo: nat, end: nat, block: nat, remaining: int)
    requires WellFormed(s, block, remaining) && lo <= block <= |s| && |t| == |s|
    requires end == TableEnd(s, block, remaining) && s[lo..end] == t[lo..end]
    ensures WellFormed(t, block, remaining) && TableEnd(t, block, remaining) == end
    decreases remaining
  {
    if remaining > 0 {
      SizeSame(s, t, lo, end, block);
      var size := BlockSize(s, block);
      if size != 0 {
        ShapeSame(s, t, lo, end, block + size, remaining - size);
      }
    }
  }

  /** One block of the walk: the next one begins at `next`, with `rest` bytes remaining. */
  lemma TableStep(image: seq<u8>, block: nat, remaining: int, next: nat, rest: int) returns (here: seq<Patch>)
    requires WellFormed(image, block, remaining) && remaining > 0
    requires BlockSize(image, block) != 0
    requires next == block + BlockSize(image, block) && rest == remaining - BlockSize(image, block)
    ensures BLOCK_HEADER <= BlockSize(image, block) && next <= |image| && rest < remaining
    ensures here == BlockPatches(image, block, EntryCount(BlockSize(image, block)))
    ensures WellFormed(image, next, rest) && TableEnd(image, block, remaining) == TableEnd(image, next, rest)
    ensures TablePatches(image, block, remaining) == here + TablePatches(image, next, rest)
  {
    here := BlockPatches(image, block, EntryCount(BlockSize(image, block)));
  }

  /** Two images that hold the same table walk it alike. */
  lemma {:induction false} TableSame(s: seq<u8>, t: seq<u8>, lo: nat, end: nat, block: nat, remaining: int)
    requires WellFormed(s, block, remaining) && WellFormed(t, block, remaining)
    requires lo <= block <= |s| && |t| == |s|
    requires end == TableEnd(s, block, remaining) && s[lo..end] == t[lo..end]
    ensures TablePatches(t, block, remaining) == TablePatches(s, block, remaining)
    decreases remaining
  {
    if remaining > 0 {
      SizeSame(s, t, lo, end, block);
      var size := BlockSize(s, block);
      if size != 0 {
        var (next, rest) := (block + size, remaining - size);
        var _ := TableStep(s, block, remaining, next, rest);
        var _ := TableStep(t, block, remaining, next, rest);
        BlockSame(s, t, lo, end, block, EntryCount(size));
        TableSame(s, t, lo, end, next, rest);
      }
    }
  }

  // ----- The walk

  /** Every entry lies in the image and avoids [lo, hi). */
  ghost predicate Harmless(ps: seq<Patch>, size: nat, lo: nat, hi: nat) {
    AllInside(ps, size) && forall i :: 0 <= i < |ps| ==> Avoids(ps[i], lo, hi)
  }

  /** Every entry adjusts bytes of the image, and none bytes of the table. */
  ghost predicate Relocatable(image: seq<u8>, dir: nat, size: nat) {
    && WellFormed(image, dir, size) && dir <= |image|
    && Harmless(TablePatches(image, dir, size), |image|, dir, TableEnd(image, dir, size))
  }

  /** What relocating an image by delta computes. */
  ghost function Relocated(image: seq<u8>, dir: nat, size: nat, delta: u32): (r: seq<u8>)
    requires Relocatable(image, dir, size)
    ensures |r| == |image|
  {
    ApplyAll(image, TablePatches(image, dir, size), delta)
  }

  method Store(image: array<u8>, at: nat, b: seq<u8>)
    requires at + |b| <= image.Length
    modifies image
    ensures image[..] == Splice(old(image[..]), at, b)
  {
    for k := 0 to |b|
      invariant forall j :: 0 <= j < image.Length ==>
                  image[j] == if at <= j < at + k then b[j - at] else old(image[j])
    {
      image[at + k] := b[k];
    }
  }

  method PatchImage(image: array<u8>, p: Patch, delta: u32)
    requires Inside(p, image.Length)
    modifies image
    ensures image[..] == ApplyPatch(old(image[..]), p, delta)
  {
    if p.kind == HIGHLOW {
      Store(image, p.at, DwordBytes(Add32(Dword(image[p.at..p.at + 4], 0), delta)));
    } else if p.kind == HIGH {
      Store(image, p.at, WordBytes(Add16(Word(image[p.at..p.at + 2], 0), HighWord(delta))));
    } else if p.kind == LOW {
      Store(image, p.at, WordBytes(Add16(Word(image[p.at..p.at + 2], 0), LowWord(delta))));
    }
  }

  // ----- The walk, on the image as it is being patched

  /** Applies the i-th entry of a block as the image now holds it. None if an access leaves
      the image. */
  function LiveEntry(image: seq<u8>, block: nat, i: nat, delta: u32): (r: Option<seq<u8>>)
    ensures r.Some? ==> |r.value| == |image|
  {
    if block + BLOCK_HEADER + 2 * (i + 1) > |image| then None
    else
      var p := DecodeEntry(Word(image, block + BLOCK_HEADER + 2 * i), BlockAddress(image, block));
      if Inside(p, |image|) then Some(ApplyPatch(image, p, delta)) else None
  }

  /** The first n entries, in order. */
  function LiveEntries(image: seq<u8>, block: nat, n: nat, delta: u32): (r: Option<seq<u8>>)
    ensures r.Some? ==> |r.value| == |image|
  {
    if n == 0 then Some(image)
    else
      match LiveEntries(image, block, n - 1, delta)
      case None => None
      case Some(im) => LiveEntry(im, block, n - 1, delta)
  }

  /** All entries of a block. A size that does not cover the header makes their number wrap
      and the walk leave the image. */
  function LiveBlock(image: seq<u8>, block: nat, delta: u32): (r: Option<seq<u8>>)
    requires block + BLOCK_HEADER <= |image|
    ensures r.Some? ==> |r.value| == |image|
  {
    var size := BlockSize(image, block);
    if size < BLOCK_HEADER then None else LiveEntries(image, block, EntryCount(size), delta)
  }

  /** The walk is over, or goes on at another block. */
  datatype Move = Over(result: Option<seq<u8>>) | On(image: seq<u8>, block: nat, remaining: int)

  /** One block of the walk. Its size is read again after its entries were applied. */
  function LiveMove(image: seq<u8>, block: nat, remaining: int, delta: u32): (m: Move)
    ensures m.On? ==> m.remaining < remaining && |m.image| == |image|
    ensures m.Over? && m.result.Some? ==> |m.result.value| == |image|
  {
    if remaining <= 0 then Over(Some(image))
    else if block + BLOCK_HEADER > |image| then Over(None)
    else if BlockSize(image, block) == 0 then Over(Some(image))
    else
      match LiveBlock(image, block, delta)
      case None => Over(None)
      case Some(im) =>
        var size := BlockSize(im, block);
        if size == 0 then Over(Some(im)) else On(im, block + size, remaining - size)
  }

  function LiveWalk(image: seq<u8>, block: nat, remaining: int, delta: u32): (r: Option<seq<u8>>)
    ensures r.Some? ==> |r.value| == |image|
    decreases remaining
  {
    match LiveMove(image, block, remaining, delta)
    case Over(result) => result
    case On(im, next, rest) => LiveWalk(im, next, rest, delta)
  }

  function Live(image: seq<u8>, dir: nat, size: nat, delta: u32): Option<seq<u8>> {
    if delta == 0 then Some(image) else LiveWalk(image, dir, size, delta)
  }

  lemma EntryByZero(image: seq<u8>, block: nat, i: nat)
    requires LiveEntry(image, block, i, 0).Some?
    ensures LiveEntry(image, block, i, 0) == Some(image)
  {
    var p := DecodeEntry(Word(image, block + BLOCK_HEADER + 2 * i), BlockAddress(image, block));
    PatchingByZero(image, p);
  }

  lemma {:induction false} EntriesByZero(image: seq<u8>, block: nat, n: nat)
    requires LiveEntries(image, block, n, 0).Some?
    ensures LiveEntries(image, block, n, 0) == Some(image)
  {
    hide LiveEntry;
    if n > 0 {
      EntriesByZero(image, block, n - 1);
      EntryByZero(image, block, n - 1);
    }
  }

  /** Walking with an amount of zero changes nothing, even a table that lies under its own
      entries: returning early is what the loop would have come to. */
  lemma {:induction false} WalkingByZero(image: seq<u8>, block: nat, remaining: int)
    requires LiveWalk(image, block, remaining, 0).Some?
    ensures LiveWalk(image, block, remaining, 0) == Some(image)
    decreases remaining
  {
    hide LiveEntries;
    var m := LiveMove(image, block, remaining, 0);
    if remaining > 0 && BlockSize(image, block) != 0 {
      EntriesByZero(image, block, EntryCount(BlockSize(image, block)));
    }
    if m.On? { WalkingByZero(m.image, m.block, m.remaining); }
  }

  lemma {:induction false} LivePrefix(image: seq<u8>, block: nat, n: nat, delta: u32, i: nat)
    requires i <= n && LiveEntries(image, block, n, delta).Some?
    ensures LiveEntries(image, block, i, delta).Some?
  {
    hide LiveEntry;
    if i < n {
      LivePrefix(image, block, n - 1, delta, i);
    }
  }

  method RelocateEntry(image: array<u8>, block: nat, i: nat, delta: u32)
    requires LiveEntry(image[..], block, i, delta).Some?
    modifies image
    ensures Some(image[..]) == LiveEntry(old(image[..]), block, i, delta)
  {
    var entry := Word(image[..], block + BLOCK_HEADER + 2 * i);
    EntryBits(entry);
    var kind := And(entry, 0xF000) / 0x1000;
    var offset := And(entry, 0x0FFF);
    PatchImage(image, Patch(kind, BlockAddress(image[..], block) + offset), delta);
  }

  method RelocateBlock(image: array<u8>, block: nat, delta: u32)
    requires block + BLOCK_HEADER <= image.Length && LiveBlock(image[..], block, delta).Some?
    modifies image
    ensures Some(image[..]) == LiveBlock(old(image[..]), block, delta)
  {
    ghost var before := image[..];
    var n := EntryCount(BlockSize(image[..], block));
    for i := 0 to n
      invariant Some(image[..]) == LiveEntries(before, block, i, delta)
    {
      LivePrefix(before, block, n, delta, i + 1);
      RelocateEntry(image, block, i, delta);
    }
  }

  lemma LiveWalkOn(image: seq<u8>, block: nat, remaining: int, delta: u32, m: Move)
    requires m == LiveMove(image, block, remaining, delta)
    ensures LiveWalk(image, block, remaining, delta)
         == if m.On? then LiveWalk(m.image, m.block, m.remaining, delta) else m.result
  {}

  lemma LiveStaysInside(image: seq<u8>, block: nat, remaining: int, delta: u32)
    requires LiveWalk(image, block, remaining, delta).Some? && remaining > 0
    ensures block + BLOCK_HEADER <= |image|
    ensures BlockSize(image, block) != 0 ==> LiveBlock(image, block, delta).Some?
    ensures BlockSize(image, block) == 0 ==> LiveWalk(image, block, remaining, delta) == Some(image)
  {
    hide LiveBlock;
    LiveWalkOn(image, block, remaining, delta, LiveMove(image, block, remaining, delta));
  }

  /** One block of the walk; if its size has become zero the walk ends in place. */
  lemma LiveStep(image: seq<u8>, im: seq<u8>, block: nat, remaining: int, delta: u32, next: nat, rest: int)
    requires remaining > 0 && block + BLOCK_HEADER <= |image| && BlockSize(image, block) != 0
    requires LiveBlock(image, block, delta) == Some(im)
    requires next == block + BlockSize(im, block) && rest == remaining - BlockSize(im, block)
    ensures LiveWalk(image, block, remaining, delta) == LiveWalk(im, next, rest, delta)
  {
    hide LiveBlock;
    if BlockSize(im, block) == 0 {
      LiveWalkOn(image, block, remaining, delta, Over(Some(im)));
      LiveWalkOn(im, next, rest, delta, Over(Some(im)));
    } else {
      LiveWalkOn(image, block, remaining, delta, On(im, next, rest));
    }
  }

  /** From here, where a block of this size is next, the walk leads to this result. */
  ghost predicate Running(image: seq<u8>, block: nat, remaining: int, current: u32, delta: u32, result: seq<u8>) {
    && (remaining > 0 ==> block + BLOCK_HEADER <= |image| && current == BlockSize(image, block))
    && LiveWalk(image, block, remaining, delta) == Some(result)
  }

  lemma Ends(image: seq<u8>, block: nat, remaining: int, current: u32, delta: u32, result: seq<u8>)
    requires Running(image, block, remaining, current, delta, result) && (remaining <= 0 || current == 0)
    ensures image == result
  {
    if remaining > 0 { LiveStaysInside(image, block, remaining, delta); }
  }

  /** Reads the size of the next block, if the walk gets to it. */
  method NextSize(image: array<u8>, block: nat, remaining: int, delta: u32, ghost result: seq<u8>)
    returns (current: u32)
    requires LiveWalk(image[..], block, remaining, delta) == Some(result)
    ensures Running(image[..], block, remaining, current, delta, result)
  {
    hide LiveWalk;
    if remaining <= 0 {
      return 0;
    }
    LiveStaysInside(image[..], block, remaining, delta);
    return BlockSize(image[..], block);
  }

  method VisitBlock(
      image: array<u8>, block: nat, delta: u32, ghost remaining: int, ghost current: u32, ghost result: seq<u8>)
    returns (moved: u32)
    requires Running(image[..], block, remaining, current, delta, result) && remaining > 0 && current > 0
    modifies image
    ensures LiveWalk(image[..], block + moved, remaining - moved, delta) == Some(result)
    ensures moved == 0 ==> block + BLOCK_HEADER <= image.Length && BlockSize(image[..], block) == 0
  {
    hide LiveWalk, LiveMove;
    ghost var before := image[..];
    LiveStaysInside(before, block, remaining, delta);
    RelocateBlock(image, block, delta);
    moved := BlockSize(image[..], block);
    LiveStep(before, image[..], block, remaining, delta, block + moved, remaining - moved);
  }

  /** Relocates in place; no access may leave the image. */
  method RelocateImage(image: array<u8>, dir: nat, size: nat, delta: u32)
    requires Live(image[..], dir, size, delta).Some?
    modifies image
    ensures Some(image[..]) == Live(old(image[..]), dir, size, delta)
  {
    hide LiveWalk;
    if delta == 0 {
      return;
    }
    ghost var result := LiveWalk(image[..], dir, size, delta).value;
    var block: nat, totalSize: nat := dir, 0;
    var remaining: int := size;
    var current := NextSize(image, block, remaining, delta, result);
    while size > totalSize && current > 0
      invariant remaining == size - totalSize
      invariant Running(image[..], block, remaining, current, delta, result)
      decreases remaining, current
    {
      var moved := VisitBlock(image, block, delta, remaining, current, result);
      totalSize := totalSize + moved;
      block := block + moved;
      remaining := remaining - moved;
      current := NextSize(image, block, remaining, delta, result);
    }
    Ends(image[..], block, remaining, current, delta, result);
  }

  /** A table whose entry adjusts the size of its own block, from 12 to 16. */
  const SELF_PATCHING: seq<u8> :=
    [0, 0, 0, 0, 12, 0, 0, 0, 0x04, 0x20, 0, 0, 0, 0, 0, 0, 1, 0, 0, 0, 0, 0, 0, 0]

  ghost predicate HasBlock(image: seq<u8>, block: nat, page: u32, size: u32) {
    block + 8 <= |image| && BlockAddress(image, block) == page && BlockSize(image, block) == size
  }

  /** The walk goes on where the size that has been patched says; at the old place it would
      find a size that does not cover the header. */
  lemma WalkFollowsPatchedSize()
    ensures Live(SELF_PATCHING, 0, 24, 4) == Some(SELF_PATCHING[4 := 16])
    ensures HasBlock(SELF_PATCHING[4 := 16], 12, 0, 1)
  {
    var (image, im) := (SELF_PATCHING, SELF_PATCHING[4 := 16]);
    BlockIs(image, 0, 0, 12);
    BlockIs(im, 0, 0, 16);
    BlockIs(im, 16, 1, 0);
    BlockIs(im, 12, 0, 1);
    assert Word(image, 8) == 0x2004 && Word(im, 10) == 0;
    FirstEntryPatchesSize(image, im);
    SecondEntryDoesNothing(im);
    WalkGoesOn(image, im);
  }

  lemma BlockIs(image: seq<u8>, block: nat, page: u8, size: u8)
    requires block + 8 <= |image| && image[block..block + 8] == [page, 0, 0, 0, size, 0, 0, 0]
    ensures HasBlock(image, block, page, size)
  {
    var w := image[block..block + 8];
    assert forall k :: 0 <= k < 8 ==> image[block + k] == w[k];
  }

  lemma WalkGoesOn(image: seq<u8>, im: seq<u8>)
    requires HasBlock(image, 0, 0, 12) && HasBlock(im, 0, 0, 16) && HasBlock(im, 16, 1, 0)
    requires LiveEntry(image, 0, 0, 4) == Some(im) && LiveEntry(im, 0, 1, 4) == Some(im)
    ensures Live(image, 0, 24, 4) == Some(im)
  {
    hide LiveEntry, BlockAddress, BlockSize;
    assert LiveEntries(image, 0, 1, 4) == Some(im);
    assert LiveEntries(image, 0, 2, 4) == Some(im);
    LiveWalkOn(image, 0, 24, 4, On(im, 16, 8));
    LiveWalkOn(im, 16, 8, 4, Over(Some(im)));
  }

  lemma SecondEntryDoesNothing(im: seq<u8>)
    requires |im| == 24 && BlockAddress(im, 0) == 0 && Word(im, 10) == 0
    ensures LiveEntry(im, 0, 1, 4) == Some(im)
  {}

  lemma FirstEntryPatchesSize(image: seq<u8>, im: seq<u8>)
    requires |image| == 24 && BlockAddress(image, 0) == 0 && Word(image, 8) == 0x2004
    requires image[4] == 12 && image[5] == 0 && im == image[4 := 16]
    ensures LiveEntry(image, 0, 0, 4) == Some(im)
  {
    assert Window(image, Patch(LOW, 4)) == [12, 0];
    assert Adjust(LOW, [12, 0], 4) == [16, 0];
    assert Splice(image, 4, [16, 0]) == im;
  }

  // ----- A table that is not patched itself

  /** What is known of an original image while it is walked: the entries `done` were
      applied, they begin the list of all entries, and [lo, hi) is the table. */
  ghost predicate Applied(
      image: seq<u8>, original: seq<u8>, done: seq<Patch>, delta: u32, lo: nat, hi: nat)
  {
    && AllInside(done, |original|)
    && image == ApplyAll(original, done, delta)
    && lo <= hi <= |original|
    && forall i :: 0 <= i < |done| ==> Avoids(done[i], lo, hi)
  }

  /** The table is still there while the image is being patched. */
  lemma TableKept(image: seq<u8>, original: seq<u8>, done: seq<Patch>, delta: u32, lo: nat, hi: nat)
    requires Applied(image, original, done, delta, lo, hi)
    ensures |image| == |original| && image[lo..hi] == original[lo..hi]
  {
    ApplyFrame(original, done, delta, lo, hi);
  }

  lemma AppliedOneMore(
      image: seq<u8>, original: seq<u8>, done: seq<Patch>, p: Patch, delta: u32, lo: nat, hi: nat)
    requires Applied(image, original, done, delta, lo, hi)
    requires Inside(p, |original|) && Avoids(p, lo, hi)
    ensures Applied(ApplyPatch(image, p, delta), original, done + [p], delta, lo, hi)
  {
    assert (done + [p])[..|done|] == done;
  }

  /** The walk stands at a block: the entries done and those from here on are all entries. */
  ghost predicate StandsAt(
      original: seq<u8>, dir: nat, size: nat, done: seq<Patch>, block: nat, remaining: int)
    requires Relocatable(original, dir, size)
  {
    && dir <= block && WellFormed(original, block, remaining)
    && TableEnd(original, block, remaining) == TableEnd(original, dir, size)
    && done + TablePatches(original, block, remaining) == TablePatches(original, dir, size)
  }

  lemma NextBlock(
      original: seq<u8>, dir: nat, size: nat, done: seq<Patch>, block: nat, remaining: int, next: nat, rest: int)
    returns (here: seq<Patch>)
    requires Relocatable(original, dir, size) && StandsAt(original, dir, size, done, block, remaining)
    requires remaining > 0 && BlockSize(original, block) > 0
    requires next == block + BlockSize(original, block) && rest == remaining - BlockSize(original, block)
    ensures BLOCK_HEADER <= BlockSize(original, block) && next <= TableEnd(original, dir, size)
    ensures here == BlockPatches(original, block, EntryCount(BlockSize(original, block)))
    ensures Harmless(here, |original|, dir, TableEnd(original, dir, size))
    ensures StandsAt(original, dir, size, done + here, next, rest)
  {
    here := TableStep(original, block, remaining, next, rest);
    var later := TablePatches(original, next, rest);
    assert done + (here + later) == done + here + later;
    HarmlessMiddle(done, here, later, |original|, dir, TableEnd(original, dir, size));
  }

  lemma HarmlessMiddle(a: seq<Patch>, b: seq<Patch>, c: seq<Patch>, size: nat, lo: nat, hi: nat)
    requires Harmless(a + b + c, size, lo, hi)
    ensures Harmless(b, size, lo, hi)
  {
    forall i | 0 <= i < |b|
      ensures b[i] == (a + b + c)[|a| + i]
    {}
  }

  /** While the table stays as it was, an entry is that of the original image. */
  lemma LiveEntryOfOriginal(
      image: seq<u8>, original: seq<u8>, done: seq<Patch>, delta: u32, lo: nat, hi: nat, block: nat, i: nat, p: Patch)
    requires Applied(image, original, done, delta, lo, hi)
    requires lo <= block && block + BLOCK_HEADER + 2 * (i + 1) <= hi
    requires p == DecodeEntry(Word(original, block + BLOCK_HEADER + 2 * i), BlockAddress(original, block))
    requires Inside(p, |original|) && Avoids(p, lo, hi)
    ensures LiveEntry(image, block, i, delta) == Some(ApplyPatch(image, p, delta))
    ensures Applied(ApplyPatch(image, p, delta), original, done + [p], delta, lo, hi)
  {
    TableKept(image, original, done, delta, lo, hi);
    DwordSame(original, image, lo, hi, block);
    WordSame(original, image, lo, hi, block + BLOCK_HEADER + 2 * i);
    AppliedOneMore(image, original, done, p, delta, lo, hi);
  }

  lemma LiveEntriesNext(image: seq<u8>, before: seq<u8>, after: seq<u8>, block: nat, n: nat, delta: u32)
    requires LiveEntries(image, block, n, delta) == Some(before)
    requires LiveEntry(before, block, n, delta) == Some(after)
    ensures LiveEntries(image, block, n + 1, delta) == Some(after)
  {}

  lemma BlockPatchesNext(image: seq<u8>, block: nat, n: nat) returns (p: Patch)
    requires block + BLOCK_HEADER + 2 * (n + 1) <= |image|
    ensures p == DecodeEntry(Word(image, block + BLOCK_HEADER + 2 * n), BlockAddress(image, block))
    ensures BlockPatches(image, block, n + 1) == BlockPatches(image, block, n) + [p]
  {
    p := DecodeEntry(Word(image, block + BLOCK_HEADER + 2 * n), BlockAddress(image, block));
  }

  lemma HarmlessParts(ps: seq<Patch>, p: Patch, size: nat, lo: nat, hi: nat)
    requires Harmless(ps + [p], size, lo, hi)
    ensures Harmless(ps, size, lo, hi) && Inside(p, size) && Avoids(p, lo, hi)
  {
    assert (ps + [p])[|ps|] == p;
    assert forall i :: 0 <= i < |ps| ==> ps[i] == (ps + [p])[i];
  }

  lemma {:induction false} LiveEntriesOfOriginal(
      image: seq<u8>, original: seq<u8>, done: seq<Patch>, delta: u32, lo: nat, hi: nat, block: nat, n: nat)
    returns (im: seq<u8>)
    requires Applied(image, original, done, delta, lo, hi)
    requires lo <= block && block + BLOCK_HEADER + 2 * n <= hi
    requires Harmless(BlockPatches(original, block, n), |original|, lo, hi)
    ensures LiveEntries(image, block, n, delta) == Some(im)
    ensures Applied(im, original, done + BlockPatches(original, block, n), delta, lo, hi)
  {
    if n == 0 {
      im := image;
      assert done + [] == done;
    } else {
      var m := n - 1;
      var ps := BlockPatches(original, block, m);
      var p := BlockPatchesNext(original, block, m);
      HarmlessParts(ps, p, |original|, lo, hi);
      var before := LiveEntriesOfOriginal(image, original, done, delta, lo, hi, block, m);
      LiveEntryOfOriginal(before, original, done + ps, delta, lo, hi, block, m, p);
      im := ApplyPatch(before, p, delta);
      LiveEntriesNext(image, before, im, block, m, delta);
      assert done + ps + [p] == done + (ps + [p]);
    }
  }

  lemma LiveBlockOfOriginal(
      image: seq<u8>, original: seq<u8>, dir: nat, size: nat, delta: u32, done: seq<Patch>, block: nat, remaining: int,
      next: nat, rest: int)
    returns (im: seq<u8>, here: seq<Patch>)
    requires Relocatable(original, dir, size) && StandsAt(original, dir, size, done, block, remaining)
    requires Applied(image, original, done, delta, dir, TableEnd(original, dir, size))
    requires remaining > 0 && BlockSize(original, block) > 0
    requires next == block + BlockSize(original, block) && rest == remaining - BlockSize(original, block)
    ensures |im| == |image| && block + BLOCK_HEADER <= |image| && LiveBlock(image, block, delta) == Some(im)
    ensures BlockSize(image, block) == BlockSize(im, block) == BlockSize(original, block)
    ensures StandsAt(original, dir, size, done + here, next, rest)
    ensures Applied(im, original, done + here, delta, dir, TableEnd(original, dir, size))
  {
    var hi := TableEnd(original, dir, size);
    TableKept(image, original, done, delta, dir, hi);
    SizeSame(original, image, dir, hi, block);
    here := NextBlock(original, dir, size, done, block, remaining, next, rest);
    im := LiveEntriesOfOriginal(image, original, done, delta, dir, hi, block, EntryCount(BlockSize(original, block)));
    TableKept(im, original, done + here, delta, dir, hi);
    SizeSame(original, im, dir, hi, block);
  }

  lemma {:induction false} LiveWalkOfOriginal(
      image: seq<u8>, original: seq<u8>, dir: nat, size: nat, delta: u32, done: seq<Patch>, block: nat, remaining: int)
    requires Relocatable(original, dir, size) && StandsAt(original, dir, size, done, block, remaining)
    requires Applied(image, original, done, delta, dir, TableEnd(original, dir, size))
    ensures LiveWalk(image, block, remaining, delta) == Some(Relocated(original, dir, size, delta))
    decreases remaining
  {
    if remaining <= 0 || BlockSize(original, block) == 0 {
      WalkEnds(image, original, dir, size, delta, done, block, remaining);
    } else {
      var size1 := BlockSize(original, block);
      var (next, rest) := (block + size1, remaining - size1);
      var im, here := LiveBlockOfOriginal(image, original, dir, size, delta, done, block, remaining, next, rest);
      LiveWalkOfOriginal(im, original, dir, size, delta, done + here, next, rest);
      LiveWalkOn(image, block, remaining, delta, On(im, next, rest));
    }
  }

  lemma WalkEnds(
      image: seq<u8>, original: seq<u8>, dir: nat, size: nat, delta: u32,
      done: seq<Patch>, block: nat, remaining: int)
    requires Relocatable(original, dir, size) && StandsAt(original, dir, size, done, block, remaining)
    requires Applied(image, original, done, delta, dir, TableEnd(original, dir, size))
    requires remaining <= 0 || BlockSize(original, block) == 0
    ensures LiveWalk(image, block, remaining, delta) == Some(image)
    ensures image == Relocated(original, dir, size, delta)
  {
    assert done + [] == done;
    if remaining > 0 {
      TableKept(image, original, done, delta, dir, TableEnd(original, dir, size));
      SizeSame(original, image, dir, TableEnd(original, dir, size), block);
    }
    LiveWalkOn(image, block, remaining, delta, Over(Some(image)));
  }

  /** The walk over a table that no entry touches stays in the image and applies the entries
      the table holds at the start, in order. */
  lemma WalkAppliesEntries(image: seq<u8>, dir: nat, size: nat, delta: u32)
    requires Relocatable(image, dir, size)
    ensures LiveWalk(image, dir, size, delta) == Live(image, dir, size, delta) == Some(Relocated(image, dir, size, delta))
  {
    assert [] + TablePatches(image, dir, size) == TablePatches(image, dir, size);
    LiveWalkOfOriginal(image, image, dir, size, delta, [], dir, size);
    if delta == 0 { WalkingByZero(image, dir, size); }
  }

  // ----- Relocating images composes

  lemma RelocatableAgain(image: seq<u8>, dir: nat, size: nat, d: u32)
    requires Relocatable(image, dir, size)
    ensures var moved := Relocated(image, dir, size, d);
            Relocatable(moved, dir, size) && TablePatches(moved, dir, size) == TablePatches(image, dir, size)
  {
    var moved := Relocated(image, dir, size, d);
    ApplyFrame(image, TablePatches(image, dir, size), d, dir, TableEnd(image, dir, size));
    ShapeSame(image, moved, dir, TableEnd(image, dir, size), dir, size);
    TableSame(image, moved, dir, TableEnd(image, dir, size), dir, size);
  }

  /** Relocating an image by d and then by e relocates it by d + e, unless HIGH
      entries meet a carry out of the low words. */
  lemma ImageRelocationsCompose(image: seq<u8>, dir: nat, size: nat, d: u32, e: u32)
    requires Relocatable(image, dir, size) && Compatible(TablePatches(image, dir, size))
    requires NoHigh(TablePatches(image, dir, size)) || NoCarry(d, e)
    ensures Live(image, dir, size, d).Some?
    ensures Live(Live(image, dir, size, d).value, dir, size, e) == Live(image, dir, size, Add32(d, e))
  {
    hide Live;
    RelocatableAgain(image, dir, size, d);
    RelocationsCompose(image, TablePatches(image, dir, size), d, e);
    WalkAppliesEntries(image, dir, size, d);
    WalkAppliesEntries(Relocated(image, dir, size, d), dir, size, e);
    WalkAppliesEntries(image, dir, size, Add32(d, e));
  }

  /** Relocating back restores the image. */
  lemma ImageRelocatesBack(image: seq<u8>, dir: nat, size: nat, d: u32)
    requires Relocatable(image, dir, size) && Compatible(TablePatches(image, dir, size))
    requires NoHigh(TablePatches(image, dir, size)) || LowWord(d) == 0
    ensures Live(image, dir, size, d).Some?
    ensures Live(Live(image, dir, size, d).value, dir, size, Negate(d)) == Some(image)
  {
    hide Live;
    RelocatableAgain(image, dir, size, d);
    RelocatingBack(image, TablePatches(image, dir, size), d);
    WalkAppliesEntries(image, dir, size, d);
    WalkAppliesEntries(Relocated(image, dir, size, d), dir, size, Negate(d));
  }

  /** Relocating an image whose entries are disjoint moves the word of each by the amount. */
  lemma ImageWordsMove(image: seq<u8>, dir: nat, size: nat, d: u32, i: nat)
    requires Relocatable(image, dir, size) && i < |TablePatches(image, dir, size)|
    requires forall j, k :: 0 <= j < k < |TablePatches(image, dir, size)| ==>
      Disjoint(TablePatches(image, dir, size)[j], TablePatches(image, dir, size)[k])
    ensures Live(image, dir, size, d).Some? && |Live(image, dir, size, d).value| == |image|
    ensures Moved(image, Live(image, dir, size, d).value, TablePatches(image, dir, size)[i], d)
  {
    hide Live;
    WalkAppliesEntries(image, dir, size, d);
    EachWordMoves(image, TablePatches(image, dir, size), d, i);
  }

  // ----- Serialised tables

  datatype Entry = Entry(kind: u16, offset: u16)
  datatype Block = Block(page: u32, entries: seq<Entry>)

  predicate ValidBlock(b: Block) {
    && BLOCK_HEADER + 2 * |b.entries| < 0x1_0000_0000
    && forall i :: 0 <= i < |b.entries| ==> b.entries[i].kind < 0x10 && b.entries[i].offset < 0x1000
  }

  function EntryBytes(entries: seq<Entry>): (b: seq<u8>)
    requires forall i :: 0 <= i < |entries| ==> entries[i].kind < 0x10 && entries[i].offset < 0x1000
    ensures |b| == 2 * |entries|
  {
    if entries == [] then []
    else
      var e := entries[|entries| - 1];
      EntryBytes(entries[..|entries| - 1]) + WordBytes(0x1000 * e.kind + e.offset)
  }

  function BlockBytes(b: Block): (r: seq<u8>)
    requires ValidBlock(b)
    ensures |r| == BLOCK_HEADER + 2 * |b.entries|
  {
    DwordBytes(b.page) + DwordBytes(BLOCK_HEADER + 2 * |b.entries|) + EntryBytes(b.entries)
  }

  function TableBytes(blocks: seq<Block>): seq<u8>
    requires forall i :: 0 <= i < |blocks| ==> ValidBlock(blocks[i])
  {
    if blocks == [] then [] else BlockBytes(blocks[0]) + TableBytes(blocks[1..])
  }

  function EntryPatches(page: u32, entries: seq<Entry>): seq<Patch> {
    seq(|entries|, i requires 0 <= i < |entries| => Patch(entries[i].kind, page + entries[i].offset))
  }

  function Flatten(blocks: seq<Block>): seq<Patch> {
    if blocks == [] then [] else EntryPatches(blocks[0].page, blocks[0].entries) + Flatten(blocks[1..])
  }

  predicate At(image: seq<u8>, at: nat, bytes: seq<u8>) {
    at + |bytes| <= |image| && image[at..at + |bytes|] == bytes
  }

  lemma AtParts(image: seq<u8>, at: nat, a: seq<u8>, b: seq<u8>)
    requires At(image, at, a + b)
    ensures At(image, at, a) && At(image, at + |a|, b)
  {
    assert image[at..at + |a|] == image[at..at + |a + b|][..|a|] == a;
    assert image[at + |a|..at + |a + b|] == image[at..at + |a + b|][|a|..] == b;
  }

  lemma WordAt(image: seq<u8>, at: nat, v: u16)
    requires At(image, at, WordBytes(v))
    ensures Word(image, at) == v
  {
    assert image[at] == image[at..at + 2][0] && image[at + 1] == image[at..at + 2][1];
  }

  lemma DwordAt(image: seq<u8>, at: nat, v: u32)
    requires At(image, at, DwordBytes(v))
    ensures Dword(image, at) == v
  {}

  lemma DecodeEncoded(e: Entry, page: u32)
    requires e.kind < 0x10 && e.offset < 0x1000
    ensures DecodeEntry(0x1000 * e.kind + e.offset, page) == Patch(e.kind, page + e.offset)
  {}

  lemma {:induction false} EntriesAt(image: seq<u8>, block: nat, page: u32, entries: seq<Entry>)
    requires forall i :: 0 <= i < |entries| ==> entries[i].kind < 0x10 && entries[i].offset < 0x1000
    requires block + BLOCK_HEADER <= |image| && BlockAddress(image, block) == page
    requires At(image, block + BLOCK_HEADER, EntryBytes(entries))
    ensures BlockPatches(image, block, |entries|) == EntryPatches(page, entries)
  {
    if entries != [] {
      var n := |entries| - 1;
      var e := entries[n];
      AtParts(image, block + BLOCK_HEADER, EntryBytes(entries[..n]), WordBytes(0x1000 * e.kind + e.offset));
      EntriesAt(image, block, page, entries[..n]);
      WordAt(image, block + BLOCK_HEADER + 2 * n, 0x1000 * e.kind + e.offset);
      DecodeEncoded(e, page);
      assert EntryPatches(page, entries) == EntryPatches(page, entries[..n]) + [Patch(e.kind, page + e.offset)];
    }
  }

  lemma BlockAt(image: seq<u8>, block: nat, b: Block)
    requires ValidBlock(b) && At(image, block, BlockBytes(b))
    ensures BlockSize(image, block) == BLOCK_HEADER + 2 * |b.entries|
    ensures BlockPatches(image, block, |b.entries|) == EntryPatches(b.page, b.entries)
  {
    var (page, size) := (DwordBytes(b.page), DwordBytes(BLOCK_HEADER + 2 * |b.entries|));
    AtParts(image, block, page + size, EntryBytes(b.entries));
    AtParts(image, block, page, size);
    DwordAt(image, block, b.page);
    DwordAt(image, block + 4, BLOCK_HEADER + 2 * |b.entries|);
    EntriesAt(image, block, b.page, b.entries);
  }

  /** The walk over the table finds these patches and ends with the table. */
  ghost predicate Walks(image: seq<u8>, dir: nat, size: nat, patches: seq<Patch>) {
    && WellFormed(image, dir, size)
    && TableEnd(image, dir, size) == dir + size
    && TablePatches(image, dir, size) == patches
  }

  lemma WalkBlock(image: seq<u8>, dir: nat, size: nat, b: Block, next: nat, rest: nat, patches: seq<Patch>)
    requires ValidBlock(b) && At(image, dir, BlockBytes(b))
    requires next == dir + |BlockBytes(b)| && size == |BlockBytes(b)| + rest
    requires Walks(image, next, rest, patches)
    ensures Walks(image, dir, size, EntryPatches(b.page, b.entries) + patches)
  {
    hide DecodeEntry;
    BlockAt(image, dir, b);
    assert EntryCount(|BlockBytes(b)|) == |b.entries|;
  }

  /** Walking a serialised table finds exactly the entries that were serialised, in order. */
  lemma {:induction false} SerialisedTableWalk(image: seq<u8>, dir: nat, blocks: seq<Block>)
    requires forall i :: 0 <= i < |blocks| ==> ValidBlock(blocks[i])
    requires At(image, dir, TableBytes(blocks))
    ensures Walks(image, dir, |TableBytes(blocks)|, Flatten(blocks))
    decreases |blocks|
  {
    if blocks != [] {
      var (first, tail) := (BlockBytes(blocks[0]), TableBytes(blocks[1..]));
      var (next, rest, size) := (dir + |first|, |tail|, |TableBytes(blocks)|);
      assert size == |first| + rest;
      AtParts(image, dir, first, tail);
      SerialisedTableWalk(image, next, blocks[1..]);
      WalkBlock(image, dir, size, blocks[0], next, rest, Flatten(blocks[1..]));
    }
  }
}
