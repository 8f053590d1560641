/** Base relocation of a mapped image: what one entry does, what a list of entries
    does, and how relocations compose. */
module Relocation {
  import opened Integers
  import opened Splices
  import opened Words

  // ----- One entry

  // Entry types.
  const ABSOLUTE: u16 := 0
  const HIGH: u16 := 1
  const LOW: u16 := 2
  const HIGHLOW: u16 := 3

  /** A word of the image to be adjusted. */
  datatype Patch = Patch(kind: u16, at: nat)

  function HighWord(d: u32): u16 { d / 0x1_0000 }
  function LowWord(d: u32): u16 { d % 0x1_0000 }

  /** Addition with wrap-around. */
  function Add32(v: u32, d: u32): u32 {
    if v + d < 0x1_0000_0000 then v + d else v + d - 0x1_0000_0000
  }

  function Add16(v: u16, d: u16): u16 {
    if v + d < 0x1_0000 then v + d else v + d - 0x1_0000
  }

  /** The number of bytes an entry adjusts; entries of other types are skipped. */
  function Width(kind: u16): nat {
    if kind == HIGHLOW then 4 else if kind == HIGH || kind == LOW then 2 else 0
  }

  /** The adjusted bytes. */
  function Adjust(kind: u16, window: seq<u8>, delta: u32): (r: seq<u8>)
    requires |window| == Width(kind)
    ensures |r| == |window|
  {
    if kind == HIGHLOW then DwordBytes(Add32(Dword(window, 0), delta))
    else if kind == HIGH then WordBytes(Add16(Word(window, 0), HighWord(delta)))
    else if kind == LOW then WordBytes(Add16(Word(window, 0), LowWord(delta)))
    else []
  }

  /** What the entry adjusts, if anything, lies inside. */
  predicate Inside(p: Patch, size: nat) {
    Width(p.kind) == 0 || p.at + Width(p.kind) <= size
  }

  predicate AllInside(ps: seq<Patch>, size: nat) {
    forall i :: 0 <= i < |ps| ==> Inside(ps[i], size)
  }

  /** The word an entry adjusts. */
  function Window(image: seq<u8>, p: Patch): (w: seq<u8>)
    requires Inside(p, |image|)
    ensures |w| == Width(p.kind)
  {
    if Width(p.kind) == 0 then [] else image[p.at..p.at + Width(p.kind)]
  }

  /** The image with that word replaced. */
  function Replaced(image: seq<u8>, p: Patch, w: seq<u8>): (r: seq<u8>)
    requires Inside(p, |image|) && |w| == Width(p.kind)
    ensures |r| == |image|
  {
    if w == [] then image else Splice(image, p.at, w)
  }

  function ApplyPatch(image: seq<u8>, p: Patch, delta: u32): (r: seq<u8>)
    requires Inside(p, |image|)
    ensures |r| == |image|
  {
    Replaced(image, p, Adjust(p.kind, Window(image, p), delta))
  }

  /** Applying a list of entries in order. */
  function ApplyAll(image: seq<u8>, ps: seq<Patch>, delta: u32): (r: seq<u8>)
    requires AllInside(ps, |image|)
    ensures |r| == |image|
  {
    if ps == [] then image
    else ApplyPatch(ApplyAll(image, ps[..|ps| - 1], delta), ps[|ps| - 1], delta)
  }

  lemma {:induction false} ApplyAppend(image: seq<u8>, ps: seq<Patch>, qs: seq<Patch>, delta: u32)
    requires AllInside(ps, |image|) && AllInside(qs, |image|)
    ensures AllInside(ps + qs, |image|)
    ensures ApplyAll(image, ps + qs, delta) == ApplyAll(ApplyAll(image, ps, delta), qs, delta)
  {
    if qs == [] {
      assert ps + qs == ps;
    } else {
      assert (ps + qs)[..|ps + qs| - 1] == ps + qs[..|qs| - 1];
      ApplyAppend(image, ps, qs[..|qs| - 1], delta);
    }
  }

  // ----- Frame

  /** The entry adjusts nothing in [lo, hi). */
  predicate Avoids(p: Patch, lo: nat, hi: nat) {
    p.at + Width(p.kind) <= lo || hi <= p.at || Width(p.kind) == 0 || lo == hi
  }

  /** Bytes that no entry adjusts keep their values. */
  lemma {:induction false} ApplyFrame(image: seq<u8>, ps: seq<Patch>, delta: u32, lo: nat, hi: nat)
    requires AllInside(ps, |image|) && lo <= hi <= |image|
    requires forall i :: 0 <= i < |ps| ==> Avoids(ps[i], lo, hi)
    ensures ApplyAll(image, ps, delta)[lo..hi] == image[lo..hi]
  {
    if ps != [] {
      ApplyFrame(image, ps[..|ps| - 1], delta, lo, hi);
      PatchFrame(ApplyAll(image, ps[..|ps| - 1], delta), ps[|ps| - 1], delta, lo, hi);
    }
  }

  lemma PatchFrame(image: seq<u8>, p: Patch, delta: u32, lo: nat, hi: nat)
    requires Inside(p, |image|) && lo <= hi <= |image| && Avoids(p, lo, hi)
    ensures ApplyPatch(image, p, delta)[lo..hi] == image[lo..hi]
  {
    if lo < hi && Width(p.kind) > 0 {
      SpliceFrame(image, p.at, Adjust(p.kind, Window(image, p), delta), lo, hi);
    }
  }

  // ----- Entries commute

  predicate Disjoint(p: Patch, q: Patch) {
    || p.at + Width(p.kind) <= q.at || q.at + Width(q.kind) <= p.at
    || Width(p.kind) == 0 || Width(q.kind) == 0
  }

  /** Any two entries adjust the same word in the same way, or disjoint words. */
  predicate Compatible(ps: seq<Patch>) {
    forall i, j :: 0 <= i < j < |ps| ==> ps[i] == ps[j] || Disjoint(ps[i], ps[j])
  }

  lemma AdjustCommutes(kind: u16, w: seq<u8>, d: u32, e: u32)
    requires |w| == Width(kind)
    ensures Adjust(kind, Adjust(kind, w, d), e) == Adjust(kind, Adjust(kind, w, e), d)
  {
    if kind == HIGHLOW {
      AddSwap32(Dword(w, 0), d, e);
    } else if kind == HIGH {
      AddSwap16(Word(w, 0), HighWord(d), HighWord(e));
    } else if kind == LOW {
      AddSwap16(Word(w, 0), LowWord(d), LowWord(e));
    }
  }

  lemma AddSwap32(v: u32, d: u32, e: u32)
    ensures Add32(Add32(v, d), e) == Add32(Add32(v, e), d)
  {}

  lemma AddSwap16(v: u16, d: u16, e: u16)
    ensures Add16(Add16(v, d), e) == Add16(Add16(v, e), d)
  {}

  lemma PatchTwice(image: seq<u8>, p: Patch, d: u32, e: u32)
    requires Inside(p, |image|)
    ensures ApplyPatch(ApplyPatch(image, p, d), p, e)
         == Replaced(image, p, Adjust(p.kind, Adjust(p.kind, Window(image, p), d), e))
  {
    var w := Window(image, p);
    if w != [] { SpliceTwice(image, p.at, Adjust(p.kind, w, d), Adjust(p.kind, Adjust(p.kind, w, d), e)); }
  }

  /** A word that a patch avoids is still there after it. */
  lemma WindowKept(image: seq<u8>, p: Patch, d: u32, q: Patch)
    requires Inside(p, |image|) && Inside(q, |image|) && Avoids(p, q.at, q.at + Width(q.kind))
    ensures Window(ApplyPatch(image, p, d), q) == Window(image, q)
  {
    hide Adjust, Replaced;
    if Width(q.kind) > 0 { PatchFrame(image, p, d, q.at, q.at + Width(q.kind)); }
  }

  lemma ReplacedSwap(image: seq<u8>, p: Patch, v: seq<u8>, q: Patch, w: seq<u8>)
    requires Inside(p, |image|) && Inside(q, |image|) && Disjoint(p, q)
    requires |v| == Width(p.kind) && |w| == Width(q.kind)
    ensures Replaced(Replaced(image, p, v), q, w) == Replaced(Replaced(image, q, w), p, v)
  {
    if v != [] && w != [] { SpliceSwap(image, p.at, v, q.at, w); }
  }

  lemma PatchesCommute(image: seq<u8>, p: Patch, d: u32, q: Patch, e: u32)
    requires Inside(p, |image|) && Inside(q, |image|)
    requires p == q || Disjoint(p, q)
    ensures ApplyPatch(ApplyPatch(image, p, d), q, e) == ApplyPatch(ApplyPatch(image, q, e), p, d)
  {
    hide Adjust, Replaced;
    if p == q {
      PatchTwice(image, p, d, e);
      PatchTwice(image, p, e, d);
      AdjustCommutes(p.kind, Window(image, p), d, e);
    } else {
      WindowKept(image, p, d, q);
      WindowKept(image, q, e, p);
      ReplacedSwap(image, p, Adjust(p.kind, Window(image, p), d), q, Adjust(q.kind, Window(image, q), e));
    }
  }

  lemma {:induction false} CommuteAll(image: seq<u8>, p: Patch, d: u32, qs: seq<Patch>, e: u32)
    requires Inside(p, |image|) && AllInside(qs, |image|)
    requires forall i :: 0 <= i < |qs| ==> qs[i] == p || Disjoint(qs[i], p)
    ensures ApplyAll(ApplyPatch(image, p, d), qs, e) == ApplyPatch(ApplyAll(image, qs, e), p, d)
  {
    if qs != [] {
      var n := |qs| - 1;
      CommuteAll(image, p, d, qs[..n], e);
      PatchesCommute(ApplyAll(image, qs[..n], e), p, d, qs[n], e);
    }
  }

  // ----- Relocations compose

  /** Adding the low words of two amounts carries nothing into the high word. */
  predicate NoCarry(d: u32, e: u32) {
    LowWord(d) + LowWord(e) <= 0xFFFF
  }

  predicate NoHigh(ps: seq<Patch>) {
    forall i :: 0 <= i < |ps| ==> ps[i].kind != HIGH
  }

  lemma SplitWord(d: u32)
    ensures d == 0x1_0000 * HighWord(d) as int + LowWord(d) as int
  {}

  lemma LowOfSum(d: u32, e: u32)
    ensures LowWord(Add32(d, e)) == Add16(LowWord(d), LowWord(e))
  {
    SplitWord(d);
    SplitWord(e);
    SplitWord(Add32(d, e));
  }

  lemma LowWordsAdd(v: u16, d: u32, e: u32)
    ensures Add16(Add16(v, LowWord(d)), LowWord(e)) == Add16(v, LowWord(Add32(d, e)))
  {
    LowOfSum(d, e);
  }

  /** High words add up exactly when the low words do not carry. */
  lemma HighWordsAdd(v: u16, d: u32, e: u32)
    ensures Add16(Add16(v, HighWord(d)), HighWord(e)) == Add16(v, HighWord(Add32(d, e))) <==> NoCarry(d, e)
  {}

  lemma DwordsAdd(v: u32, d: u32, e: u32)
    ensures Add32(Add32(v, d), e) == Add32(v, Add32(d, e))
  {}

  lemma AdjustAdds(kind: u16, w: seq<u8>, d: u32, e: u32)
    requires |w| == Width(kind)
    ensures Adjust(kind, Adjust(kind, w, d), e) == Adjust(kind, w, Add32(d, e))
       <==> kind != HIGH || NoCarry(d, e)
  {
    if kind == HIGHLOW {
      DwordsAdd(Dword(w, 0), d, e);
    } else if kind == LOW {
      LowWordsAdd(Word(w, 0), d, e);
    } else if kind == HIGH {
      HighWordsAdd(Word(w, 0), d, e);
      var once := Add16(Word(w, 0), HighWord(d));
      assert Word(Adjust(kind, Adjust(kind, w, d), e), 0) == Add16(once, HighWord(e));
      assert Word(Adjust(kind, w, Add32(d, e)), 0) == Add16(Word(w, 0), HighWord(Add32(d, e)));
    }
  }

  /** Relocating by d and then by e is relocating by d + e. */
  lemma {:induction false} RelocationsCompose(image: seq<u8>, ps: seq<Patch>, d: u32, e: u32)
    requires AllInside(ps, |image|) && Compatible(ps)
    requires NoHigh(ps) || NoCarry(d, e)
    ensures ApplyAll(ApplyAll(image, ps, d), ps, e) == ApplyAll(image, ps, Add32(d, e))
  {
    if ps != [] {
      var n := |ps| - 1;
      var (qs, p) := (ps[..n], ps[n]);
      var once := ApplyAll(image, qs, d);
      CommuteAll(once, p, d, qs, e);
      RelocationsCompose(image, qs, d, e);
      var twice := ApplyAll(image, qs, Add32(d, e));
      PatchTwice(twice, p, d, e);
      AdjustAdds(p.kind, Window(twice, p), d, e);
    }
  }

  lemma {:induction false} WindowKeptByAll(image: seq<u8>, ps: seq<Patch>, d: u32, q: Patch)
    requires AllInside(ps, |image|) && Inside(q, |image|)
    requires forall j :: 0 <= j < |ps| ==> Disjoint(ps[j], q)
    ensures Window(ApplyAll(image, ps, d), q) == Window(image, q)
  {
    hide Adjust, Replaced;
    if ps != [] {
      var n := |ps| - 1;
      WindowKeptByAll(image, ps[..n], d, q);
      WindowKept(ApplyAll(image, ps[..n], d), ps[n], d, q);
    }
  }


  /** The word an entry adjusts ends up adjusted by that entry alone. */
  lemma {:induction false} WordAfter(image: seq<u8>, ps: seq<Patch>, d: u32, i: nat)
    requires AllInside(ps, |image|) && i < |ps|
    requires forall j, k :: 0 <= j < k < |ps| ==> Disjoint(ps[j], ps[k])
    ensures Window(ApplyAll(image, ps, d), ps[i]) == Adjust(ps[i].kind, Window(image, ps[i]), d)
    decreases |ps|
  {
    hide Adjust, Replaced;
    var n := |ps| - 1;
    var before := ApplyAll(image, ps[..n], d);
    if i < n {
      WordAfter(image, ps[..n], d, i);
      assert Disjoint(ps[i], ps[n]);
      WindowKept(before, ps[n], d, ps[i]);
    } else {
      WindowKeptByAll(image, ps[..n], d, ps[n]);
      PatchedWindow(before, ps[n], d);
    }
  }

  lemma PatchedWindow(image: seq<u8>, p: Patch, d: u32)
    requires Inside(p, |image|)
    ensures Window(ApplyPatch(image, p, d), p) == Adjust(p.kind, Window(image, p), d)
  {}

  lemma DwordAdjusted(w: seq<u8>, d: u32)
    requires |w| == 4
    ensures Dword(Adjust(HIGHLOW, w, d), 0) == (Dword(w, 0) + d) % 0x1_0000_0000
  {}

  lemma WordAdjusted(w: seq<u8>, d: u32)
    requires |w| == 2
    ensures Word(Adjust(LOW, w, d), 0) == (Word(w, 0) + d % 0x1_0000) % 0x1_0000
    ensures Word(Adjust(HIGH, w, d), 0) == (Word(w, 0) + d / 0x1_0000) % 0x1_0000
  {}

  /** The entry types are those of the PE format. An entry of type 3 moves its 32-bit word by
      the whole amount, one of type 2 its 16-bit word by the low half, one of type 1 by the
      high half; the word moves up, and wraps. */
  ghost predicate Moved(before: seq<u8>, after: seq<u8>, p: Patch, d: u32)
    requires |after| == |before|
  {
    && (p.kind == 3 ==> p.at + 4 <= |before| && Dword(after, p.at) == (Dword(before, p.at) + d) % 0x1_0000_0000)
    && (p.kind == 2 ==> p.at + 2 <= |before| && Word(after, p.at) == (Word(before, p.at) + d % 0x1_0000) % 0x1_0000)
    && (p.kind == 1 ==> p.at + 2 <= |before| && Word(after, p.at) == (Word(before, p.at) + d / 0x1_0000) % 0x1_0000)
  }

  /** Where entries are disjoint, each word ends where its entry moves it, once. */
  lemma EachWordMoves(image: seq<u8>, ps: seq<Patch>, d: u32, i: nat)
    requires AllInside(ps, |image|) && i < |ps|
    requires forall j, k :: 0 <= j < k < |ps| ==> Disjoint(ps[j], ps[k])
    ensures Moved(image, ApplyAll(image, ps, d), ps[i], d)
  {
    hide ApplyAll;
    var (p, after) := (ps[i], ApplyAll(image, ps, d));
    WordAfter(image, ps, d, i);
    if p.kind == HIGHLOW {
      DwordAdjusted(Window(image, p), d);
      DwordOfWindow(image, p);
      DwordOfWindow(after, p);
    } else if p.kind == HIGH || p.kind == LOW {
      WordAdjusted(Window(image, p), d);
      WordOfWindow(image, p);
      WordOfWindow(after, p);
    }
  }

  lemma DwordOfWindow(image: seq<u8>, p: Patch)
    requires Inside(p, |image|) && p.kind == HIGHLOW
    ensures Dword(Window(image, p), 0) == Dword(image, p.at)
  {}

  lemma WordOfWindow(image: seq<u8>, p: Patch)
    requires Inside(p, |image|) && (p.kind == HIGH || p.kind == LOW)
    ensures Word(Window(image, p), 0) == Word(image, p.at)
  {}

  /** For disjoint entries the law holds exactly when there is no HIGH entry or the
      low words do not carry. */
  lemma ComposesExactlyWhen(image: seq<u8>, ps: seq<Patch>, d: u32, e: u32)
    requires AllInside(ps, |image|)
    requires forall j, k :: 0 <= j < k < |ps| ==> Disjoint(ps[j], ps[k])
    ensures ApplyAll(ApplyAll(image, ps, d), ps, e) == ApplyAll(image, ps, Add32(d, e))
       <==> NoHigh(ps) || NoCarry(d, e)
  {
    if NoHigh(ps) || NoCarry(d, e) {
      RelocationsCompose(image, ps, d, e);
    } else {
      var i :| 0 <= i < |ps| && ps[i].kind == HIGH;
      WordAfter(image, ps, d, i);
      WordAfter(ApplyAll(image, ps, d), ps, e, i);
      WordAfter(image, ps, Add32(d, e), i);
      AdjustAdds(HIGH, Window(image, ps[i]), d, e);
    }
  }

  lemma AdjustByZero(kind: u16, w: seq<u8>)
    requires |w| == Width(kind)
    ensures Adjust(kind, w, 0) == w
  {
    if kind == HIGHLOW {
      DwordOfBytes(w);
    } else if kind == HIGH || kind == LOW {
      WordOfBytes(w);
    }
  }

  lemma PatchingByZero(image: seq<u8>, p: Patch)
    requires Inside(p, |image|)
    ensures ApplyPatch(image, p, 0) == image
  {
    AdjustByZero(p.kind, Window(image, p));
    if Width(p.kind) > 0 { SpliceSelf(image, p.at, Width(p.kind)); }
  }

  /** Relocating by nothing changes nothing. */
  lemma {:induction false} RelocatingByZero(image: seq<u8>, ps: seq<Patch>)
    requires AllInside(ps, |image|)
    ensures ApplyAll(image, ps, 0) == image
  {
    if ps != [] {
      RelocatingByZero(image, ps[..|ps| - 1]);
      PatchingByZero(image, ps[|ps| - 1]);
    }
  }

  function Negate(d: u32): u32 { if d == 0 then 0 else 0x1_0000_0000 - d }

  lemma Opposite(d: u32)
    ensures Add32(d, Negate(d)) == 0
    ensures NoCarry(d, Negate(d)) <==> LowWord(d) == 0
  {}

  /** Relocating back restores the image. */
  lemma RelocatingBack(image: seq<u8>, ps: seq<Patch>, d: u32)
    requires AllInside(ps, |image|) && Compatible(ps)
    requires NoHigh(ps) || LowWord(d) == 0
    ensures ApplyAll(ApplyAll(image, ps, d), ps, Negate(d)) == image
  {
    Opposite(d);
    RelocationsCompose(image, ps, d, Negate(d));
    RelocatingByZero(image, ps);
  }

  /** For disjoint entries it does exactly when there is no HIGH entry or the low word of
      the amount is zero. */
  lemma RestoresExactlyWhen(image: seq<u8>, ps: seq<Patch>, d: u32)
    requires AllInside(ps, |image|)
    requires forall j, k :: 0 <= j < k < |ps| ==> Disjoint(ps[j], ps[k])
    ensures ApplyAll(ApplyAll(image, ps, d), ps, Negate(d)) == image <==> NoHigh(ps) || LowWord(d) == 0
  {
    Opposite(d);
    ComposesExactlyWhen(image, ps, d, Negate(d));
    RelocatingByZero(image, ps);
  }

  /** One HIGH entry, relocated by a half and by another half of 0x1_0000: the carry is lost. */
  lemma HighEntryLosesCarry()
    ensures var (image, ps) := ([0, 0], [Patch(HIGH, 0)]);
      ApplyAll(ApplyAll(image, ps, 0x8000), ps, 0x8000) != ApplyAll(image, ps, Add32(0x8000, 0x8000))
  {
    ComposesExactlyWhen([0, 0], [Patch(HIGH, 0)], 0x8000, 0x8000);
  }
}
