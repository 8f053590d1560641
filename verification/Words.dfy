/** Words in sequences of bytes, in little-endian order. */
module Words {
  import opened Integers

  function Word(s: seq<u8>, i: nat): u16
    requires i + 2 <= |s|
  {
    s[i] as int + 0x100 * s[i + 1] as int
  }

  function Dword(s: seq<u8>, i: nat): u32
    requires i + 4 <= |s|
  {
    s[i] as int + 0x100 * (s[i + 1] as int + 0x100 * (s[i + 2] as int + 0x100 * s[i + 3] as int))
  }

  function WordBytes(v: u16): (b: seq<u8>)
    ensures |b| == 2 && Word(b, 0) == v
  {
    [v % 0x100, v / 0x100]
  }

  function DwordBytes(v: u32): (b: seq<u8>)
    ensures |b| == 4 && Dword(b, 0) == v
  {
    var (u, t, w) := (v / 0x100, v / 0x100 / 0x100, v / 0x100 / 0x100 / 0x100);
    [v % 0x100, u % 0x100, t % 0x100, w]
  }

  lemma WordOfBytes(w: seq<u8>)
    requires |w| == 2
    ensures WordBytes(Word(w, 0)) == w
  {}

  lemma DwordOfBytes(w: seq<u8>)
    requires |w| == 4
    ensures DwordBytes(Dword(w, 0)) == w
  {
    var t := w[2] as int + 0x100 * w[3] as int;
    var u := w[1] as int + 0x100 * t;
    LowByte(w[2], w[3]);
    LowByte(w[1], t);
    LowByte(w[0], u);
  }

  lemma LowByte(a: u8, rest: nat)
    ensures (a as int + 0x100 * rest) % 0x100 == a && (a as int + 0x100 * rest) / 0x100 == rest
  {}

  /** The byte at the lower address counts least. */
  lemma LowestFirst(s: seq<u8>, i: nat)
    ensures i + 2 <= |s| ==> Word(s, i) == s[i] as int + 256 * s[i + 1] as int
    ensures i + 4 <= |s| ==>
      Dword(s, i) == s[i] as int + 256 * s[i + 1] as int + 65536 * s[i + 2] as int + 16777216 * s[i + 3] as int
  {}
}
