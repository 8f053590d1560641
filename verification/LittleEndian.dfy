/** Little-endian 16- and 32-bit words inside a byte buffer. */
module LittleEndian {
  import opened Splices

  function Word(s: seq<bv8>, i: nat): bv16
    requires i + 2 <= |s|
  {
    (s[i] as bv16) | ((s[i + 1] as bv16) << 8)
  }

  function Dword(s: seq<bv8>, i: nat): bv32
    requires i + 4 <= |s|
  {
    (s[i] as bv32) | ((s[i + 1] as bv32) << 8) | ((s[i + 2] as bv32) << 16) | ((s[i + 3] as bv32) << 24)
  }

  function WordBytes(v: bv16): (b: seq<bv8>)
    ensures |b| == 2 && Word(b, 0) == v
  {
    [(v & 0xFF) as bv8, (v >> 8) as bv8]
  }

  function DwordBytes(v: bv32): (b: seq<bv8>)
    ensures |b| == 4 && Dword(b, 0) == v
  {
    [(v & 0xFF) as bv8, ((v >> 8) & 0xFF) as bv8, ((v >> 16) & 0xFF) as bv8, (v >> 24) as bv8]
  }

  function PutWord(s: seq<bv8>, i: nat, v: bv16): seq<bv8>
    requires i + 2 <= |s|
  {
    Splice(s, i, WordBytes(v))
  }

  function PutDword(s: seq<bv8>, i: nat, v: bv32): seq<bv8>
    requires i + 4 <= |s|
  {
    Splice(s, i, DwordBytes(v))
  }

  lemma DwordIsWindow(s: seq<bv8>, i: nat)
    requires i + 4 <= |s|
    ensures Dword(s, i) == Dword(s[i..i + 4], 0) && DwordBytes(Dword(s, i)) == s[i..i + 4]
  {
    DwordOfBytes(s[i], s[i + 1], s[i + 2], s[i + 3]);
    assert s[i..i + 4] == [s[i], s[i + 1], s[i + 2], s[i + 3]];
  }

  lemma DwordOfBytes(a: bv8, b: bv8, c: bv8, d: bv8)
    ensures DwordBytes(Dword([a, b, c, d], 0)) == [a, b, c, d]
  {}

  /** A word that was put is the word read back. */
  lemma DwordPut(s: seq<bv8>, i: nat, v: bv32)
    requires i + 4 <= |s|
    ensures Dword(PutDword(s, i, v), i) == v
  {
    DwordIsWindow(PutDword(s, i, v), i);
  }

  /** Putting back what a word was undoes putting another. */
  lemma DwordUndo(s: seq<bv8>, i: nat, v: bv32)
    requires i + 4 <= |s|
    ensures PutDword(PutDword(s, i, v), i, Dword(s, i)) == s
  {
    DwordIsWindow(s, i);
  }

  lemma WordOfBytesAt(s: seq<bv8>, i: nat)
    requires i + 2 <= |s|
    ensures Word(s, i) == Word([s[i], s[i + 1]], 0)
  {}

  /** A word is a function of its own bytes. */
  lemma DwordFrame(s: seq<bv8>, t: seq<bv8>, i: nat)
    requires i + 4 <= |s| && i + 4 <= |t| && s[i..i + 4] == t[i..i + 4]
    ensures Dword(s, i) == Dword(t, i)
  {
    DwordIsWindow(s, i);
    DwordIsWindow(t, i);
  }

  /** The byte at the lower address counts least. */
  lemma LowestFirst(a: bv8, b: bv8, c: bv8, d: bv8)
    ensures Word([a, b], 0) & 0xFF == a as bv16 && Word([a, b], 0) >> 8 == b as bv16
    ensures var v := Dword([a, b, c, d], 0);
      && v & 0xFF == a as bv32 && (v >> 8) & 0xFF == b as bv32 && (v >> 16) & 0xFF == c as bv32 && v >> 24 == d as bv32
  {}
}
