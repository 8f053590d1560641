/** Facts about single bytes, proved bit by bit. */
module ByteBits {

  lemma XorTwice(a: bv8, k: bv8)
    ensures (a ^ k) ^ k == a
  {}

  /** The key as the encoder computes it from the plain byte. */
  function PlainStep(key: bv8, p: bv8): bv8 { key + p + 0x57 }

  /** A key in two parts: what the number of bytes gives and what the bytes give. */
  predicate IsSum(key: bv8, counted: bv8, sum: bv8) {
    key == counted + sum
  }

  lemma SumStep(key: bv8, counted: bv8, sum: bv8, p: bv8)
    requires IsSum(key, counted, sum)
    ensures IsSum(PlainStep(key, p), counted + 0x57, sum + p)
  {}

  /** Two bytes agree on the bits a mask selects. */
  predicate SameBits(m: bv8, x: bv8, y: bv8) {
    x & m == y & m
  }

  /** Two bytes agree on the low bits a mask 2^n - 1 selects. */
  predicate Agree(m: bv8, k: bv8, l: bv8) {
    m & (m + 1) == 0 && SameBits(m, k, l)
  }

  function OneBitMore(m: bv8): bv8 { m + m + 1 }

  const W: bv8 := 0x57

  /** The key after a byte was decoded to p. */
  function NextKey(key: bv8, p: bv8): bv8 {
    key + (p + W)
  }

  /** The key after a cipher byte was decoded with `key`. */
  function Step(key: bv8, c: bv8): bv8 {
    NextKey(key, c ^ key)
  }

  lemma XorAgrees(m: bv8, c: bv8, k: bv8, d: bv8, l: bv8)
    requires SameBits(m, c, d) && Agree(m, k, l)
    ensures SameBits(m, c ^ k, d ^ l)
  {}

  /** If two keys agree on n low bits, the keys that follow cipher bytes that agree on one
      bit more agree on one bit more. */
  lemma AgreeStep(m: bv8, k: bv8, l: bv8, c: bv8, d: bv8)
    requires Agree(m, k, l) && SameBits(OneBitMore(m), c, d)
    ensures Agree(OneBitMore(m), Step(k, c), Step(l, d))
  {}
}

module BlobCodec {
  import opened ByteBits

  /** Running a step function over a sequence. */
  function Fold<K, C>(step: (K, C) -> K, k: K, s: seq<C>): K {
    if s == [] then k else step(Fold(step, k, s[..|s| - 1]), s[|s| - 1])
  }

  /** The key in force after `cipher` was decoded, starting from `key`. */
  function KeyAfter(key: bv8, cipher: seq<bv8>): bv8 {
    Fold(Step, key, cipher)
  }

  /** Decoding: each byte is combined with the key its predecessors left. */
  function Decode(key: bv8, cipher: seq<bv8>): (plain: seq<bv8>)
    ensures |plain| == |cipher|
  {
    seq(|cipher|, i requires 0 <= i < |cipher| => cipher[i] ^ KeyAfter(key, cipher[..i]))
  }

  /** The key as the plain text alone determines it: one W to begin with, and for
      each earlier plain byte that byte and one more W, modulo 256. */
  function PlainKey(plain: seq<bv8>): bv8 {
    if plain == [] then 0x57
    else PlainStep(PlainKey(plain[..|plain| - 1]), plain[|plain| - 1])
  }

  /** Encoding, position by position. */
  function Encode(plain: seq<bv8>): (cipher: seq<bv8>)
    ensures |cipher| == |plain|
  {
    seq(|plain|, i requires 0 <= i < |plain| => plain[i] ^ PlainKey(plain[..i]))
  }

  // ----- Decoding and encoding undo each other

  /** Decoding a prefix gives a prefix of the decoding. */
  lemma DecodePrefix(key: bv8, cipher: seq<bv8>, n: nat)
    requires n <= |cipher|
    ensures Decode(key, cipher[..n]) == Decode(key, cipher)[..n]
  {
    forall i | 0 <= i < n
      ensures Decode(key, cipher[..n])[i] == Decode(key, cipher)[i]
    {
      assert cipher[..n][..i] == cipher[..i];
    }
  }

  /** The evolving key depends on the plain text only. */
  lemma {:induction false} KeyIsPlainKey(cipher: seq<bv8>)
    ensures KeyAfter(W, cipher) == PlainKey(Decode(W, cipher))
  {
    if cipher != [] {
      var n := |cipher| - 1;
      KeyIsPlainKey(cipher[..n]);
      DecodePrefix(W, cipher, n);
      PlainKeyStep(KeyAfter(W, cipher[..n]), cipher[n]);
    }
  }

  lemma PlainKeyStep(key: bv8, c: bv8)
    ensures Step(key, c) == PlainStep(key, c ^ key)
  {}

  /** One byte more of cipher text. */
  lemma DecodeSnoc(key: bv8, cipher: seq<bv8>, c: bv8)
    ensures Decode(key, cipher + [c]) == Decode(key, cipher) + [c ^ KeyAfter(key, cipher)]
    ensures KeyAfter(key, cipher + [c]) == Step(KeyAfter(key, cipher), c)
  {
    assert (cipher + [c])[..|cipher|] == cipher;
    DecodePrefix(key, cipher + [c], |cipher|);
  }

  /** Encoding undoes decoding. */
  lemma EncodeDecode(cipher: seq<bv8>)
    ensures Encode(Decode(W, cipher)) == cipher
  {
    var plain := Decode(W, cipher);
    forall i | 0 <= i < |cipher|
      ensures Encode(plain)[i] == cipher[i]
    {
      KeyIsPlainKey(cipher[..i]);
      DecodePrefix(W, cipher, i);
      XorTwice(cipher[i], PlainKey(plain[..i]));
    }
  }

  /** Decoding undoes encoding. */
  lemma {:induction false} DecodeEncode(plain: seq<bv8>)
    ensures Decode(W, Encode(plain)) == plain
  {
    if plain != [] {
      var n := |plain| - 1;
      var cipher := Encode(plain);
      DecodeEncode(plain[..n]);
      EncodePrefix(plain, n);
      DecodePrefix(W, cipher, n);
      KeyIsPlainKey(cipher[..n]);
      XorTwice(plain[n], PlainKey(plain[..n]));
      assert Decode(W, cipher)[n] == plain[n];
      assert Decode(W, cipher) == Decode(W, cipher)[..n] + [plain[n]];
    }
  }

  lemma EncodePrefix(plain: seq<bv8>, n: nat)
    requires n <= |plain|
    ensures Encode(plain)[..n] == Encode(plain[..n])
  {
    forall i | 0 <= i < n
      ensures Encode(plain)[i] == Encode(plain[..n])[i]
    {
      assert plain[..n][..i] == plain[..i];
    }
  }

  // ----- The key in closed form

  /** 'W', which is 0x57, added up n times. */
  function Repeated(n: nat): bv8 {
    if n == 0 then 0 else Repeated(n - 1) + 0x57
  }

  function Sum(s: seq<bv8>): bv8 {
    if s == [] then 0 else Sum(s[..|s| - 1]) + s[|s| - 1]
  }

  lemma FirstKeyIsSum()
    ensures IsSum(0x57, Repeated(1), 0)
  {
    assert Repeated(1) == 0x57;
  }

  /** The key is one 'W' for each plain byte so far and one more, plus those bytes. */
  lemma {:induction false} KeyInClosedForm(plain: seq<bv8>)
    ensures IsSum(PlainKey(plain), Repeated(|plain| + 1), Sum(plain))
  {
    hide IsSum, PlainStep;
    if plain == [] {
      FirstKeyIsSum();
    } else {
      var n := |plain| - 1;
      KeyInClosedForm(plain[..n]);
      SumStep(PlainKey(plain[..n]), Repeated(n + 1), Sum(plain[..n]), plain[n]);
    }
  }

  /** Decoding exclusive-ors each byte with that key. */
  lemma DecodedByte(cipher: seq<bv8>, i: nat) returns (key: bv8)
    requires i < |cipher|
    ensures Decode(W, cipher)[i] == cipher[i] ^ key
    ensures IsSum(key, Repeated(i + 1), Sum(Decode(W, cipher)[..i]))
  {
    hide IsSum;
    key := KeyAfter(W, cipher[..i]);
    KeyIsPlainKey(cipher[..i]);
    DecodePrefix(W, cipher, i);
    KeyInClosedForm(Decode(W, cipher)[..i]);
  }

  // ----- Self-synchronisation

  /** The mask of the low n bits; from eight bits on, of the whole byte. */
  function Ones(n: nat): bv8 {
    if n == 0 then 0 else OneBitMore(Ones(n - 1))
  }

  lemma {:induction false} FoldAppend<K, C>(step: (K, C) -> K, k: K, a: seq<C>, b: seq<C>)
    ensures Fold(step, k, a + b) == Fold(step, Fold(step, k, a), b)
  {
    if b == [] {
      assert a + b == a;
    } else {
      assert (a + b)[..|a + b| - 1] == a + b[..|b| - 1];
      FoldAppend(step, k, a, b[..|b| - 1]);
    }
  }

  /** The first byte agrees on its lowest bit, and each next one on one bit more. */
  ghost predicate AgreeInTurn(s: seq<bv8>, t: seq<bv8>) {
    |s| == |t| && forall j :: 0 <= j < |s| ==> SameBits(Ones(j + 1), s[j], t[j])
  }

  /** Whatever the keys were, after n such bytes they agree on n bits. */
  lemma {:induction false} LowBitsOfKeys(k: bv8, l: bv8, s: seq<bv8>, t: seq<bv8>, n: nat)
    requires |s| == n && AgreeInTurn(s, t)
    ensures Agree(Ones(n), KeyAfter(k, s), KeyAfter(l, t))
  {
    if n > 0 {
      LowBitsOfKeys(k, l, s[..n - 1], t[..n - 1], n - 1);
      AgreeStep(Ones(n - 1), KeyAfter(k, s[..n - 1]), KeyAfter(l, t[..n - 1]), s[n - 1], t[n - 1]);
    }
  }

  lemma LowBitsOfKeysAt(k: bv8, a: seq<bv8>, i: nat, l: bv8, b: seq<bv8>, j: nat, n: nat)
    requires n <= i <= |a| && n <= j <= |b| && AgreeInTurn(a[i - n..i], b[j - n..j])
    ensures Agree(Ones(n), KeyAfter(k, a[..i]), KeyAfter(l, b[..j]))
  {
    var (s, t) := (a[i - n..i], b[j - n..j]);
    assert a[..i] == a[..i - n] + s && b[..j] == b[..j - n] + t;
    FoldAppend(Step, k, a[..i - n], s);
    FoldAppend(Step, l, b[..j - n], t);
    LowBitsOfKeys(KeyAfter(k, a[..i - n]), KeyAfter(l, b[..j - n]), s, t, n);
  }

  /** The low n bits of a decoded byte are a function of the low n bits of its cipher byte
      and of the n cipher bytes before it, of which the j-th counts with its low j bits. */
  lemma LowBitsSynchronise(k: bv8, a: seq<bv8>, i: nat, l: bv8, b: seq<bv8>, j: nat, n: nat)
    requires n <= i < |a| && n <= j < |b|
    requires AgreeInTurn(a[i - n..i], b[j - n..j]) && SameBits(Ones(n), a[i], b[j])
    ensures SameBits(Ones(n), Decode(k, a)[i], Decode(l, b)[j])
  {
    LowBitsOfKeysAt(k, a, i, l, b, j, n);
    XorAgrees(Ones(n), a[i], KeyAfter(k, a[..i]), b[j], KeyAfter(l, b[..j]));
  }

  lemma EightBits()
    ensures Ones(8) == 255
  {
    assert Ones(2) == 3;
    assert Ones(4) == 15;
    assert Ones(6) == 63;
  }

  lemma WholeByte(x: bv8, y: bv8)
    requires SameBits(255, x, y)
    ensures x == y
  {}

  /** Whatever the keys were, eight common cipher bytes make them equal. */
  lemma KeysSynchronise(k: bv8, l: bv8, common: seq<bv8>)
    requires |common| == 8
    ensures KeyAfter(k, common) == KeyAfter(l, common)
  {
    EightBits();
    LowBitsOfKeys(k, l, common, common, 8);
    WholeByte(KeyAfter(k, common), KeyAfter(l, common));
  }

  /** From the ninth byte on, a decoded byte is a function of the last nine
      cipher bytes alone: not of the position, the start key or earlier bytes. */
  lemma SelfSynchronising(k: bv8, a: seq<bv8>, i: nat, l: bv8, b: seq<bv8>, j: nat)
    requires 8 <= i < |a| && 8 <= j < |b|
    requires a[i - 8..i + 1] == b[j - 8..j + 1]
    ensures Decode(k, a)[i] == Decode(l, b)[j]
  {
    assert a[i - 8..i] == a[i - 8..i + 1][..8] == b[j - 8..j];
    assert a[i] == a[i - 8..i + 1][8] == b[j];
    LowBitsSynchronise(k, a, i, l, b, j, 8);
    EightBits();
    WholeByte(Decode(k, a)[i], Decode(l, b)[j]);
  }

  /** Changing one cipher byte alters at most that position and the next eight. */
  lemma ErrorWindow(key: bv8, cipher: seq<bv8>, at: nat, byte: bv8, i: nat)
    requires at < |cipher| && i < |cipher|
    requires i < at || at + 8 < i
    ensures Decode(key, cipher[at := byte])[i] == Decode(key, cipher)[i]
  {
    var changed := cipher[at := byte];
    if i < at {
      assert cipher[..i] == changed[..i];
    } else {
      assert cipher[i - 8..i + 1] == changed[i - 8..i + 1];
      SelfSynchronising(key, cipher, i, key, changed, i);
    }
  }

  /** The window is no wider than it has to be: a changed byte can reach the
      eighth byte after it, because over zero cipher bytes a key difference doubles. */
  lemma ErrorWindowIsTight(zeros: seq<bv8>)
    requires zeros == [0, 0, 0, 0, 0, 0, 0, 0]
    ensures Decode(W, ([0] + zeros)[0 := 1])[8] != Decode(W, [0] + zeros)[8]
  {
    assert ([0] + zeros)[0 := 1] == [1] + zeros;
    assert ([0] + zeros)[..8] == [0] + zeros[..7] && ([1] + zeros)[..8] == [1] + zeros[..7];
    FoldAppend(Step, W, [0], zeros[..7]);
    FoldAppend(Step, W, [1], zeros[..7]);
    KeysOverZeros(Step(W, 0), zeros[..7]);
    KeysOverZeros(Step(W, 1), zeros[..7]);
    assert KeyAfter(W, [0]) == Step(W, 0) && KeyAfter(W, [1]) == Step(W, 1);
  }

  function Doubled(key: bv8, n: nat): bv8 {
    if n == 0 then key else Doubled(key, n - 1) + Doubled(key, n - 1) + W
  }

  lemma {:induction false} KeysOverZeros(key: bv8, zeros: seq<bv8>)
    requires forall j :: 0 <= j < |zeros| ==> zeros[j] == 0
    ensures KeyAfter(key, zeros) == Doubled(key, |zeros|)
  {
    if zeros != [] {
      KeysOverZeros(key, zeros[..|zeros| - 1]);
    }
  }
}
