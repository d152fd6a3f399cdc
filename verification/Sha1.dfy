/**
  SHA-1 and HMAC-SHA-1 of ExternalLibraries/libcppotp/sha1.h, proved against the hash of FIPS 180-4
  (padding of section 5.1.1, functions of section 4.1.1, computation of section 6.1.2) and HMAC of RFC 2104.
 */
module Sha1 {
  import opened Collections

  type Byte = bv8
  type Word = bv32

  // ---------------------------------------------------------------- FIPS 180-4

  /** `n` big-endian bytes of `x` modulo 256^n. */
  function BigEndian(n: nat, x: nat): (b: seq<Byte>)
    ensures |b| == n
  {
    if n == 0 then [] else BigEndian(n - 1, x / 256) + [LowByte(x)]
  }

  /** Section 5.1.1: a one bit, the least number of zero bits up to 448 modulo 512, and the length in bits. */
  function Padded(msg: seq<Byte>): (p: seq<Byte>)
    ensures |p| % 64 == 0
  {
    WholeBlocks(|msg|);
    msg + [0x80] + Repeat<Byte>(0, Gap(|msg|)) + BigEndian(8, 8 * |msg|)
  }

  lemma WholeBlocks(n: nat)
    ensures (n + 1 + Gap(n) + 8) % 64 == 0
  {
    var q := (55 - n) / 64;
    assert 55 - n == 64 * q + Gap(n);
  }

  function Xor(a: Word, b: Word): Word { a ^ b }
  function Xor4(a: Word, b: Word, c: Word, d: Word): Word { Xor(Xor(Xor(a, b), c), d) }
  function Rotl1(x: Word): Word { (x << 1) | (x >> 31) }
  function Rotl2(x: Word): Word { (x << 2) | (x >> 30) }
  function Rotl5(x: Word): Word { (x << 5) | (x >> 27) }
  function Rotl30(x: Word): Word { (x << 30) | (x >> 2) }

  function WordAt(block: seq<Byte>, t: nat): Word
    requires |block| == 64 && t < 16
  {
    (block[4 * t] as Word << 24) | (block[4 * t + 1] as Word << 16)
    | (block[4 * t + 2] as Word << 8) | (block[4 * t + 3] as Word)
  }

  /** Section 6.1.2, step 1: the message schedule, one rotation by one bit a word. */
  function W(block: seq<Byte>, t: nat): Word
    requires |block| == 64
  {
    if t < 16 then WordAt(block, t)
    else Rotl1(Xor4(W(block, t - 3), W(block, t - 8), W(block, t - 14), W(block, t - 16)))
  }

  function Ch(x: Word, y: Word, z: Word): Word { (x & y) ^ (!x & z) }
  function Parity(x: Word, y: Word, z: Word): Word { x ^ y ^ z }
  function Maj(x: Word, y: Word, z: Word): Word { (x & y) ^ (x & z) ^ (y & z) }

  function F(t: nat, x: Word, y: Word, z: Word): Word
  {
    if t < 20 then Ch(x, y, z) else if 40 <= t < 60 then Maj(x, y, z) else Parity(x, y, z)
  }

  function K(t: nat): Word
  {
    if t < 20 then 0x5A827999 else if t < 40 then 0x6ED9EBA1 else if t < 60 then 0x8F1BBCDC else 0xCA62C1D6
  }

  /** The round constants are 2^30 times the square roots of 2, 3, 5 and 10, cut to whole numbers. */
  lemma ConstantsAreRoots()
    ensures IsRoot(K(0) as nat, 2) && IsRoot(K(20) as nat, 3) && IsRoot(K(40) as nat, 5) && IsRoot(K(60) as nat, 10)
    ensures forall t: nat :: t < 80 ==> K(t) == K(t / 20 * 20)
  {
  }

  predicate IsRoot(k: nat, n: nat) { k * k <= n * 0x1000_0000_0000_0000 < (k + 1) * (k + 1) }

  datatype State = State(a: Word, b: Word, c: Word, d: Word, e: Word)

  const INITIAL := State(0x67452301, 0xEFCDAB89, 0x98BADCFE, 0x10325476, 0xC3D2E1F0)

  function Sum5(a: Word, b: Word, c: Word, d: Word, e: Word): Word { a + b + c + d + e }

  function Round(s: State, t: nat, w: Word): State
  {
    State(Sum5(Rotl5(s.a), F(t, s.b, s.c, s.d), s.e, K(t), w), s.a, Rotl30(s.b), s.c, s.d)
  }

  /** Section 6.1.2, step 3: rounds 0 to n-1. */
  function Rounds(block: seq<Byte>, s: State, n: nat): State
    requires |block| == 64
  {
    if n == 0 then s else Round(Rounds(block, s, n - 1), n - 1, W(block, n - 1))
  }

  function Plus(s: State, t: State): State
  {
    State(s.a + t.a, s.b + t.b, s.c + t.c, s.d + t.d, s.e + t.e)
  }

  /** Blocks 0 to n-1 of a padded message. */
  function Blocks(p: seq<Byte>, n: nat): State
    requires 64 * n <= |p|
  {
    if n == 0 then INITIAL
    else
      var s := Blocks(p, n - 1);
      Plus(s, Rounds(p[64 * (n - 1)..64 * n], s, RoundCount()))
  }

  function RoundCount(): (n: nat) ensures n == 80 { 80 }

  function WordBytes(w: Word): (b: seq<Byte>)
    ensures |b| == 4
  {
    [((w >> 24) & 0xFF) as Byte, ((w >> 16) & 0xFF) as Byte, ((w >> 8) & 0xFF) as Byte, (w & 0xFF) as Byte]
  }

  function Digest(s: State): (d: seq<Byte>)
    ensures |d| == 20
  {
    WordBytes(s.a) + WordBytes(s.b) + WordBytes(s.c) + WordBytes(s.d) + WordBytes(s.e)
  }

  function Hash(msg: seq<Byte>): (d: seq<Byte>)
    ensures |d| == 20
  {
    var p := Padded(msg);
    Digest(Blocks(p, |p| / 64))
  }

  // ---------------------------------------------------------------- the forms the source uses instead

  /** The rotate-by-two schedule used from word 32 on computes the same words as the rotate-by-one recurrence. */
  lemma FastSchedule(block: seq<Byte>, t: nat)
    requires |block| == 64 && t >= 32
    ensures W(block, t) == Rotl2(Xor4(W(block, t - 6), W(block, t - 16), W(block, t - 28), W(block, t - 32)))
  {
    hide Rotl1, Rotl2, Xor, Xor4, W, WordAt;
    Recurrence(block, t);
    Recurrence(block, t - 3);
    Recurrence(block, t - 8);
    Recurrence(block, t - 14);
    Recurrence(block, t - 16);
    RotTwice(Xor4(W(block, t - 6), W(block, t - 11), W(block, t - 17), W(block, t - 19)),
             Xor4(W(block, t - 11), W(block, t - 16), W(block, t - 22), W(block, t - 24)),
             Xor4(W(block, t - 17), W(block, t - 22), W(block, t - 28), W(block, t - 30)),
             Xor4(W(block, t - 19), W(block, t - 24), W(block, t - 30), W(block, t - 32)));
    Telescope(W(block, t - 6), W(block, t - 11), W(block, t - 16), W(block, t - 17), W(block, t - 19),
              W(block, t - 22), W(block, t - 24), W(block, t - 28), W(block, t - 30), W(block, t - 32));
  }

  lemma FirstWords(block: seq<Byte>)
    requires |block| == 64
    ensures forall t :: 0 <= t < 16 ==> W(block, t) == WordAt(block, t)
  {
    hide WordAt;
  }

  lemma Recurrence(block: seq<Byte>, t: nat)
    requires |block| == 64 && t >= 16
    ensures W(block, t) == Rotl1(Xor4(W(block, t - 3), W(block, t - 8), W(block, t - 14), W(block, t - 16)))
  {
    hide Rotl1, Xor4;
  }

  /** Rotation distributes over exclusive or, and rotating by one bit twice is rotating by two. */
  lemma RotTwice(a: Word, b: Word, c: Word, d: Word)
    ensures Rotl1(Xor4(Rotl1(a), Rotl1(b), Rotl1(c), Rotl1(d))) == Rotl2(Xor4(a, b, c, d))
  {
    hide Rotl1, Rotl2, Xor;
    RotlXor(a, b);
    RotlXor(Xor(a, b), c);
    RotlXor(Xor(Xor(a, b), c), d);
    RotlRotl(Xor4(a, b, c, d));
  }

  lemma RotlXor(a: Word, b: Word)
    ensures Rotl1(Xor(a, b)) == Xor(Rotl1(a), Rotl1(b))
  {
  }

  lemma RotlRotl(a: Word)
    ensures Rotl1(Rotl1(a)) == Rotl2(a)
  {
  }

  /** Of the ten words under the four inner sums, six occur twice and cancel. */
  lemma Telescope(w6: Word, w11: Word, w16: Word, w17: Word, w19: Word, w22: Word, w24: Word, w28: Word, w30: Word,
                  w32: Word)
    ensures Xor4(Xor4(w6, w11, w17, w19), Xor4(w11, w16, w22, w24), Xor4(w17, w22, w28, w30), Xor4(w19, w24, w30, w32))
         == Xor4(w6, w16, w28, w32)
  {
    hide Xor, Xor4;
    InPairs(w6, w11, w17, w19);
    InPairs(w11, w16, w22, w24);
    InPairs(w17, w22, w28, w30);
    InPairs(w19, w24, w30, w32);
    InPairs(Xor4(w6, w11, w17, w19), Xor4(w11, w16, w22, w24), Xor4(w17, w22, w28, w30), Xor4(w19, w24, w30, w32));
    InPairs(w6, w16, w28, w32);
    var p := Xor(Xor(w17, w19), Xor(w22, w24));
    Interchange(w17, w19, w22, w24);
    Interchange(Xor(w6, w11), Xor(w17, w19), Xor(w11, w16), Xor(w22, w24));
    Bridge(w6, w11, w16);
    Interchange(Xor(w17, w22), Xor(w28, w30), Xor(w19, w24), Xor(w30, w32));
    Bridge(w28, w30, w32);
    Bridge(Xor(w6, w16), p, Xor(w28, w32));
  }

  lemma InPairs(a: Word, b: Word, c: Word, d: Word)
    ensures Xor4(a, b, c, d) == Xor(Xor(a, b), Xor(c, d))
  {
    hide Xor;
    XorAssociates(Xor(a, b), c, d);
  }

  lemma Interchange(a: Word, b: Word, c: Word, d: Word)
    ensures Xor(Xor(a, b), Xor(c, d)) == Xor(Xor(a, c), Xor(b, d))
  {
    hide Xor;
    XorAssociates(a, b, Xor(c, d));
    XorAssociates(b, c, d);
    XorCommutes(b, c);
    XorAssociates(c, b, d);
    XorAssociates(a, c, Xor(b, d));
  }

  lemma Bridge(a: Word, x: Word, b: Word)
    ensures Xor(Xor(a, x), Xor(x, b)) == Xor(a, b)
  {
    hide Xor;
    XorAssociates(a, x, Xor(x, b));
    XorCancels(x, b);
  }

  lemma XorCommutes(a: Word, b: Word)
    ensures Xor(a, b) == Xor(b, a)
  {
  }

  lemma XorAssociates(a: Word, b: Word, c: Word)
    ensures Xor(Xor(a, b), c) == Xor(a, Xor(b, c))
  {
  }

  lemma XorCancels(a: Word, b: Word)
    ensures Xor(a, Xor(a, b)) == b
  {
  }

  /** The or-forms of the choice and majority functions. */
  lemma ChoiceForm(x: Word, y: Word, z: Word)
    ensures (x & y) | (!x & z) == Ch(x, y, z)
  {
  }

  lemma MajorityForm(x: Word, y: Word, z: Word)
    ensures (x & y) | (x & z) | (y & z) == Maj(x, y, z)
  {
  }

  /** The low eight bits of a number. */
  function LowByte(x: nat): Byte { ToByte(x % 256) }

  function ToByte(x: nat): Byte
    requires x < 256
  {
    x as Byte
  }

  function U32Be(x: nat): (b: seq<Byte>)
    ensures |b| == 4
  {
    [LowByte(x / 0x100_0000), LowByte(x / 0x1_0000), LowByte(x / 0x100), LowByte(x)]
  }

  /** The length field, written as two 32-bit halves. */
  function U64Be(x: nat): (b: seq<Byte>)
    ensures |b| == 8
  {
    U32Be(x / 0x1_0000_0000) + U32Be(x % 0x1_0000_0000)
  }

  // ---------------------------------------------------------------- sha1

  /** The number of zero bytes in the padding. */
  function Gap(n: nat): nat { (55 - n) % 64 }

  lemma GapEnds(n: nat, k: nat)
    requires k <= Gap(n)
    ensures (n + 1 + k) % 64 == 56 <==> k == Gap(n)
  {
    var q := (55 - n) / 64;
    assert 55 - n == 64 * q + Gap(n);
    assert n + 1 + k == 56 - 64 * q - (Gap(n) - k);
  }

  /** The two halves of the length field are the eight big-endian bytes of the length modulo 2^64. */
  lemma LengthField(n: nat)
    ensures U64Be(n % 0x1_0000_0000_0000_0000) == BigEndian(8, n)
  {
    hide LowByte, BigEndian, U32Be;
    var m, k := n % 0x1_0000_0000_0000_0000, n / 0x1_0000_0000_0000_0000;
    FourBytes(4, n);
    FourBytes(0, n / 0x1_0000_0000);
    Halves(n, m, k);
    LowBytes(m % 0x1_0000_0000, n, n / 0x1_0000_0000);
    LowBytes(m / 0x1_0000_0000, n / 0x1_0000_0000, k);
    FourBytes(0, n / 0x1_0000_0000 / 0x1_0000_0000);
  }

  lemma Halves(n: nat, m: nat, k: nat)
    requires n == m + k * 0x1_0000_0000_0000_0000
    ensures n == m % 0x1_0000_0000 + (n / 0x1_0000_0000) * 0x1_0000_0000
    ensures n / 0x1_0000_0000 == m / 0x1_0000_0000 + k * 0x1_0000_0000
  {
  }

  lemma FourBytes(k: nat, x: nat)
    ensures BigEndian(k + 4, x) == BigEndian(k, x / 0x1_0000_0000) + U32Be(x)
    ensures BigEndian(0, x) == []
  {
    hide LowByte;
    assert BigEndian(k + 4, x) == BigEndian(k + 3, x / 0x100) + [LowByte(x)];
    assert BigEndian(k + 3, x / 0x100) == BigEndian(k + 2, x / 0x1_0000) + [LowByte(x / 0x100)];
    assert BigEndian(k + 2, x / 0x1_0000) == BigEndian(k + 1, x / 0x100_0000) + [LowByte(x / 0x1_0000)];
    assert BigEndian(k + 1, x / 0x100_0000) == BigEndian(k, x / 0x1_0000_0000) + [LowByte(x / 0x100_0000)];
  }

  /** Numbers that agree modulo 2^32 have the same four low bytes. */
  lemma LowBytes(x: nat, y: nat, k: nat)
    requires y == x + k * 0x1_0000_0000
    ensures U32Be(x) == U32Be(y)
  {
    hide LowByte;
    SameLow(x, y, k * 0x100_0000);
    SameLow(x / 0x100, y / 0x100, k * 0x1_0000);
    SameLow(x / 0x1_0000, y / 0x1_0000, k * 0x100);
    SameLow(x / 0x100_0000, y / 0x100_0000, k);
  }

  lemma SameLow(x: nat, y: nat, k: nat)
    requires y == x + k * 0x100
    ensures LowByte(x) == LowByte(y)
  {
    hide ToByte;
    assert x % 256 == y % 256;
  }

  method Pad(msg: seq<Byte>) returns (bstr: seq<Byte>)
    ensures bstr == Padded(msg)
  {
    hide BigEndian, U64Be;
    bstr := msg + [0x80];
    ghost var k := 0;
    GapEnds(|msg|, 0);
    while |bstr| % 64 != 56
      invariant 0 <= k <= Gap(|msg|) && bstr == msg + [0x80] + Repeat<Byte>(0, k)
      invariant |bstr| % 64 == 56 <==> k == Gap(|msg|)
      decreases Gap(|msg|) - k
    {
      bstr := bstr + [0];
      k := k + 1;
      GapEnds(|msg|, k);
    }
    assert k == Gap(|msg|);
    LengthField(8 * |msg|);
    bstr := bstr + U64Be(8 * |msg| % 0x1_0000_0000_0000_0000);
  }

  /** The 80 words of one chunk, filled in as the source does it. */
  method Expand(chunk: seq<Byte>) returns (words: array<Word>)
    requires |chunk| == 64
    ensures fresh(words) && words.Length == 80 && forall t :: 0 <= t < 80 ==> words[t] == W(chunk, t)
  {
    hide Rotl1, Rotl2, Xor, Xor4, W, WordAt;
    words := new Word[80];
    var j := 0;
    while j < 16
      invariant 0 <= j <= 16
      invariant forall t :: 0 <= t < j ==> words[t] == WordAt(chunk, t)
    {
      words[j] := WordAt(chunk, j);
      j := j + 1;
    }
    FirstWords(chunk);
    while j < 32
      invariant 16 <= j <= 32
      invariant forall t :: 0 <= t < j ==> words[t] == W(chunk, t)
    {
      Recurrence(chunk, j);
      words[j] := Rotl1(Xor4(words[j - 3], words[j - 8], words[j - 14], words[j - 16]));
      j := j + 1;
    }
    while j < 80
      invariant 32 <= j <= 80
      invariant forall t :: 0 <= t < j ==> words[t] == W(chunk, t)
    {
      FastSchedule(chunk, j);
      words[j] := Rotl2(Xor4(words[j - 6], words[j - 16], words[j - 28], words[j - 32]));
      j := j + 1;
    }
  }

  /** The round function and constant as the source chooses them. */
  method RoundTerms(j: nat, b: Word, c: Word, d: Word) returns (f: Word, k: Word)
    requires j < 80
    ensures f == F(j, b, c, d) && k == K(j)
  {
    hide Ch, Maj, Parity;
    if j < 20 {
      ChoiceForm(b, c, d);
      f := (b & c) | (!b & d);
      k := 0x5A827999;
    } else if j < 40 {
      f := Parity(b, c, d);
      k := 0x6ED9EBA1;
    } else if j < 60 {
      MajorityForm(b, c, d);
      f := (b & c) | (b & d) | (c & d);
      k := 0x8F1BBCDC;
    } else {
      f := Parity(b, c, d);
      k := 0xCA62C1D6;
    }
  }

  method Compress(chunk: seq<Byte>, h: State) returns (s: State)
    requires |chunk| == 64
    ensures s == Plus(h, Rounds(chunk, h, RoundCount()))
  {
    hide Rotl5, Rotl30, W, F, K, Sum5, Plus;
    var words := Expand(chunk);
    var a, b, c, d, e := h.a, h.b, h.c, h.d, h.e;
    var j := 0;
    while j < 80
      invariant 0 <= j <= 80
      invariant State(a, b, c, d, e) == Rounds(chunk, h, j)
      invariant forall t :: 0 <= t < 80 ==> words[t] == W(chunk, t)
    {
      assert Rounds(chunk, h, j + 1) == Round(Rounds(chunk, h, j), j, W(chunk, j));
      var f, k := RoundTerms(j, b, c, d);
      var tmp := Sum5(Rotl5(a), f, e, k, words[j]);
      e := d;
      d := c;
      c := Rotl30(b);
      b := a;
      a := tmp;
      j := j + 1;
    }
    s := Plus(h, State(a, b, c, d, e));
  }

  /** Every message hashes to its FIPS 180-4 digest; the length field is taken modulo 2^64. */
  method Sha1(msg: seq<Byte>) returns (digest: seq<Byte>)
    ensures digest == Hash(msg)
  {
    hide Rounds, Plus, WordBytes;
    var bstr := Pad(msg);
    var h := INITIAL;
    var i := 0;
    while i < |bstr| / 64
      invariant 0 <= i <= |bstr| / 64
      invariant h == Blocks(bstr, i)
    {
      var chunk := bstr[i * 64..(i + 1) * 64];
      h := Compress(chunk, h);
      i := i + 1;
    }
    digest := WordBytes(h.a) + WordBytes(h.b) + WordBytes(h.c) + WordBytes(h.d) + WordBytes(h.e);
  }

  // ---------------------------------------------------------------- HMAC

  /** RFC 2104: the key, hashed when longer than a block, padded with zeros to a block. */
  function BlockKey(key: seq<Byte>, size: nat): (k: seq<Byte>)
    ensures size >= 20 ==> |k| == size
  {
    var k := if |key| > size then Hash(key) else key;
    if |k| < size then k + Repeat<Byte>(0, size - |k|) else k
  }

  function XorPad(k: seq<Byte>, pad: Byte): (r: seq<Byte>)
    ensures |r| == |k|
  {
    seq(|k|, i requires 0 <= i < |k| => k[i] ^ pad)
  }

  function Hmac(key: seq<Byte>, msg: seq<Byte>, size: nat): (d: seq<Byte>)
  {
    var k := BlockKey(key, size);
    Hash(XorPad(k, 0x5c) + Hash(XorPad(k, 0x36) + msg))
  }

  /** Any block size; RFC 2104 has blocks at least as long as a digest, and the default is 64 bytes. */
  method HmacSha1(key: seq<Byte>, msg: seq<Byte>, blockSize: nat := 64) returns (digest: seq<Byte>)
    ensures digest == Hmac(key, msg, blockSize)
  {
    hide Hash;
    var realKey := key;
    if |realKey| > blockSize {
      realKey := Sha1(realKey);
    }
    if |realKey| < blockSize {
      realKey := realKey + seq(blockSize - |realKey|, _ => 0);
    }
    assert realKey == BlockKey(key, blockSize);
    var innerPadKey, outerPadKey := realKey, realKey;
    var i := 0;
    while i < |realKey|
      invariant 0 <= i <= |realKey| == |innerPadKey| == |outerPadKey|
      invariant forall t :: 0 <= t < i ==> innerPadKey[t] == realKey[t] ^ 0x36 && outerPadKey[t] == realKey[t] ^ 0x5c
      invariant forall t :: i <= t < |realKey| ==> innerPadKey[t] == realKey[t] == outerPadKey[t]
    {
      innerPadKey := innerPadKey[i := innerPadKey[i] ^ 0x36];
      outerPadKey := outerPadKey[i := outerPadKey[i] ^ 0x5c];
      i := i + 1;
    }
    assert innerPadKey == XorPad(realKey, 0x36) && outerPadKey == XorPad(realKey, 0x5c);
    var innerHash := Sha1(innerPadKey + msg);
    digest := Sha1(outerPadKey + innerHash);
  }
}
