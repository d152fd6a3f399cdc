/**
  The block ciphers of Common/src/Cryptography/Crypt.cpp as functions on byte strings, for any key tables.

  A buffer is cut into blocks of the current mode from the front; what is left over goes to the next smaller
  mode (RC6 on 16-byte blocks, RC5 with 32-bit words on 8-byte blocks, RC5 with 16-bit words on 4-byte blocks)
  and the last 0 to 3 bytes stay as they are.
 */
module Cipher {
  import opened Words

  /** What `KeySetup` leaves behind: the two round-key tables and the whitening word. */
  datatype Keys = Keys(rc5: seq<u32>, rc6: seq<u32>, user: u32) {
    predicate Valid() { |rc5| == 26 && |rc6| == 84 }
  }

  datatype Mode = Rc5Half | Rc5Full | Rc6
  datatype Direction = Encrypt | Decrypt

  function Opposite(d: Direction): Direction { if d == Encrypt then Decrypt else Encrypt }

  /** Word width in bits. */
  function Width(m: Mode): (w: nat) ensures w > 0 { if m == Rc5Half then 16 else 32 }

  function BlockSize(m: Mode): (n: nat)
    ensures n >= 4 && n % 4 == 0
  {
    match m case Rc5Half => 4 case Rc5Full => 8 case Rc6 => 16
  }

  /** The next smaller mode, used on the remainder of a buffer. */
  function Smaller(m: Mode): Mode { if m == Rc6 then Rc5Full else Rc5Half }

  /** A number cut to `w` bits. */
  function Wrap(w: nat, z: int): (r: nat)
    ensures r < Pow2(w)
  {
    z % Pow2(w)
  }

  function AddW(w: nat, x: nat, y: nat): (r: nat)
    ensures r < Pow2(w)
  {
    Wrap(w, x + y)
  }

  function SubW(w: nat, x: nat, y: nat): (r: nat)
    ensures r < Pow2(w)
  {
    Wrap(w, x - y)
  }

  lemma AddSubCancel(w: nat, x: nat, y: nat)
    requires x < Pow2(w)
    ensures SubW(w, AddW(w, x, y), y) == x
    ensures AddW(w, SubW(w, x, y), y) == x
  {
    hide Wrap, Pow2;
    WrapBack(w, x + y, 0 - y, x);
    WrapBack(w, x - y, y, x);
  }

  lemma WrapBack(w: nat, z: int, y: int, x: nat)
    requires x < Pow2(w) && z + y == x
    ensures Wrap(w, Wrap(w, z) + y) == x
  {
    hide Pow2;
    AddAfterMod(z, y, x, Pow2(w));
  }

  lemma AddAfterMod(z: int, y: int, x: nat, m: nat)
    requires x < m && z + y == x
    ensures (z % m + y) % m == x
  {
    var q, r := z / m, z % m;
    DivMod(z, m);
    NegMul(q, m);
    ModShift(r + y, x, -q, m);
  }

  lemma NegMul(q: int, m: nat)
    ensures -q * m == -(q * m)
  {
  }

  /** A number that differs from `x < m` by a multiple of `m` reduces to `x`. */
  lemma ModShift(z: int, x: nat, k: int, m: nat)
    requires x < m && z == x + k * m
    ensures z % m == x
  {
    DivMod(z, m);
    var q := z / m;
    assert (k - q) * m == z % m - x;
    if k - q >= 1 {
      MulMonotoneInt(1, k - q, m);
    } else if k - q <= -1 {
      MulMonotoneInt(k - q, -1, m);
    }
  }

  lemma MulMonotoneInt(a: int, b: int, c: nat)
    requires a <= b
    ensures a * c <= b * c
  {
  }

  // ---------------------------------------------------------------- RC5, any word width

  type Pair = (nat, nat)
  datatype Quad = Quad(a: nat, b: nat, c: nat, d: nat)

  ghost predicate IsPair(w: nat, p: Pair) { p.0 < Pow2(w) && p.1 < Pow2(w) }
  ghost predicate IsQuad(w: nat, q: Quad) { q.a < Pow2(w) && q.b < Pow2(w) && q.c < Pow2(w) && q.d < Pow2(w) }

  function Rc5Round(w: nat, s: seq<u32>, p: Pair, i: nat): (r: Pair)
    requires w > 0 && |s| == 26 && i <= 12
    ensures IsPair(w, r)
  {
    var a := AddW(w, RotL(w, Xor(w, p.0, p.1), p.1), s[2 * i]);
    var b := AddW(w, RotL(w, Xor(w, p.1, a), a), s[2 * i + 1]);
    (a, b)
  }

  function Rc5Unround(w: nat, s: seq<u32>, p: Pair, i: nat): (r: Pair)
    requires w > 0 && |s| == 26 && i <= 12
    ensures IsPair(w, r)
  {
    var b := Xor(w, RotR(w, SubW(w, p.1, s[2 * i + 1]), p.0), p.0);
    var a := Xor(w, RotR(w, SubW(w, p.0, s[2 * i]), b), b);
    (a, b)
  }

  /** Rounds 1 to n. */
  function Rc5Rounds(w: nat, s: seq<u32>, p: Pair, n: nat): (r: Pair)
    requires w > 0 && |s| == 26 && n <= 12 && IsPair(w, p)
    ensures IsPair(w, r)
  {
    if n == 0 then p else Rc5Round(w, s, Rc5Rounds(w, s, p, n - 1), n)
  }

  /** Undoes rounds n down to 1. */
  function Rc5Unrounds(w: nat, s: seq<u32>, p: Pair, n: nat): (r: Pair)
    requires w > 0 && |s| == 26 && n <= 12 && IsPair(w, p)
    ensures IsPair(w, r)
    decreases n
  {
    if n == 0 then p else Rc5Unrounds(w, s, Rc5Unround(w, s, p, n), n - 1)
  }

  lemma Rc5RoundCancels(w: nat, s: seq<u32>, p: Pair, i: nat)
    requires w > 0 && |s| == 26 && i <= 12 && IsPair(w, p)
    ensures Rc5Unround(w, s, Rc5Round(w, s, p, i), i) == p
  {
    hide AddW, SubW, RotL, RotR, Xor, Pow2;
    var x := RotL(w, Xor(w, p.0, p.1), p.1);
    var a := AddW(w, x, s[2 * i]);
    var y := RotL(w, Xor(w, p.1, a), a);
    AddSubCancel(w, y, s[2 * i + 1]);
    RotationsCancel(w, Xor(w, p.1, a), a);
    XorCancels(w, p.1, a);
    AddSubCancel(w, x, s[2 * i]);
    RotationsCancel(w, Xor(w, p.0, p.1), p.1);
    XorCancels(w, p.0, p.1);
  }

  lemma Rc5UnroundCancels(w: nat, s: seq<u32>, p: Pair, i: nat)
    requires w > 0 && |s| == 26 && i <= 12 && IsPair(w, p)
    ensures Rc5Round(w, s, Rc5Unround(w, s, p, i), i) == p
  {
    hide AddW, SubW, RotL, RotR, Xor, Pow2;
    var y := SubW(w, p.1, s[2 * i + 1]);
    var b := Xor(w, RotR(w, y, p.0), p.0);
    var x := SubW(w, p.0, s[2 * i]);
    XorCancels(w, RotR(w, x, b), b);
    RotationsCancel(w, x, b);
    AddSubCancel(w, p.0, s[2 * i]);
    XorCancels(w, RotR(w, y, p.0), p.0);
    RotationsCancel(w, y, p.0);
    AddSubCancel(w, p.1, s[2 * i + 1]);
  }

  lemma {:induction false} Rc5RoundsCancel(w: nat, s: seq<u32>, p: Pair, n: nat)
    requires w > 0 && |s| == 26 && n <= 12 && IsPair(w, p)
    ensures Rc5Unrounds(w, s, Rc5Rounds(w, s, p, n), n) == p
    ensures Rc5Rounds(w, s, Rc5Unrounds(w, s, p, n), n) == p
    decreases n
  {
    hide AddW, SubW, RotL, RotR, Xor, Pow2, Rc5Round, Rc5Unround;
    if n == 0 {
    } else {
      Rc5RoundCancels(w, s, Rc5Rounds(w, s, p, n - 1), n);
      Rc5RoundsCancel(w, s, p, n - 1);
      Rc5RoundsCancel(w, s, Rc5Unround(w, s, p, n), n - 1);
      Rc5UnroundCancels(w, s, p, n);
    }
  }

  /** The number of rounds a table of round keys serves: 12 for the 26 words of RC5. */
  function Rc5RoundCount(s: seq<u32>): (n: nat)
    requires |s| == 26
    ensures n == 12
  {
    |s| / 2 - 1
  }

  function Rc5EncryptPair(w: nat, k: Keys, p: Pair): (r: Pair)
    requires w > 0 && k.Valid()
    ensures IsPair(w, r)
  {
    var q := Rc5Rounds(w, k.rc5, (AddW(w, p.0, k.rc5[0]), AddW(w, p.1, k.rc5[1])), Rc5RoundCount(k.rc5));
    (Xor(w, q.0, k.user), Xor(w, q.1, k.user))
  }

  function Rc5DecryptPair(w: nat, k: Keys, p: Pair): (r: Pair)
    requires w > 0 && k.Valid()
    ensures IsPair(w, r)
  {
    var q := Rc5Unrounds(w, k.rc5, (Xor(w, p.0, k.user), Xor(w, p.1, k.user)), Rc5RoundCount(k.rc5));
    (SubW(w, q.0, k.rc5[0]), SubW(w, q.1, k.rc5[1]))
  }

  lemma Rc5PairCancels(w: nat, k: Keys, p: Pair)
    requires w > 0 && k.Valid() && IsPair(w, p)
    ensures Rc5DecryptPair(w, k, Rc5EncryptPair(w, k, p)) == p
    ensures Rc5EncryptPair(w, k, Rc5DecryptPair(w, k, p)) == p
  {
    hide AddW, SubW, RotL, RotR, Xor, Pow2;
    var whitened := (AddW(w, p.0, k.rc5[0]), AddW(w, p.1, k.rc5[1]));
    var q := Rc5Rounds(w, k.rc5, whitened, Rc5RoundCount(k.rc5));
    XorCancels(w, q.0, k.user);
    XorCancels(w, q.1, k.user);
    Rc5RoundsCancel(w, k.rc5, whitened, Rc5RoundCount(k.rc5));
    AddSubCancel(w, p.0, k.rc5[0]);
    AddSubCancel(w, p.1, k.rc5[1]);
    var unmasked := (Xor(w, p.0, k.user), Xor(w, p.1, k.user));
    var u := Rc5Unrounds(w, k.rc5, unmasked, Rc5RoundCount(k.rc5));
    AddSubCancel(w, u.0, k.rc5[0]);
    AddSubCancel(w, u.1, k.rc5[1]);
    Rc5RoundsCancel(w, k.rc5, unmasked, Rc5RoundCount(k.rc5));
    XorCancels(w, p.0, k.user);
    XorCancels(w, p.1, k.user);
  }

  /**
    RC5 as one recurrence without rounds: the two input words with a round key added, and then each word made of the
    two before it and the next round key.
   */
  function Ladder(w: nat, s: seq<u32>, p: Pair, n: nat): (x: nat)
    requires w > 0 && n < |s|
    ensures x < Pow2(w)
  {
    if n == 0 then (p.0 + s[0]) % Pow2(w)
    else if n == 1 then (p.1 + s[1]) % Pow2(w)
    else
      var before, last := Ladder(w, s, p, n - 2), Ladder(w, s, p, n - 1);
      (RotL(w, Xor(w, before, last), last) + s[n]) % Pow2(w)
  }

  lemma LadderStep(w: nat, s: seq<u32>, p: Pair, n: nat)
    requires w > 0 && 2 <= n < |s|
    ensures Ladder(w, s, p, n)
         == AddW(w, RotL(w, Xor(w, Ladder(w, s, p, n - 2), Ladder(w, s, p, n - 1)), Ladder(w, s, p, n - 1)), s[n])
  {
    hide Pow2, RotL, Xor;
  }

  lemma LadderStart(w: nat, s: seq<u32>, p: Pair)
    requires w > 0 && |s| >= 2
    ensures Ladder(w, s, p, 0) == AddW(w, p.0, s[0]) && Ladder(w, s, p, 1) == AddW(w, p.1, s[1])
  {
    hide Pow2, RotL, Xor;
  }

  lemma {:induction false} RoundsClimb(w: nat, s: seq<u32>, p: Pair, n: nat)
    requires w > 0 && |s| == 26 && n <= 12
    ensures Rc5Rounds(w, s, (Ladder(w, s, p, 0), Ladder(w, s, p, 1)), n)
         == (Ladder(w, s, p, 2 * n), Ladder(w, s, p, 2 * n + 1))
    decreases n
  {
    hide Ladder, AddW, RotL, Xor, Pow2;
    if n == 0 {
    } else {
      RoundsClimb(w, s, p, n - 1);
      LadderStep(w, s, p, 2 * n);
      LadderStep(w, s, p, 2 * n + 1);
    }
  }

  /** RC5 encryption is the ladder over the 26 round keys, its last two words masked with the user key. */
  lemma Rc5IsLadder(w: nat, k: Keys, p: Pair)
    requires w > 0 && k.Valid()
    ensures Rc5EncryptPair(w, k, p)
         == (Xor(w, Ladder(w, k.rc5, p, 24), k.user), Xor(w, Ladder(w, k.rc5, p, 25), k.user))
  {
    hide Ladder, AddW, Xor, Pow2, Rc5Rounds;
    LadderStart(w, k.rc5, p);
    RoundsClimb(w, k.rc5, p, 12);
  }

  // ---------------------------------------------------------------- RC6, 32-bit words, 40 rounds

  /** The quadratic mixing function of RC6, `rotl(x * (2x + 1), 5)`. */
  function Quadratic(x: nat): (r: nat)
    ensures r < Pow2(32)
  {
    RotL(32, (x * (2 * x + 1)) % Pow2(32), 5)
  }

  /** The mixing function bit by bit: bit `i` of `x * (2x + 1)` comes to place `i + 5`, around the end of the word. */
  lemma QuadraticMoves(x: nat, i: nat)
    requires i < 32
    ensures Bit(Quadratic(x), (i + 5) % 32) == Bit(x * (2 * x + 1), i)
  {
    hide Pow2, Bit, RotL;
    RotationMoves(32, Cut(x * (2 * x + 1), 32), 5, i);
    BitBelow(32, x * (2 * x + 1), i);
  }

  function Rc6Round(s: seq<u32>, q: Quad, i: nat): (r: Quad)
    requires |s| == 84 && 1 <= i <= 40 && IsQuad(32, q)
    ensures IsQuad(32, r)
  {
    var t, u := Quadratic(q.b), Quadratic(q.d);
    var a := AddW(32, RotL(32, Xor(32, q.a, t), u), s[2 * i]);
    var c := AddW(32, RotL(32, Xor(32, q.c, u), t), s[2 * i + 1]);
    Quad(q.b, c, q.d, a)
  }

  function Rc6Unround(s: seq<u32>, q: Quad, i: nat): (r: Quad)
    requires |s| == 84 && 1 <= i <= 40 && IsQuad(32, q)
    ensures IsQuad(32, r)
  {
    var a, b, c, d := q.d, q.a, q.b, q.c;
    var u, t := Quadratic(d), Quadratic(b);
    Quad(Xor(32, RotR(32, SubW(32, a, s[2 * i]), u), t), b,
         Xor(32, RotR(32, SubW(32, c, s[2 * i + 1]), t), u), d)
  }

  function Rc6Rounds(s: seq<u32>, q: Quad, n: nat): (r: Quad)
    requires |s| == 84 && n <= 40 && IsQuad(32, q)
    ensures IsQuad(32, r)
  {
    if n == 0 then q else Rc6Round(s, Rc6Rounds(s, q, n - 1), n)
  }

  function Rc6Unrounds(s: seq<u32>, q: Quad, n: nat): (r: Quad)
    requires |s| == 84 && n <= 40 && IsQuad(32, q)
    ensures IsQuad(32, r)
    decreases n
  {
    if n == 0 then q else Rc6Unrounds(s, Rc6Unround(s, q, n), n - 1)
  }

  /** One masked, rotated and keyed word is recovered, whatever the mask and the rotation amount. */
  lemma MixCancels(w: nat, x: nat, mask: nat, amount: nat, key: nat)
    requires w > 0 && x < Pow2(w)
    ensures Xor(w, RotR(w, SubW(w, AddW(w, RotL(w, Xor(w, x, mask), amount), key), key), amount), mask) == x
    ensures AddW(w, RotL(w, Xor(w, Xor(w, RotR(w, SubW(w, x, key), amount), mask), mask), amount), key) == x
  {
    hide AddW, SubW, RotL, RotR, Xor, Pow2;
    AddSubCancel(w, RotL(w, Xor(w, x, mask), amount), key);
    RotationsCancel(w, Xor(w, x, mask), amount);
    XorCancels(w, x, mask);
    XorCancels(w, RotR(w, SubW(w, x, key), amount), mask);
    RotationsCancel(w, SubW(w, x, key), amount);
    AddSubCancel(w, x, key);
  }

  lemma Rc6RoundCancels(s: seq<u32>, q: Quad, i: nat)
    requires |s| == 84 && 1 <= i <= 40 && IsQuad(32, q)
    ensures Rc6Unround(s, Rc6Round(s, q, i), i) == q
    ensures Rc6Round(s, Rc6Unround(s, q, i), i) == q
  {
    hide AddW, SubW, RotL, RotR, Xor, Pow2, Quadratic;
    MixCancels(32, q.a, Quadratic(q.b), Quadratic(q.d), s[2 * i]);
    MixCancels(32, q.c, Quadratic(q.d), Quadratic(q.b), s[2 * i + 1]);
    MixCancels(32, q.d, Quadratic(q.a), Quadratic(q.c), s[2 * i]);
    MixCancels(32, q.b, Quadratic(q.c), Quadratic(q.a), s[2 * i + 1]);
  }

  lemma {:induction false} Rc6RoundsCancel(s: seq<u32>, q: Quad, n: nat)
    requires |s| == 84 && n <= 40 && IsQuad(32, q)
    ensures Rc6Unrounds(s, Rc6Rounds(s, q, n), n) == q
    ensures Rc6Rounds(s, Rc6Unrounds(s, q, n), n) == q
    decreases n
  {
    hide AddW, SubW, RotL, RotR, Xor, Pow2, Rc6Round, Rc6Unround;
    if n == 0 {
    } else {
      Rc6RoundCancels(s, Rc6Rounds(s, q, n - 1), n);
      Rc6RoundsCancel(s, q, n - 1);
      Rc6RoundsCancel(s, Rc6Unround(s, q, n), n - 1);
      Rc6RoundCancels(s, q, n);
    }
  }

  /** The number of rounds a table of round keys serves: 40 for the 84 words of RC6. */
  function Rc6RoundCount(s: seq<u32>): (n: nat)
    requires |s| == 84
    ensures n == 40
  {
    |s| / 2 - 2
  }

  function Rc6EncryptQuad(k: Keys, q: Quad): (r: Quad)
    requires k.Valid() && IsQuad(32, q)
    ensures IsQuad(32, r)
  {
    var p := Rc6Rounds(k.rc6, Quad(q.a, AddW(32, q.b, k.rc6[0]), q.c, AddW(32, q.d, k.rc6[1])), Rc6RoundCount(k.rc6));
    Quad(Xor(32, AddW(32, p.a, k.rc6[82]), k.user), Xor(32, p.b, k.user),
         Xor(32, AddW(32, p.c, k.rc6[83]), k.user), Xor(32, p.d, k.user))
  }

  function Rc6DecryptQuad(k: Keys, q: Quad): (r: Quad)
    requires k.Valid() && IsQuad(32, q)
    ensures IsQuad(32, r)
  {
    var p := Rc6Unrounds(k.rc6, Quad(SubW(32, Xor(32, q.a, k.user), k.rc6[82]), Xor(32, q.b, k.user),
                                     SubW(32, Xor(32, q.c, k.user), k.rc6[83]), Xor(32, q.d, k.user)),
                         Rc6RoundCount(k.rc6));
    Quad(p.a, SubW(32, p.b, k.rc6[0]), p.c, SubW(32, p.d, k.rc6[1]))
  }

  lemma Rc6QuadDecrypts(k: Keys, q: Quad)
    requires k.Valid() && IsQuad(32, q)
    ensures Rc6DecryptQuad(k, Rc6EncryptQuad(k, q)) == q
  {
    hide AddW, SubW, RotL, RotR, Xor, Pow2, Rc6Rounds, Rc6Unrounds;
    var start := Quad(q.a, AddW(32, q.b, k.rc6[0]), q.c, AddW(32, q.d, k.rc6[1]));
    var p := Rc6Rounds(k.rc6, start, Rc6RoundCount(k.rc6));
    XorCancels(32, AddW(32, p.a, k.rc6[82]), k.user);
    XorCancels(32, p.b, k.user);
    XorCancels(32, AddW(32, p.c, k.rc6[83]), k.user);
    XorCancels(32, p.d, k.user);
    AddSubCancel(32, p.a, k.rc6[82]);
    AddSubCancel(32, p.c, k.rc6[83]);
    Rc6RoundsCancel(k.rc6, start, Rc6RoundCount(k.rc6));
    AddSubCancel(32, q.b, k.rc6[0]);
    AddSubCancel(32, q.d, k.rc6[1]);
  }

  lemma Rc6QuadEncrypts(k: Keys, q: Quad)
    requires k.Valid() && IsQuad(32, q)
    ensures Rc6EncryptQuad(k, Rc6DecryptQuad(k, q)) == q
  {
    hide AddW, SubW, RotL, RotR, Xor, Pow2, Rc6Rounds, Rc6Unrounds;
    var start := Quad(SubW(32, Xor(32, q.a, k.user), k.rc6[82]), Xor(32, q.b, k.user),
                      SubW(32, Xor(32, q.c, k.user), k.rc6[83]), Xor(32, q.d, k.user));
    var p := Rc6Unrounds(k.rc6, start, Rc6RoundCount(k.rc6));
    AddSubCancel(32, p.b, k.rc6[0]);
    AddSubCancel(32, p.d, k.rc6[1]);
    Rc6RoundsCancel(k.rc6, start, Rc6RoundCount(k.rc6));
    AddSubCancel(32, Xor(32, q.a, k.user), k.rc6[82]);
    AddSubCancel(32, Xor(32, q.c, k.user), k.rc6[83]);
    XorCancels(32, q.a, k.user);
    XorCancels(32, q.b, k.user);
    XorCancels(32, q.c, k.user);
    XorCancels(32, q.d, k.user);
  }

  /** Which of the two strands of RC6 a word belongs to: registers A and B, or registers C and D. */
  datatype Strand = First | Second

  /**
    RC6 as two strands without rounds and without exchanging registers: each word is made of the word two steps back
    in the other strand, the latest words of both, and a round key of its own.
   */
  function Braid(s: seq<u32>, q: Quad, strand: Strand, n: nat): (x: nat)
    requires |s| == 84 && n <= 41 && IsQuad(32, q)
    ensures x < Pow2(32)
    decreases n
  {
    if n == 0 then (if strand == First then q.a else q.c)
    else if n == 1 then (if strand == First then AddW(32, q.b, s[0]) else AddW(32, q.d, s[1]))
    else
      var other := if strand == First then Second else First;
      var mine, theirs := Quadratic(Braid(s, q, strand, n - 1)), Quadratic(Braid(s, q, other, n - 1));
      var key := if strand == First then s[2 * n - 1] else s[2 * n - 2];
      AddW(32, RotL(32, Xor(32, Braid(s, q, other, n - 2), theirs), mine), key)
  }

  lemma BraidStep(s: seq<u32>, q: Quad, n: nat)
    requires |s| == 84 && 2 <= n <= 41 && IsQuad(32, q)
    ensures var t, u := Quadratic(Braid(s, q, First, n - 1)), Quadratic(Braid(s, q, Second, n - 1));
            && Braid(s, q, First, n) == AddW(32, RotL(32, Xor(32, Braid(s, q, Second, n - 2), u), t), s[2 * n - 1])
            && Braid(s, q, Second, n) == AddW(32, RotL(32, Xor(32, Braid(s, q, First, n - 2), t), u), s[2 * n - 2])
  {
    hide Pow2, RotL, Xor, Quadratic;
  }

  lemma BraidStart(s: seq<u32>, q: Quad)
    requires |s| == 84 && IsQuad(32, q)
    ensures Braid(s, q, First, 0) == q.a && Braid(s, q, First, 1) == AddW(32, q.b, s[0])
    ensures Braid(s, q, Second, 0) == q.c && Braid(s, q, Second, 1) == AddW(32, q.d, s[1])
  {
    hide Pow2, RotL, Xor, Quadratic;
  }

  /** The four registers after `n` rounds. */
  function Braided(s: seq<u32>, q: Quad, n: nat): (r: Quad)
    requires |s| == 84 && n <= 40 && IsQuad(32, q)
    ensures IsQuad(32, r)
  {
    Quad(Braid(s, q, First, n), Braid(s, q, First, n + 1), Braid(s, q, Second, n), Braid(s, q, Second, n + 1))
  }

  lemma {:induction false} RoundsBraid(s: seq<u32>, q: Quad, n: nat)
    requires |s| == 84 && n <= 40 && IsQuad(32, q)
    ensures Rc6Rounds(s, Braided(s, q, 0), n) == Braided(s, q, n)
    decreases n
  {
    hide Braid, AddW, RotL, Xor, Pow2, Quadratic;
    if n == 0 {
    } else {
      RoundsBraid(s, q, n - 1);
      BraidStep(s, q, n + 1);
    }
  }

  /** RC6 encryption is 40 steps of the braid, over the first 82 round keys; the last two go to the older words. */
  lemma Rc6IsBraid(k: Keys, q: Quad)
    requires k.Valid() && IsQuad(32, q)
    ensures var r := Braided(k.rc6, q, Rc6RoundCount(k.rc6));
            Rc6EncryptQuad(k, q) == Quad(Xor(32, AddW(32, r.a, k.rc6[82]), k.user), Xor(32, r.b, k.user),
                                         Xor(32, AddW(32, r.c, k.rc6[83]), k.user), Xor(32, r.d, k.user))
  {
    hide Braid, RotL, Xor, Pow2, Quadratic, Rc6Rounds, AddW;
    BraidStart(k.rc6, q);
    RoundsBraid(k.rc6, q, Rc6RoundCount(k.rc6));
  }

  // ---------------------------------------------------------------- blocks of bytes

  function PairOf(w: nat, b: seq<byte>): (p: Pair)
    requires w % 8 == 0 && |b| == w / 4
    ensures IsPair(w, p)
  {
    (LeWord(b[..w / 8]), LeWord(b[w / 8..]))
  }

  function PairBytes(w: nat, p: Pair): (b: seq<byte>)
    requires w % 8 == 0
    ensures |b| == w / 4
  {
    LeBytes(w / 8, p.0) + LeBytes(w / 8, p.1)
  }

  function QuadOf(b: seq<byte>): (q: Quad)
    requires |b| == 16
    ensures IsQuad(32, q)
  {
    Quad(LeWord(b[..4]), LeWord(b[4..8]), LeWord(b[8..12]), LeWord(b[12..]))
  }

  function QuadBytes(q: Quad): (b: seq<byte>)
    ensures |b| == 16
  {
    LeBytes(4, q.a) + LeBytes(4, q.b) + LeBytes(4, q.c) + LeBytes(4, q.d)
  }

  lemma PairBytesCancel(w: nat, b: seq<byte>, p: Pair)
    requires w % 8 == 0 && |b| == w / 4 && IsPair(w, p)
    ensures PairBytes(w, PairOf(w, b)) == b
    ensures PairOf(w, PairBytes(w, p)) == p
  {
    hide LeWord, LeBytes, Pow2;
    BytesOfWord(b[..w / 8]);
    BytesOfWord(b[w / 8..]);
    WordOfBytes(w / 8, p.0);
    WordOfBytes(w / 8, p.1);
    var c := PairBytes(w, p);
    assert c[..w / 8] == LeBytes(w / 8, p.0) && c[w / 8..] == LeBytes(w / 8, p.1);
  }

  lemma QuadBytesCancel(b: seq<byte>, q: Quad)
    requires |b| == 16 && IsQuad(32, q)
    ensures QuadBytes(QuadOf(b)) == b
    ensures QuadOf(QuadBytes(q)) == q
  {
    hide LeWord, LeBytes, Pow2;
    BytesOfWord(b[..4]);
    BytesOfWord(b[4..8]);
    BytesOfWord(b[8..12]);
    BytesOfWord(b[12..]);
    WordOfBytes(4, q.a);
    WordOfBytes(4, q.b);
    WordOfBytes(4, q.c);
    WordOfBytes(4, q.d);
    var c := QuadBytes(q);
    assert c[..4] == LeBytes(4, q.a) && c[4..8] == LeBytes(4, q.b);
    assert c[8..12] == LeBytes(4, q.c) && c[12..] == LeBytes(4, q.d);
  }

  /** One block of mode `m` in direction `d`. */
  function Block(d: Direction, m: Mode, k: Keys, b: seq<byte>): (r: seq<byte>)
    requires k.Valid() && |b| == BlockSize(m)
    ensures |r| == |b|
  {
    if m == Rc6 then
      QuadBytes(if d == Encrypt then Rc6EncryptQuad(k, QuadOf(b)) else Rc6DecryptQuad(k, QuadOf(b)))
    else
      var w := Width(m);
      PairBytes(w, if d == Encrypt then Rc5EncryptPair(w, k, PairOf(w, b)) else Rc5DecryptPair(w, k, PairOf(w, b)))
  }

  /** Which bytes an RC5 block is made of: two little-endian words in, the last two of the ladder out, in that order. */
  lemma Rc5BlockIs(m: Mode, k: Keys, b: seq<byte>, w: nat)
    requires k.Valid() && |b| == w / 4
    requires (m == Rc5Half && w == 16) || (m == Rc5Full && w == 32)
    ensures var n, p := w / 8, (LeWord(b[..w / 8]), LeWord(b[w / 8..]));
            Block(Encrypt, m, k, b)
            == LeBytes(n, Xor(w, Ladder(w, k.rc5, p, 24), k.user)) + LeBytes(n, Xor(w, Ladder(w, k.rc5, p, 25), k.user))
  {
    hide Ladder, Xor, LeBytes, LeWord, Pow2, Rc5EncryptPair;
    Rc5IsLadder(w, k, (LeWord(b[..w / 8]), LeWord(b[w / 8..])));
  }

  /** The same for RC6: four words in and out. */
  lemma Rc6BlockIs(k: Keys, b: seq<byte>)
    requires k.Valid() && |b| == 16
    ensures var q := Quad(LeWord(b[..4]), LeWord(b[4..8]), LeWord(b[8..12]), LeWord(b[12..]));
            IsQuad(32, q) &&
            var r := Braided(k.rc6, q, Rc6RoundCount(k.rc6));
            Block(Encrypt, Rc6, k, b)
            == LeBytes(4, Xor(32, AddW(32, r.a, k.rc6[82]), k.user)) + LeBytes(4, Xor(32, r.b, k.user))
               + LeBytes(4, Xor(32, AddW(32, r.c, k.rc6[83]), k.user)) + LeBytes(4, Xor(32, r.d, k.user))
  {
    hide Braided, AddW, Xor, LeBytes, LeWord, Pow2, Rc6EncryptQuad;
    Rc6IsBraid(k, QuadOf(b));
  }

  lemma BlockCancels(d: Direction, m: Mode, k: Keys, b: seq<byte>)
    requires k.Valid() && |b| == BlockSize(m)
    ensures Block(Opposite(d), m, k, Block(d, m, k, b)) == b
  {
    hide LeWord, LeBytes, Pow2, PairOf, PairBytes, QuadOf, QuadBytes, Rc5EncryptPair, Rc5DecryptPair, Rc6EncryptQuad;
    hide Rc6DecryptQuad;
    if m == Rc6 {
      var q := QuadOf(b);
      QuadBytesCancel(b, if d == Encrypt then Rc6EncryptQuad(k, q) else Rc6DecryptQuad(k, q));
      Rc6QuadDecrypts(k, q);
      Rc6QuadEncrypts(k, q);
    } else {
      var w := Width(m);
      var p := PairOf(w, b);
      PairBytesCancel(w, b, if d == Encrypt then Rc5EncryptPair(w, k, p) else Rc5DecryptPair(w, k, p));
      Rc5PairCancels(w, k, p);
    }
  }

  // ---------------------------------------------------------------- whole buffers

  /** The cascade over a whole buffer: blocks of mode `m`, then the remainder in the smaller modes. */
  function Cascade(d: Direction, m: Mode, k: Keys, b: seq<byte>): (r: seq<byte>)
    requires k.Valid()
    ensures |r| == |b|
    decreases |b|, BlockSize(m)
  {
    if |b| >= BlockSize(m) then
      Block(d, m, k, b[..BlockSize(m)]) + Cascade(d, m, k, b[BlockSize(m)..])
    else if m == Rc5Half then b
    else
      Cascade(d, Smaller(m), k, b)
  }

  lemma CascadeStep(d: Direction, m: Mode, k: Keys, b: seq<byte>)
    requires k.Valid() && |b| >= BlockSize(m)
    ensures Cascade(d, m, k, b) == Block(d, m, k, b[..BlockSize(m)]) + Cascade(d, m, k, b[BlockSize(m)..])
  {
    hide Block;
  }

  lemma CascadeRest(d: Direction, m: Mode, k: Keys, b: seq<byte>)
    requires k.Valid() && |b| < BlockSize(m)
    ensures Cascade(d, m, k, b) == if m == Rc5Half then b else Cascade(d, Smaller(m), k, b)
  {
    hide Block;
  }

  /** The 0 to 15 bytes behind the last RC6 block: at most one 8-byte and one 4-byte RC5 block, in that order. */
  lemma RemainderIs(d: Direction, k: Keys, b: seq<byte>, c: seq<byte>, t: seq<byte>)
    requires k.Valid() && |b| in {0, 8} && |c| in {0, 4} && |t| < 4
    ensures Cascade(d, Rc6, k, b + (c + t))
         == (if b == [] then [] else Block(d, Rc5Full, k, b)) + (if c == [] then [] else Block(d, Rc5Half, k, c)) + t
  {
    hide Block, Cascade;
    CascadeRest(d, Rc6, k, b + (c + t));
    if b == [] {
      assert b + (c + t) == c + t;
    } else {
      assert (b + (c + t))[..8] == b && (b + (c + t))[8..] == c + t;
      CascadeStep(d, Rc5Full, k, b + (c + t));
    }
    CascadeRest(d, Rc5Full, k, c + t);
    if c == [] {
      assert c + t == t;
    } else {
      assert (c + t)[..4] == c && (c + t)[4..] == t;
      CascadeStep(d, Rc5Half, k, c + t);
    }
    CascadeRest(d, Rc5Half, k, t);
    assert [] + t == t;
  }

  /** Decryption undoes encryption and encryption undoes decryption, for every buffer length, table and key. */
  lemma {:induction false} CascadeCancels(d: Direction, m: Mode, k: Keys, b: seq<byte>)
    requires k.Valid()
    ensures Cascade(Opposite(d), m, k, Cascade(d, m, k, b)) == b
    decreases |b|, BlockSize(m)
  {
    hide Block, Cascade;
    var n, c := BlockSize(m), Cascade(d, m, k, b);
    if |b| >= n {
      CascadeStep(d, m, k, b);
      CascadeStep(Opposite(d), m, k, c);
      assert c[..n] == Block(d, m, k, b[..n]) && c[n..] == Cascade(d, m, k, b[n..]);
      BlockCancels(d, m, k, b[..n]);
      CascadeCancels(d, m, k, b[n..]);
    } else {
      CascadeRest(d, m, k, b);
      CascadeRest(Opposite(d), m, k, c);
      if m != Rc5Half {
        CascadeCancels(d, Smaller(m), k, b);
      }
    }
  }

  /** The last `size % 4` bytes of a buffer pass through every mode unchanged. */
  lemma {:induction false} TailUntouched(d: Direction, m: Mode, k: Keys, b: seq<byte>, t: seq<byte>)
    requires k.Valid() && |b| % 4 == 0 && |t| < 4
    ensures Cascade(d, m, k, b + t) == Cascade(d, m, k, b) + t
    decreases |b|, BlockSize(m)
  {
    hide Block, Cascade;
    var n := BlockSize(m);
    if |b| >= n {
      assert (b + t)[..n] == b[..n] && (b + t)[n..] == b[n..] + t;
      TailUntouched(d, m, k, b[n..], t);
      CascadeStep(d, m, k, b);
      CascadeStep(d, m, k, b + t);
      Associates(Block(d, m, k, b[..n]), Cascade(d, m, k, b[n..]), t);
    } else {
      CascadeRest(d, m, k, b);
      CascadeRest(d, m, k, b + t);
      if m != Rc5Half {
        TailUntouched(d, Smaller(m), k, b, t);
      }
    }
  }

  lemma Associates(a: seq<byte>, b: seq<byte>, c: seq<byte>)
    ensures a + b + c == a + (b + c)
  {
  }
}
