/**
  Machine words as bounded naturals.

  The wire code works on `uint16_t` and `uint32_t`; a word of width `w` is a natural below `Pow2(w)`,
  addition and subtraction wrap modulo `Pow2(w)`, and the exclusive or and the two rotations are written
  out so that their algebra can be proved once for every width.
 */
module Words {

  const M32: nat := 0x1_0000_0000

  type byte = x: nat | x < 256
  type u32 = x: nat | x < M32

  function Pow2(n: nat): (p: nat)
    ensures p >= 1
  {
    if n == 0 then 1 else 2 * Pow2(n - 1)
  }

  lemma {:induction false} Pow2Add(a: nat, b: nat)
    ensures Pow2(a + b) == Pow2(a) * Pow2(b)
  {
    if a == 0 {
    } else {
      Pow2Add(a - 1, b);
      assert Pow2(a + b) == 2 * Pow2(a - 1 + b);
    }
  }

  lemma Pow2Widths()
    ensures Pow2(16) == 65536 && Pow2(32) == M32
  {
    assert Pow2(8) == 256;
    Pow2Add(8, 8);
    Pow2Add(16, 16);
  }

  /** The exclusive or of two naturals, bit by bit. */
  function BitXor(a: nat, b: nat): (r: nat)
    decreases a + b
  {
    if a == 0 && b == 0 then 0
    else 2 * BitXor(a / 2, b / 2) + (if a % 2 == b % 2 then 0 else 1)
  }

  lemma {:induction false} BitXorCancels(a: nat, b: nat)
    ensures BitXor(BitXor(a, b), b) == a
    decreases a + b
  {
    if a == 0 && b == 0 {
    } else {
      BitXorCancels(a / 2, b / 2);
      assert BitXor(a, b) / 2 == BitXor(a / 2, b / 2);
    }
  }

  lemma {:induction false} BitXorBound(w: nat, a: nat, b: nat)
    requires a < Pow2(w) && b < Pow2(w)
    ensures BitXor(a, b) < Pow2(w)
  {
    if w == 0 || (a == 0 && b == 0) {
    } else {
      BitXorBound(w - 1, a / 2, b / 2);
    }
  }

  /** The exclusive or of the low `w` bits of `a` and `b`. */
  function Xor(w: nat, a: nat, b: nat): (r: nat)
    ensures r < Pow2(w)
  {
    BitXorBound(w, a % Pow2(w), b % Pow2(w));
    BitXor(a % Pow2(w), b % Pow2(w))
  }

  lemma XorCancels(w: nat, a: nat, b: nat)
    requires a < Pow2(w)
    ensures Xor(w, Xor(w, a, b), b) == a
  {
    hide BitXor, Pow2;
    BitXorBound(w, a, b % Pow2(w));
    BitXorCancels(a, b % Pow2(w));
    ModOf(a, 0, Pow2(w));
    ModOf(Xor(w, a, b), 0, Pow2(w));
  }

  /** The high digit `x / q` and the low digit `x % q` of a number below `p * q`, exchanged. */
  function Swap(x: nat, p: nat, q: nat): (y: nat)
    requires q > 0 && x < p * q
    ensures y < p * q
  {
    HighDigit(x, p, q);
    DigitsBound(x / q, x % q, p, q);
    (x % q) * p + x / q
  }

  lemma HighDigit(x: nat, p: nat, q: nat)
    requires q > 0 && x < p * q
    ensures x / q < p
  {
    if x / q >= p {
      MulMonotone(p, x / q, q);
    }
  }

  lemma DigitsBound(h: nat, l: nat, p: nat, q: nat)
    requires h < p && l < q
    ensures l * p + h < p * q
  {
    MulMonotone(l + 1, q, p);
  }

  lemma SwapTwice(x: nat, p: nat, q: nat)
    requires p > 0 && q > 0 && x < p * q
    ensures Swap(x, p, q) < q * p && Swap(Swap(x, p, q), q, p) == x
  {
    HighDigit(x, p, q);
    ModOf(x / q, x % q, p);
  }

  /**
    Left rotation of a `w`-bit word by `k = n % w`: the high `k` bits `x / 2^(w-k)` move to the bottom and the
    low `w - k` bits move up. Rotation by 0 is the identity.
   */
  function RotL(w: nat, x: nat, n: nat): (r: nat)
    requires w > 0 && x < Pow2(w)
    ensures r < Pow2(w)
  {
    Pow2Add(n % w, w - n % w);
    Swap(x, Pow2(n % w), Pow2(w - n % w))
  }

  /** Right rotation of a `w`-bit word by `n % w`. */
  function RotR(w: nat, x: nat, n: nat): (r: nat)
    requires w > 0 && x < Pow2(w)
    ensures r < Pow2(w)
  {
    Pow2Add(w - n % w, n % w);
    Swap(x, Pow2(w - n % w), Pow2(n % w))
  }

  lemma MulMonotone(a: nat, b: nat, c: nat)
    requires a <= b
    ensures a * c <= b * c
  {
  }

  lemma MulAssociates(a: nat, b: nat, c: nat)
    ensures a * b * c == a * (b * c)
  {
  }

  lemma DivMod(z: int, m: nat)
    requires m > 0
    ensures z == (z / m) * m + z % m && 0 <= z % m < m
  {
  }

  lemma ModOf(r: nat, q: nat, m: nat)
    requires r < m
    ensures (q * m + r) % m == r && (q * m + r) / m == q
  {
    var x := q * m + r;
    DivMod(x, m);
    OneQuotient(q, r, x / m, x % m, m);
  }

  lemma OneQuotient(q: nat, r: nat, k: nat, s: nat, m: nat)
    requires r < m && s < m && q * m + r == k * m + s
    ensures q == k && r == s
  {
    if k < q {
      MulMonotone(k + 1, q, m);
    } else if k > q {
      MulMonotone(q + 1, k, m);
    }
  }

  lemma Compose(r: nat, s: nat, k: nat, m: nat, n: nat)
    requires r < m && s < n
    ensures m * n > 0 && ((k * n + s) * m + r) / (m * n) == k
  {
    MulMonotone(s + 1, n, m);
    calc {
      (k * n + s) * m + r;
      k * n * m + s * m + r;
      { MulAssociates(k, n, m); assert n * m == m * n; }
      k * (m * n) + (s * m + r);
    }
    ModOf(s * m + r, k, m * n);
  }

  /** Dividing twice is dividing by the product. */
  lemma DivideTwice(d: nat, m: nat, n: nat)
    requires m > 0 && n > 0
    ensures m * n > 0 && d / m / n == d / (m * n)
  {
    var q := d / m;
    DivideAgain(d, q, d % m, q / n, q % n, m, n);
  }

  lemma DivideAgain(d: nat, q: nat, r: nat, k: nat, s: nat, m: nat, n: nat)
    requires r < m && s < n && d == q * m + r && q == k * n + s
    ensures m * n > 0 && d / (m * n) == k
  {
    Compose(r, s, k, m, n);
  }

  /** The two rotations by the same amount undo each other, at every width and for every amount. */
  lemma RotationsCancel(w: nat, x: nat, n: nat)
    requires w > 0 && x < Pow2(w)
    ensures RotR(w, RotL(w, x, n), n) == x
    ensures RotL(w, RotR(w, x, n), n) == x
  {
    hide Pow2, Swap;
    var k := n % w;
    Pow2Add(k, w - k);
    Pow2Add(w - k, k);
    SwapTwice(x, Pow2(k), Pow2(w - k));
    SwapTwice(x, Pow2(w - k), Pow2(k));
  }

  /** The little-endian value of a byte string. */
  function LeWord(b: seq<byte>): (x: nat)
    ensures x < Pow2(8 * |b|)
  {
    if b == [] then 0
    else
      Pow2Add(8, 8 * |b[1..]|);
      assert Pow2(8) == 256;
      b[0] + 256 * LeWord(b[1..])
  }

  /** The `n` little-endian bytes of `x`. */
  function LeBytes(n: nat, x: nat): (b: seq<byte>)
    ensures |b| == n
  {
    if n == 0 then [] else [x % 256] + LeBytes(n - 1, x / 256)
  }

  lemma {:induction false} WordOfBytes(n: nat, x: nat)
    requires x < Pow2(8 * n)
    ensures LeWord(LeBytes(n, x)) == x
  {
    if n == 0 {
    } else {
      Pow2Add(8, 8 * (n - 1));
      assert Pow2(8) == 256;
      WordOfBytes(n - 1, x / 256);
      assert LeBytes(n, x)[1..] == LeBytes(n - 1, x / 256);
    }
  }

  lemma {:induction false} BytesOfWord(b: seq<byte>)
    ensures LeBytes(|b|, LeWord(b)) == b
  {
    if b == [] {
    } else {
      BytesOfWord(b[1..]);
      var x := LeWord(b);
      assert x % 256 == b[0] && x / 256 == LeWord(b[1..]);
    }
  }

  /** Where the bytes of a word stand: byte `i` holds the bits `8 * i` to `8 * i + 7`, so the low byte comes first. */
  lemma {:induction false} ByteAt(n: nat, x: nat, i: nat)
    requires i < n
    ensures LeBytes(n, x)[i] == x / Pow2(8 * i) % 256
    decreases n
  {
    if i == 0 {
    } else {
      ByteAt(n - 1, x / 256, i - 1);
      Pow2Add(8, 8 * (i - 1));
      assert Pow2(8) == 256;
      DivideTwice(x, 256, Pow2(8 * (i - 1)));
    }
  }

  /** The four bytes of a 32-bit word, the low one first. */
  lemma FourBytes(a: byte, b: byte, c: byte, d: byte)
    ensures var x := a + 0x100 * b + 0x1_0000 * c + 0x100_0000 * d;
            LeWord([a, b, c, d]) == x < M32 && LeBytes(4, x) == [a, b, c, d]
  {
    ThreeBytes(b, c, d);
    LowFirst(a, [b, c, d]);
    assert [a] + [b, c, d] == [a, b, c, d];
    assert |[a, b, c, d]| == 4;
    hide *;
    BytesOfWord([a, b, c, d]);
  }

  /** The same for shorter numbers. */
  lemma ThreeBytes(a: byte, b: byte, c: byte)
    ensures LeWord([a, b, c]) == a + 0x100 * b + 0x1_0000 * c && LeWord([b, c]) == b + 0x100 * c && LeWord([c]) == c
  {
    LowFirst(c, []);
    LowFirst(b, [c]);
    LowFirst(a, [b, c]);
    hide Pow2;
    assert LeWord([]) == 0;
    hide LeWord;
    assert [c] + [] == [c] && [b] + [c] == [b, c] && [a] + [b, c] == [a, b, c];
  }

  lemma LowFirst(a: byte, b: seq<byte>)
    ensures LeWord([a] + b) == a + 0x100 * LeWord(b)
  {
    hide Pow2;
    assert ([a] + b)[1..] == b;
  }

  /** The four bytes of any 32-bit word, taken by dividing. */
  lemma BytesByDividing(x: u32)
    ensures LeBytes(4, x) == [x % 0x100, x / 0x100 % 0x100, x / 0x1_0000 % 0x100, x / 0x100_0000]
  {
    DivideTwice(x, 0x100, 0x100);
    DivideTwice(x, 0x1_0000, 0x100);
    var q, r, t := x / 0x100, x / 0x1_0000, x / 0x100_0000;
    DivMod(x, 0x100);
    DivMod(q, 0x100);
    DivMod(r, 0x100);
    assert t < 0x100;
    hide *;
    FourBytes(x % 0x100, q % 0x100, r % 0x100, t);
  }

  // ---------------------------------------------------------------- the operations bit by bit

  function Divided(x: nat, p: nat): nat
    requires p > 0
  {
    x / p
  }

  /** `x >> k`, `x` cut to `k` bits, and the two put together again. */
  function Shifted(x: nat, k: nat): nat { Divided(x, Pow2(k)) }
  function Cut(x: nat, k: nat): nat { x % Pow2(k) }
  function Above(high: nat, low: nat, k: nat): nat { high * Pow2(k) + low }

  /** Bit `i` of a number. */
  function Bit(x: nat, i: nat): (b: nat)
    ensures b < 2
  {
    Shifted(x, i) % 2
  }

  lemma FirstBit(x: nat)
    ensures Bit(x, 0) == x % 2
  {
  }

  lemma NextBit(x: nat, i: nat)
    ensures Bit(x, i + 1) == Bit(x / 2, i)
  {
    DivideTwice(x, 2, Pow2(i));
  }

  lemma BitXorHalves(a: nat, b: nat)
    ensures BitXor(a, b) / 2 == BitXor(a / 2, b / 2) && BitXor(a, b) % 2 == (a % 2 + b % 2) % 2
  {
    BitXorTurn(a, b);
    hide BitXor;
    Halves(BitXor(a / 2, b / 2), if a % 2 == b % 2 then 0 else 1);
  }

  lemma BitXorTurn(a: nat, b: nat)
    ensures BitXor(a, b) == 2 * BitXor(a / 2, b / 2) + if a % 2 == b % 2 then 0 else 1
  {
  }

  lemma Halves(q: nat, r: nat)
    requires r < 2
    ensures (2 * q + r) / 2 == q && (2 * q + r) % 2 == r
  {
  }

  lemma {:induction false} BitXorBit(a: nat, b: nat, i: nat)
    ensures Bit(BitXor(a, b), i) == (Bit(a, i) + Bit(b, i)) % 2
    decreases i
  {
    hide BitXor, Bit;
    BitXorHalves(a, b);
    if i == 0 {
      FirstBit(a);
      FirstBit(b);
      FirstBit(BitXor(a, b));
    } else {
      NextBit(a, i - 1);
      NextBit(b, i - 1);
      NextBit(BitXor(a, b), i - 1);
      BitXorBit(a / 2, b / 2, i - 1);
    }
  }

  lemma ShiftTwice(x: nat, k: nat, i: nat)
    ensures Shifted(Shifted(x, k), i) == Shifted(x, k + i)
  {
    hide Pow2;
    Pow2Add(k, i);
    DivideTwice(x, Pow2(k), Pow2(i));
  }

  lemma BitOfShifted(x: nat, k: nat, i: nat)
    ensures Bit(Shifted(x, k), i) == Bit(x, k + i)
  {
    hide Shifted;
    ShiftTwice(x, k, i);
  }

  lemma AboveShifted(high: nat, low: nat, k: nat)
    requires low < Pow2(k)
    ensures Shifted(Above(high, low, k), k) == high
  {
    hide Pow2;
    ModOf(low, high, Pow2(k));
  }

  lemma CutAndShifted(x: nat, k: nat)
    ensures Cut(x, k) < Pow2(k) && x == Above(Shifted(x, k), Cut(x, k), k)
  {
    hide Pow2;
    DivMod(x, Pow2(k));
  }

  lemma SameParity(c: nat, q: nat)
    ensures (2 * c + q) % 2 == q % 2
  {
  }

  lemma Distributes(a: nat, b: nat, c: nat)
    ensures (a + b) * c == a * c + b * c
  {
  }

  lemma ThreeFactors(a: nat, b: nat, c: nat)
    ensures a * (b * (2 * c)) == (2 * (a * c)) * b
  {
    MulAssociates(a, b, 2 * c);
    MulAssociates(a * b, 2, c);
    assert a * b * c == a * c * b by { MulAssociates(a, b, c); MulAssociates(a, c, b); }
    MulAssociates(2, a * c, b);
  }

  /** A multiple of a higher power of two shifts down to an even number. */
  lemma AboveLow(high: nat, low: nat, i: nat, j: nat)
    requires j > 0
    ensures Shifted(Above(high, low, i + j), i) == 2 * (high * Pow2(j - 1)) + Shifted(low, i)
  {
    Pow2Add(i, j);
    assert Pow2(j) == 2 * Pow2(j - 1);
    hide Pow2;
    ThreeFactors(high, Pow2(i), Pow2(j - 1));
    QuotientAbove(2 * (high * Pow2(j - 1)), low, Pow2(i));
  }

  lemma QuotientAbove(c: nat, low: nat, p: nat)
    requires p > 0
    ensures (c * p + low) / p == c + low / p
  {
    DivMod(low, p);
    Distributes(c, low / p, p);
    ModOf(low % p, c + low / p, p);
  }

  /** The bits below position `i + j` of a number that has `high` from there on. */
  lemma LowBit(high: nat, low: nat, i: nat, j: nat)
    requires j > 0
    ensures Bit(Above(high, low, i + j), i) == Bit(low, i)
  {
    hide Shifted, Above;
    AboveLow(high, low, i, j);
    SameParity(high * Pow2(j - 1), Shifted(low, i));
  }

  lemma BitBelow(w: nat, x: nat, i: nat)
    requires i < w
    ensures Bit(Cut(x, w), i) == Bit(x, i)
  {
    hide Bit, Above, Shifted, Cut;
    CutAndShifted(x, w);
    LowBit(Shifted(x, w), Cut(x, w), i, w - i);
  }

  /** The exclusive or, bit by bit, at every width. */
  lemma XorBits(w: nat, a: nat, b: nat, i: nat)
    requires i < w
    ensures Bit(Xor(w, a, b), i) == (Bit(a, i) + Bit(b, i)) % 2
  {
    hide BitXor, Bit;
    BitXorBit(a % Pow2(w), b % Pow2(w), i);
    BitBelow(w, a, i);
    BitBelow(w, b, i);
  }

  lemma RotLIs(w: nat, x: nat, n: nat)
    requires w > 0 && x < Pow2(w)
    ensures var k := n % w;
            RotL(w, x, n) == Above(Cut(x, w - k), Shifted(x, w - k), k) && Shifted(x, w - k) < Pow2(k)
  {
    hide Pow2;
    var k := n % w;
    Pow2Add(k, w - k);
    HighDigit(x, Pow2(k), Pow2(w - k));
  }

  /** Left rotation by `n` moves bit `i` to bit `i + n` modulo the width, for every bit, width and amount. */
  lemma RotationMoves(w: nat, x: nat, n: nat, i: nat)
    requires w > 0 && x < Pow2(w) && i < w
    ensures Bit(RotL(w, x, n), (i + n) % w) == Bit(x, i)
  {
    hide Bit, Above, Shifted, Cut, RotL;
    var k := n % w;
    var low, high := Cut(x, w - k), Shifted(x, w - k);
    RotLIs(w, x, n);
    RotatedIndex(w, n, i);
    if i + k < w {
      AboveShifted(low, high, k);
      BitOfShifted(Above(low, high, k), k, i);
      BitBelow(w - k, x, i);
    } else {
      LowBit(low, high, i + k - w, w - i);
      BitOfShifted(x, w - k, i + k - w);
    }
  }

  lemma RotatedIndex(w: nat, n: nat, i: nat)
    requires i < w
    ensures (i + n) % w == if i + n % w < w then i + n % w else i + n % w - w
  {
    var k, q := n % w, n / w;
    DivMod(n, w);
    if i + k < w {
      ModOf(i + k, q, w);
    } else {
      Distributes(q, 1, w);
      ModOf(i + k - w, q + 1, w);
    }
  }
}
