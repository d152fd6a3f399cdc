/**
  The `Crypt` object of Common/src/Cryptography/Crypt.cpp: two key schedules filling tables in place, and the
  six buffer routines, each working from a source into a destination that is either the same memory or
  another buffer.
 */
module Crypt {
  import opened Words
  import opened Cipher

  const KEY16: seq<byte> := [0x3d, 0x63, 0xc5, 0xa3, 0x6d, 0x9a, 0xdb, 0xa5,
                             0xd1, 0xb2, 0x7a, 0x17, 0xb6, 0x56, 0x2c, 0xba]
  const KEY32: seq<byte> := [0x76, 0xb7, 0x4b, 0x98, 0x4c, 0x5b, 0xd5, 0xe3,
                             0xc1, 0x92, 0x33, 0x6a, 0x7b, 0xe6, 0xcc, 0xeb,
                             0x17, 0x9a, 0x77, 0xbc, 0x31, 0x5d, 0xe7, 0x39,
                             0xa9, 0x32, 0x54, 0x88, 0x66, 0xd3, 0xce, 0x43]

  // ---------------------------------------------------------------- key schedule as functions of the key

  /** A byte stored in a signed `char` and widened again. */
  function Signed(b: byte): int { if b < 128 then b else b - 256 }

  /** `(x << 8) + keyByte + userByte` in 32 bits. */
  function FoldKeyByte(x: u32, keyByte: byte, userByte: byte): u32
  {
    (x * 256 + keyByte + Signed(userByte)) % M32
  }

  /** Word `w` of the key array after `n` of its four bytes were shifted into an initial content `x`. */
  function Fill(key: seq<byte>, user: seq<byte>, w: nat, n: nat, x: u32): u32
    requires n <= 4 && |user| == 4 && 4 * w + 4 <= |key|
  {
    if n == 0 then x
    else FoldKeyByte(Fill(key, user, w, n - 1, x), key[4 * w + 4 - n], user[n - 1])
  }

  /** Four shifts by 8 bits push out whatever the word held before. */
  lemma FillForgets(key: seq<byte>, user: seq<byte>, w: nat, x: u32, y: u32)
    requires |user| == 4 && 4 * w + 4 <= |key|
    ensures Fill(key, user, w, 4, x) == Fill(key, user, w, 4, y)
  {
    var c := seq(4, i requires 0 <= i < 4 => key[4 * w + 3 - i] + Signed(user[i]));
    FillUnrolled(key, user, w, x, c);
    FillUnrolled(key, user, w, y, c);
    ShiftedOut(x, y, c[0], c[1], c[2], c[3]);
  }

  function Shift(x: int, c: int): (r: int)
    ensures 0 <= r < M32
  {
    (x * 256 + c) % M32
  }

  lemma FillUnrolled(key: seq<byte>, user: seq<byte>, w: nat, x: u32, c: seq<int>)
    requires |user| == 4 && 4 * w + 4 <= |key|
    requires |c| == 4 && forall i :: 0 <= i < 4 ==> c[i] == key[4 * w + 3 - i] + Signed(user[i])
    ensures Fill(key, user, w, 4, x) == Shift(Shift(Shift(Shift(x, c[0]), c[1]), c[2]), c[3])
  {
    assert Fill(key, user, w, 1, x) == Shift(x, c[0]);
    assert Fill(key, user, w, 2, x) == Shift(Fill(key, user, w, 1, x), c[1]);
    assert Fill(key, user, w, 3, x) == Shift(Fill(key, user, w, 2, x), c[2]);
    assert Fill(key, user, w, 4, x) == Shift(Fill(key, user, w, 3, x), c[3]);
  }

  /** After four shifts the value is `(c0 << 24) + (c1 << 16) + (c2 << 8) + c3` modulo 2^32. */
  lemma ShiftedOut(x: int, y: int, c0: int, c1: int, c2: int, c3: int)
    ensures Shift(Shift(Shift(Shift(x, c0), c1), c2), c3) == Shift(Shift(Shift(Shift(y, c0), c1), c2), c3)
  {
    hide Shift;
    var k := FourShifts(x, c0, c1, c2, c3);
    var l := FourShifts(y, c0, c1, c2, c3);
    SameResidue(Shift(Shift(Shift(Shift(x, c0), c1), c2), c3), Shift(Shift(Shift(Shift(y, c0), c1), c2), c3), k - l);
  }

  lemma SameResidue(a: int, b: int, k: int)
    requires 0 <= a < M32 && 0 <= b < M32 && a - b == k * 0x1_0000_0000
    ensures a == b
  {
  }

  lemma FourShifts(x: int, c0: int, c1: int, c2: int, c3: int) returns (k: int)
    ensures Shift(Shift(Shift(Shift(x, c0), c1), c2), c3)
         == 0x100_0000 * c0 + 0x1_0000 * c1 + 0x100 * c2 + c3 + k * 0x1_0000_0000
  {
    var x1 := Shift(x, c0);
    var x2 := Shift(x1, c1);
    var x3 := Shift(x2, c2);
    k := x - 0x100_0000 * ((x * 256 + c0) / M32) - 0x1_0000 * ((x1 * 256 + c1) / M32)
           - 0x100 * ((x2 * 256 + c2) / M32) - (x3 * 256 + c3) / M32;
  }

  /** The key array: every word filled from its key bytes and the user key, starting from any content. */
  function KeyWords(key: seq<byte>, user: u32): (l: seq<u32>)
    requires |key| % 4 == 0
    ensures |l| == |key| / 4
  {
    var u := LeBytes(4, user);
    seq(|key| / 4, w requires 0 <= w < |key| / 4 => Fill(key, u, w, 4, 0))
  }

  /** Each key word in closed form: its four key bytes from the high one down, each with one signed user byte. */
  lemma KeyWordIs(key: seq<byte>, user: u32, w: nat)
    requires |key| % 4 == 0 && 4 * w + 4 <= |key|
    ensures KeyWords(key, user)[w]
         == (0x100_0000 * (key[4 * w + 3] + Signed(user % 0x100))
             + 0x1_0000 * (key[4 * w + 2] + Signed(user / 0x100 % 0x100))
             + 0x100 * (key[4 * w + 1] + Signed(user / 0x1_0000 % 0x100))
             + (key[4 * w] + Signed(user / 0x100_0000))) % M32
  {
    hide Fill, Signed, Shift;
    var u := LeBytes(4, user);
    BytesByDividing(user);
    hide LeBytes;
    var c := seq(4, i requires 0 <= i < 4 => key[4 * w + 3 - i] + Signed(u[i]));
    FillUnrolled(key, u, w, 0, c);
    var k := FourShifts(0, c[0], c[1], c[2], c[3]);
    var z := 0x100_0000 * c[0] + 0x1_0000 * c[1] + 0x100 * c[2] + c[3];
    var x := Shift(Shift(Shift(Shift(0, c[0]), c[1]), c[2]), c[3]);
    Reduced(x, z, k);
  }

  lemma Reduced(x: nat, z: int, k: int)
    requires x < M32 && x == z + k * 0x1_0000_0000
    ensures x == z % M32
  {
  }

  /** How many bytes of word `w` have been shifted in when the key bytes above index `i` are consumed. */
  ghost function Loaded(i: int, w: nat): (n: nat)
    ensures n <= 4
  {
    if i < 4 * w then 4 else if i > 4 * w + 3 then 0 else 4 * w + 3 - i
  }

  /** The key array when the key bytes above index `i` are consumed. */
  ghost function LoadedWords(key: seq<byte>, user: seq<byte>, start: seq<u32>, i: int): (l: seq<u32>)
    requires |user| == 4 && |key| == 4 * |start|
    ensures |l| == |start|
  {
    seq(|start|, w requires 0 <= w < |start| => Fill(key, user, w, Loaded(i, w), start[w]))
  }

  lemma LoadedNone(key: seq<byte>, user: seq<byte>, start: seq<u32>)
    requires |user| == 4 && |key| == 4 * |start|
    ensures LoadedWords(key, user, start, |key| - 1) == start
  {
    forall w | 0 <= w < |start| ensures Loaded(|key| - 1, w) == 0 || |key| - 1 == 4 * w + 3 {
    }
  }

  lemma LoadedAll(key: seq<byte>, user: u32, start: seq<u32>)
    requires |key| == 4 * |start|
    ensures LoadedWords(key, LeBytes(4, user), start, -1) == KeyWords(key, user)
  {
    hide Fill, LeBytes;
    forall w | 0 <= w < |start|
      ensures LoadedWords(key, LeBytes(4, user), start, -1)[w] == KeyWords(key, user)[w]
    {
      FillForgets(key, LeBytes(4, user), w, start[w], 0);
    }
  }

  lemma NextUserByte(n: nat, k: nat)
    requires k == n % 4
    ensures k < 4 && (n + 1) % 4 == if k + 1 > 3 then 0 else k + 1
  {
  }

  lemma LoadedStep(key: seq<byte>, user: seq<byte>, start: seq<u32>, i: nat)
    requires |user| == 4 && |key| == 4 * |start| && i < |key|
    ensures var l := LoadedWords(key, user, start, i);
            LoadedWords(key, user, start, i - 1)
            == l[i / 4 := FoldKeyByte(l[i / 4], key[i], user[(|key| - 1 - i) % 4])]
  {
    hide FoldKeyByte;
    var l, v := LoadedWords(key, user, start, i), i / 4;
    assert i == 4 * v + 3 - Loaded(i, v) && (|key| - 1 - i) % 4 == Loaded(i, v);
    forall w | 0 <= w < |start| && w != v
      ensures Loaded(i - 1, w) == Loaded(i, w)
    {
    }
  }

  /** The initial table: an arithmetic progression modulo 2^32. */
  function Progression(start: u32, step: u32, n: nat): (s: seq<u32>)
    ensures |s| == n
  {
    seq(n, i requires 0 <= i < n => (start + i * step) % M32)
  }

  lemma ProgressionStep(start: u32, step: u32, i: nat)
    ensures ((start + i * step) % M32 + step) % M32 == (start + (i + 1) * step) % M32
  {
    NextMultiple(i, step);
    AddAfterReducing(start + i * step, step);
  }

  lemma NextMultiple(i: nat, step: nat)
    ensures (i + 1) * step == i * step + step
  {
  }

  lemma AddAfterReducing(x: nat, step: nat)
    ensures (x % M32 + step) % M32 == (x + step) % M32
  {
  }

  lemma ProgressionOne(start: u32, step: u32)
    ensures Progression(start, step, 1) == [start]
  {
  }

  lemma ProgressionAppend(start: u32, step: u32, i: nat)
    requires i > 0
    ensures var p := Progression(start, step, i); Progression(start, step, i + 1) == p + [(p[i - 1] + step) % M32]
  {
    ProgressionStep(start, step, i - 1);
  }

  datatype Mixing = Mixing(s: seq<u32>, l: seq<u32>, a: u32, b: u32, i: nat, j: nat) {
    predicate Valid() { i < |s| && j < |l| }
  }

  /** One step of the mixing loop; `stride` is how far the table index moves. */
  function MixStep(m: Mixing, stride: nat): (r: Mixing)
    requires m.Valid()
    ensures r.Valid() && |r.s| == |m.s| && |r.l| == |m.l|
  {
    Pow2Widths();
    var a: u32 := RotL(32, (m.s[m.i] + m.a + m.b) % M32, 3);
    var b: u32 := RotL(32, (m.l[m.j] + a + m.b) % M32, (a + m.b) % M32);
    Mixing(m.s[m.i := a], m.l[m.j := b], a, b, (m.i + stride) % |m.s|, (m.j + 1) % |m.l|)
  }

  lemma MixStepIs(m: Mixing, stride: nat)
    requires m.Valid()
    ensures Pow2(32) == M32
    ensures var a := RotL(32, (m.s[m.i] + m.a + m.b) % M32, 3);
            var b := RotL(32, (m.l[m.j] + a + m.b) % M32, (a + m.b) % M32);
            MixStep(m, stride)
            == Mixing(m.s[m.i := a], m.l[m.j := b], a, b, (m.i + stride) % |m.s|, (m.j + 1) % |m.l|)
  {
    hide RotL, Pow2;
    Pow2Widths();
  }

  function Mix(m: Mixing, stride: nat, n: nat): (r: Mixing)
    requires m.Valid()
    ensures r.Valid() && |r.s| == |m.s| && |r.l| == |m.l|
    decreases n
  {
    if n == 0 then m else MixStep(Mix(m, stride, n - 1), stride)
  }

  lemma MixNext(m: Mixing, stride: nat, n: nat)
    requires m.Valid()
    ensures Mix(m, stride, 0) == m && Mix(m, stride, n + 1) == MixStep(Mix(m, stride, n), stride)
  {
    hide MixStep;
  }

  /** The mixing loop visits the table three times its length. */
  function Schedule(s: seq<u32>, l: seq<u32>, stride: nat): (r: seq<u32>)
    requires s != [] && l != []
    ensures |r| == |s|
  {
    Mix(Mixing(s, l, 0, 0, 0, 0), stride, 3 * |s|).s
  }

  /** The RC5 table: 78 mixing steps whose index moves by 13 modulo 26. */
  function Rc5Table(user: u32): (s: seq<u32>)
    ensures |s| == 26
  {
    Schedule(Progression(0x5163, 0x79b9, 26), KeyWords(KEY16, user), 13)
  }

  /** The RC6 table: 252 mixing steps whose index moves by 1 modulo 84. */
  function Rc6Table(user: u32): (s: seq<u32>)
    ensures |s| == 84
  {
    Schedule(Progression(0xb7e15163, 0x9e3779b9, 84), KeyWords(KEY32, user), 1)
  }

  function KeysFor(user: u32): (k: Keys)
    ensures k.Valid() && k.user == user
  {
    Keys(Rc5Table(user), Rc6Table(user), user)
  }

  // ---------------------------------------------------------------- what the mixing leaves in the tables

  /** The place in the table that the index comes to in step `t` of a round. */
  function Place(t: nat, stride: nat): nat { t * stride }

  /** The index comes to `lag` places, one stride apart, and then starts again. */
  predicate Cycle(s: seq<u32>, l: seq<u32>, stride: nat, lag: nat)
  {
    stride > 0 && lag > 0 && |s| == Place(lag, stride) && l != []
  }

  lemma PlaceBelow(t: nat, lag: nat, stride: nat)
    requires stride > 0 && t < lag
    ensures Place(t, stride) < Place(lag, stride) && Place(t + 1, stride) == Place(t, stride) + stride
    ensures Place(t, stride) % stride == 0
  {
    MulMonotone(t + 1, lag, stride);
    ModOf(0, t, stride);
  }

  lemma PlacesDiffer(t: nat, u: nat, stride: nat)
    requires stride > 0 && t != u
    ensures Place(t, stride) != Place(u, stride)
  {
    if t < u {
      MulMonotone(t + 1, u, stride);
    } else {
      MulMonotone(u + 1, t, stride);
    }
  }

  /** The words A and B after the step that takes `x` from the table and `y` from the key. */
  function NextWords(x: u32, y: u32, a: u32, b: u32): (u32, u32)
  {
    Pow2Widths();
    var a': u32 := RotL(32, (x + a + b) % M32, 3);
    (a', RotL(32, (y + a' + b) % M32, (a' + b) % M32))
  }

  lemma NextWordsIs(x: u32, y: u32, a: u32, b: u32)
    ensures Pow2(32) == M32
    ensures var c := RotL(32, (x + a + b) % M32, 3);
            NextWords(x, y, a, b) == (c, RotL(32, (y + c + b) % M32, (c + b) % M32))
  {
    hide RotL, Pow2;
    Pow2Widths();
  }

  /** The words A and B after `n` mixing steps as a recurrence of their own, without tables that change in place. */
  function Stream(s: seq<u32>, l: seq<u32>, stride: nat, lag: nat, n: nat): (r: (u32, u32))
    requires Cycle(s, l, stride, lag)
    decreases n
  {
    if n == 0 then (0, 0)
    else
      var (a, b) := Stream(s, l, stride, lag, n - 1);
      var x := if n > lag then Stream(s, l, stride, lag, n - lag).0
               else (PlaceBelow(n - 1, lag, stride); s[Place(n - 1, stride)]);
      var y := if n > |l| then Stream(s, l, stride, lag, n - |l|).1 else l[n - 1];
      NextWords(x, y, a, b)
  }

  function Turn(n: nat, m: nat): (r: nat)
    requires m > 0
    ensures r < m
  {
    n % m
  }

  /** The last step up to `n` that came to the `t`-th of `lag` places, or 0. */
  function Latest(n: nat, lag: nat, t: nat): (v: nat)
    requires lag > 0
  {
    var rounds := n / lag + if t < n % lag then 1 else 0;
    if rounds == 0 then 0 else Place(rounds - 1, lag) + t + 1
  }

  lemma NextRound(n: nat, lag: nat)
    requires lag > 0
    ensures n % lag < lag
    ensures (n + 1) / lag == n / lag + (if n % lag + 1 == lag then 1 else 0)
    ensures (n + 1) % lag == if n % lag + 1 == lag then 0 else n % lag + 1
  {
    var q, r := n / lag, n % lag;
    DivMod(n, lag);
    if r + 1 == lag {
      Distributes(q, 1, lag);
      ModOf(0, q + 1, lag);
    } else {
      ModOf(r + 1, q, lag);
    }
  }

  lemma NoRound(lag: nat)
    requires lag > 0
    ensures 0 / lag == 0 && 0 % lag == 0
  {
    ModOf(0, 0, lag);
  }

  lemma RoundsOf(n: nat, lag: nat)
    requires lag > 0
    ensures n == Place(n / lag, lag) + n % lag
    ensures n / lag > 0 ==> Place(n / lag, lag) == Place(n / lag - 1, lag) + lag
    ensures n / lag == 0 ==> Place(n / lag, lag) == 0
  {
    DivMod(n, lag);
    if n / lag > 0 {
      Distributes(n / lag - 1, 1, lag);
    }
  }

  lemma LatestStep(n: nat, lag: nat, t: nat)
    requires t < lag
    ensures Latest(n + 1, lag, t) == if n % lag == t then n + 1 else Latest(n, lag, t)
    ensures n % lag == t ==> Latest(n, lag, t) == if n + 1 <= lag then 0 else n + 1 - lag
  {
    hide Place;
    NextRound(n, lag);
    RoundsOf(n, lag);
  }

  lemma LatestNone(lag: nat, t: nat)
    requires lag > 0
    ensures Latest(0, lag, t) == 0
  {
    NoRound(lag);
  }

  /** What stands in the `t`-th place of the table, and in word `k` of the key, after `n` steps. */
  function RoundKey(s: seq<u32>, l: seq<u32>, stride: nat, lag: nat, n: nat, t: nat): u32
    requires Cycle(s, l, stride, lag) && t < lag
  {
    var v := Latest(n, lag, t);
    if v > 0 then Stream(s, l, stride, lag, v).0 else (PlaceBelow(t, lag, stride); s[Place(t, stride)])
  }

  function KeyWord(s: seq<u32>, l: seq<u32>, stride: nat, lag: nat, n: nat, k: nat): u32
    requires Cycle(s, l, stride, lag) && k < |l|
  {
    var v := Latest(n, |l|, k);
    if v > 0 then Stream(s, l, stride, lag, v).1 else l[k]
  }

  /** The state of the mixing loop after `n` steps, told by the recurrence. */
  ghost predicate Follows(m: Mixing, s: seq<u32>, l: seq<u32>, stride: nat, lag: nat, n: nat)
    requires Cycle(s, l, stride, lag)
  {
    && |m.s| == |s| && |m.l| == |l| && (m.a, m.b) == Stream(s, l, stride, lag, n)
    && m.i == Place(Turn(n, lag), stride) && m.j == Turn(n, |l|)
    && TableFollows(m.s, s, l, stride, lag, n) && KeyFollows(m.l, s, l, stride, lag, n)
  }

  ghost predicate TableFollows(u: seq<u32>, s: seq<u32>, l: seq<u32>, stride: nat, lag: nat, n: nat)
    requires Cycle(s, l, stride, lag) && |u| == |s|
  {
    && (forall t :: 0 <= t < lag ==> Place(t, stride) < |s| && u[Place(t, stride)] == RoundKey(s, l, stride, lag, n, t))
    && (forall k :: 0 <= k < |s| && k % stride != 0 ==> u[k] == s[k])
  }

  ghost predicate KeyFollows(u: seq<u32>, s: seq<u32>, l: seq<u32>, stride: nat, lag: nat, n: nat)
    requires Cycle(s, l, stride, lag) && |u| == |l|
  {
    forall k :: 0 <= k < |l| ==> u[k] == KeyWord(s, l, stride, lag, n, k)
  }

  lemma RoundKeyStep(s: seq<u32>, l: seq<u32>, stride: nat, lag: nat, n: nat, t: nat)
    requires Cycle(s, l, stride, lag) && t < lag
    ensures RoundKey(s, l, stride, lag, n + 1, t)
         == if t == Turn(n, lag) then Stream(s, l, stride, lag, n + 1).0 else RoundKey(s, l, stride, lag, n, t)
    ensures Place(t, stride) < |s|
    ensures t == Turn(n, lag) ==>
              RoundKey(s, l, stride, lag, n, t)
              == if n + 1 > lag then Stream(s, l, stride, lag, n + 1 - lag).0 else s[Place(t, stride)]
  {
    hide Stream, Latest, Place;
    PlaceBelow(t, lag, stride);
    LatestStep(n, lag, t);
  }

  lemma KeyWordStep(s: seq<u32>, l: seq<u32>, stride: nat, lag: nat, n: nat, k: nat)
    requires Cycle(s, l, stride, lag) && k < |l|
    ensures KeyWord(s, l, stride, lag, n + 1, k)
         == if k == Turn(n, |l|) then Stream(s, l, stride, lag, n + 1).1 else KeyWord(s, l, stride, lag, n, k)
    ensures k == Turn(n, |l|) ==>
              KeyWord(s, l, stride, lag, n, k)
              == if n + 1 > |l| then Stream(s, l, stride, lag, n + 1 - |l|).1 else l[k]
  {
    hide Stream, Latest, Place;
    LatestStep(n, |l|, k);
  }

  lemma SmallTurn(n: nat, m: nat)
    requires m > 0
    ensures n < m ==> Turn(n, m) == n
    ensures Turn(m, m) == 0
  {
  }

  lemma StreamStep(s: seq<u32>, l: seq<u32>, stride: nat, lag: nat, n: nat)
    requires Cycle(s, l, stride, lag)
    ensures var (a, b) := Stream(s, l, stride, lag, n);
            var x, y := RoundKey(s, l, stride, lag, n, Turn(n, lag)), KeyWord(s, l, stride, lag, n, Turn(n, |l|));
            Stream(s, l, stride, lag, n + 1) == NextWords(x, y, a, b)
  {
    hide NextWords, RoundKey, KeyWord, Place, Turn;
    SmallTurn(n, lag);
    SmallTurn(n, |l|);
    RoundKeyStep(s, l, stride, lag, n, Turn(n, lag));
    KeyWordStep(s, l, stride, lag, n, Turn(n, |l|));
  }

  lemma NextIndex(n: nat, m: nat)
    requires m > 0
    ensures Turn(n + 1, m) == if Turn(n, m) + 1 == m then 0 else Turn(n, m) + 1
    ensures Turn(Turn(n, m) + 1, m) == Turn(n + 1, m)
  {
    NextRound(n, m);
    SmallTurn(n % m + 1, m);
  }

  lemma NextPlace(s: seq<u32>, l: seq<u32>, stride: nat, lag: nat, n: nat)
    requires Cycle(s, l, stride, lag)
    ensures |s| > 0 && Turn(Place(Turn(n, lag), stride) + stride, |s|) == Place(Turn(n + 1, lag), stride)
  {
    hide Place, Turn;
    NextIndex(n, lag);
    PlaceBelow(Turn(n, lag), lag, stride);
    SmallTurn(Place(Turn(n, lag), stride) + stride, |s|);
    if Turn(n, lag) + 1 == lag {
      PlaceZero(stride);
    } else {
      PlaceBelow(Turn(n, lag) + 1, lag, stride);
    }
  }

  lemma PlaceZero(stride: nat)
    ensures Place(0, stride) == 0
  {
  }

  lemma MixStepTurns(m: Mixing, stride: nat)
    requires m.Valid()
    ensures var (a, b) := NextWords(m.s[m.i], m.l[m.j], m.a, m.b);
            MixStep(m, stride) == Mixing(m.s[m.i := a], m.l[m.j := b], a, b, Turn(m.i + stride, |m.s|),
                                         Turn(m.j + 1, |m.l|))
  {
    hide NextWords, RotL, MixStep, Pow2;
    MixStepIs(m, stride);
    NextWordsIs(m.s[m.i], m.l[m.j], m.a, m.b);
  }

  lemma TableStep(u: seq<u32>, s: seq<u32>, l: seq<u32>, stride: nat, lag: nat, n: nat)
    requires Cycle(s, l, stride, lag) && |u| == |s| && TableFollows(u, s, l, stride, lag, n)
    ensures Place(Turn(n, lag), stride) < |s|
    ensures u[Place(Turn(n, lag), stride)] == RoundKey(s, l, stride, lag, n, Turn(n, lag))
    ensures TableFollows(u[Place(Turn(n, lag), stride) := Stream(s, l, stride, lag, n + 1).0], s, l, stride, lag, n + 1)
  {
    hide Stream, RoundKey, Place, Turn;
    PlaceBelow(Turn(n, lag), lag, stride);
    var v := u[Place(Turn(n, lag), stride) := Stream(s, l, stride, lag, n + 1).0];
    forall t | 0 <= t < lag
      ensures Place(t, stride) < |s| && v[Place(t, stride)] == RoundKey(s, l, stride, lag, n + 1, t)
    {
      RoundKeyStep(s, l, stride, lag, n, t);
      if t != Turn(n, lag) {
        PlacesDiffer(t, Turn(n, lag), stride);
      }
    }
  }

  lemma KeyStep(u: seq<u32>, s: seq<u32>, l: seq<u32>, stride: nat, lag: nat, n: nat)
    requires Cycle(s, l, stride, lag) && |u| == |l| && KeyFollows(u, s, l, stride, lag, n)
    ensures u[Turn(n, |l|)] == KeyWord(s, l, stride, lag, n, Turn(n, |l|))
    ensures KeyFollows(u[Turn(n, |l|) := Stream(s, l, stride, lag, n + 1).1], s, l, stride, lag, n + 1)
  {
    hide Stream, KeyWord, Place, Turn;
    var v := u[Turn(n, |l|) := Stream(s, l, stride, lag, n + 1).1];
    forall k | 0 <= k < |l| ensures v[k] == KeyWord(s, l, stride, lag, n + 1, k) {
      KeyWordStep(s, l, stride, lag, n, k);
    }
  }

  lemma FollowsStep(m: Mixing, s: seq<u32>, l: seq<u32>, stride: nat, lag: nat, n: nat)
    requires Cycle(s, l, stride, lag) && m.Valid() && Follows(m, s, l, stride, lag, n)
    ensures Follows(MixStep(m, stride), s, l, stride, lag, n + 1)
  {
    hide Stream, RoundKey, KeyWord, MixStep, NextWords, Place, TableFollows, KeyFollows, Turn;
    MixStepTurns(m, stride);
    TableStep(m.s, s, l, stride, lag, n);
    KeyStep(m.l, s, l, stride, lag, n);
    StreamStep(s, l, stride, lag, n);
    NextPlace(s, l, stride, lag, n);
    NextIndex(n, |l|);
  }

  lemma FollowsStart(s: seq<u32>, l: seq<u32>, stride: nat, lag: nat)
    requires Cycle(s, l, stride, lag)
    ensures Follows(Mixing(s, l, 0, 0, 0, 0), s, l, stride, lag, 0)
  {
    hide Latest;
    NoRound(lag);
    NoRound(|l|);
    forall t | 0 <= t < lag ensures Place(t, stride) < |s| && Latest(0, lag, t) == 0 {
      PlaceBelow(t, lag, stride);
      LatestNone(lag, t);
    }
    forall k | 0 <= k < |l| ensures Latest(0, |l|, k) == 0 {
      LatestNone(|l|, k);
    }
  }

  lemma {:induction false} MixFollows(s: seq<u32>, l: seq<u32>, stride: nat, lag: nat, n: nat)
    requires Cycle(s, l, stride, lag) && s != []
    ensures Follows(Mix(Mixing(s, l, 0, 0, 0, 0), stride, n), s, l, stride, lag, n)
    decreases n
  {
    hide Follows, MixStep, Place;
    if n == 0 {
      FollowsStart(s, l, stride, lag);
    } else {
      MixFollows(s, l, stride, lag, n - 1);
      FollowsStep(Mix(Mixing(s, l, 0, 0, 0, 0), stride, n - 1), s, l, stride, lag, n - 1);
    }
  }

  lemma LastVisit(n: nat, lag: nat, stride: nat, t: nat)
    requires n == Place(lag, stride) && t < lag
    ensures Latest(3 * n, lag, t) + lag == if stride == 0 then lag else 3 * n + t + 1
  {
    MulAssociates(3, lag, stride);
    MulAssociates(3, stride, lag);
    assert 3 * n == (3 * stride) * lag;
    ModOf(0, 3 * stride, lag);
    if stride > 0 {
      Distributes(3 * stride - 1, 1, lag);
    }
  }

  /**
    What the whole mixing leaves: every place that the index comes to holds the word of its last visit, and every other
    place holds what it held before.
   */
  lemma ScheduleIs(s: seq<u32>, l: seq<u32>, stride: nat, lag: nat)
    requires Cycle(s, l, stride, lag) && s != [] && lag <= |s|
    ensures forall t :: 0 <= t < lag ==>
              && Place(t, stride) < |s|
              && Schedule(s, l, stride)[Place(t, stride)] == Stream(s, l, stride, lag, 3 * |s| - lag + t + 1).0
    ensures forall k :: 0 <= k < |s| && k % stride != 0 ==> Schedule(s, l, stride)[k] == s[k]
  {
    hide Stream, Mix, Latest, Place;
    MixFollows(s, l, stride, lag, 3 * |s|);
    forall t | 0 <= t < lag ensures Latest(3 * |s|, lag, t) == 3 * |s| - lag + t + 1 {
      LastVisit(|s|, lag, stride, t);
    }
  }

  /**
    The RC5 table of every user key. The index moves by 13 of 26 places, so only two of them are ever mixed; the other
    24 keep the progression they were filled with and do not depend on the key at all.
   */
  lemma Rc5TableIs(user: u32, k: nat)
    requires k < 26
    ensures Cycle(Progression(0x5163, 0x79b9, 26), KeyWords(KEY16, user), 13, 2)
    ensures var s, l := Progression(0x5163, 0x79b9, 26), KeyWords(KEY16, user);
            Rc5Table(user)[k] == if k == 0 then Stream(s, l, 13, 2, 77).0
                                 else if k == 13 then Stream(s, l, 13, 2, 78).0
                                 else (0x5163 + k * 0x79b9) % M32
  {
    hide Stream, Schedule, KeyWords;
    ScheduleIs(Progression(0x5163, 0x79b9, 26), KeyWords(KEY16, user), 13, 2);
    assert Place(0, 13) == 0 && Place(1, 13) == 13;
  }

  /** The RC6 table of every user key: all 84 places are mixed three times, and the third time is what stays. */
  lemma Rc6TableIs(user: u32, k: nat)
    requires k < 84
    ensures Cycle(Progression(0xb7e15163, 0x9e3779b9, 84), KeyWords(KEY32, user), 1, 84)
    ensures Rc6Table(user)[k]
         == Stream(Progression(0xb7e15163, 0x9e3779b9, 84), KeyWords(KEY32, user), 1, 84, 169 + k).0
  {
    hide Stream, Schedule, KeyWords, Progression;
    ScheduleIs(Progression(0xb7e15163, 0x9e3779b9, 84), KeyWords(KEY32, user), 1, 84);
    assert Place(k, 1) == k;
  }

  // ---------------------------------------------------------------- buffers

  /** `s` with the bytes `b` written over it from position `at`. */
  function Splice(s: seq<byte>, at: nat, b: seq<byte>): (r: seq<byte>)
    requires at + |b| <= |s|
    ensures |r| == |s|
  {
    s[..at] + b + s[at + |b|..]
  }

  lemma SpliceAppend(s: seq<byte>, at: nat, a: seq<byte>, b: seq<byte>)
    requires at + |a| + |b| <= |s|
    ensures Splice(Splice(s, at, a), at + |a|, b) == Splice(s, at, a + b)
    ensures Splice(Splice(s, at + |a|, b), at, a) == Splice(s, at, a + b)
  {
  }

  lemma SpliceRest(s: seq<byte>, at: nat, b: seq<byte>)
    requires at + |b| <= |s|
    ensures Splice(s, at, b)[at + |b|..] == s[at + |b|..]
    ensures Splice(s, at, []) == s
  {
  }

  lemma Subslice(s: seq<byte>, lo: nat, hi: nat, i: nat, j: nat)
    requires lo <= hi <= |s| && i <= j <= hi - lo
    ensures s[lo..hi][i..j] == s[lo + i..lo + j]
  {
    var t := s[lo..hi];
    assert forall k :: 0 <= k < hi - lo ==> t[k] == s[lo + k];
  }

  lemma SuffixSlice(a: seq<byte>, b: seq<byte>, lo: nat, hi: nat)
    requires |a| == |b| && lo <= hi <= |a| && a[lo..] == b[lo..]
    ensures a[lo..hi] == b[lo..hi]
  {
    forall i | lo <= i < hi
      ensures a[i] == b[i]
    {
      assert a[lo..][i - lo] == b[lo..][i - lo];
    }
  }

  lemma SpliceSelf(s: seq<byte>, at: nat, n: nat)
    requires at + n <= |s|
    ensures Splice(s, at, s[at..at + n]) == s
  {
  }

  method LoadWord(a: array<byte>, at: nat, n: nat) returns (x: nat)
    requires at + n <= a.Length
    ensures x == LeWord(a[at..at + n]) && x < Pow2(8 * n)
  {
    x := 0;
    var i := n;
    while i > 0
      invariant 0 <= i <= n
      invariant x == LeWord(a[at + i..at + n])
    {
      i := i - 1;
      assert a[at + i..at + n][1..] == a[at + i + 1..at + n];
      x := a[at + i] + 256 * x;
    }
    assert a[at..at + n] == a[at + 0..at + n];
  }

  /** `memcpy` of some bytes. */
  method StoreBytes(a: array<byte>, at: nat, b: seq<byte>)
    requires at + |b| <= a.Length
    modifies a
    ensures a[..] == Splice(old(a[..]), at, b)
  {
    forall i | 0 <= i < |b| {
      a[at + i] := b[i];
    }
  }

  method StoreWord(a: array<byte>, at: nat, n: nat, x: nat)
    requires at + n <= a.Length
    modifies a
    ensures a[..] == Splice(old(a[..]), at, LeBytes(n, x))
  {
    StoreBytes(a, at, LeBytes(n, x));
  }

  class Crypt {
    const rc5S: array<u32>
    const rc6S: array<u32>
    var userKey: u32

    ghost predicate Valid()
    {
      rc5S.Length == 26 && rc6S.Length == 84 && rc5S != rc6S
    }

    /** The key tables this object currently holds. */
    ghost function Tables(): (k: Keys)
      requires Valid()
      reads this, rc5S, rc6S
      ensures k.Valid()
    {
      Keys(rc5S[..], rc6S[..], userKey)
    }

    constructor ()
      ensures Valid() && fresh(rc5S) && fresh(rc6S) && userKey == 0
    {
      rc5S := new u32[26];
      rc6S := new u32[84];
      userKey := 0;
    }

    /** Loads the key into `L`, whose words other than the last start out uninitialised. */
    static method LoadKey(l: array<u32>, key: seq<byte>, user: u32)
      requires l.Length > 0 && |key| == 4 * l.Length
      modifies l
      ensures l[..] == KeyWords(key, user)
    {
      hide LoadedWords, KeyWords, FoldKeyByte;
      var u := LeBytes(4, user);
      var i, k := |key| - 1, 0;
      l[l.Length - 1] := 0;
      ghost var start := l[..];
      LoadedNone(key, u, start);
      while i >= 0
        invariant -1 <= i < |key|
        invariant k == (|key| - 1 - i) % 4
        invariant l[..] == LoadedWords(key, u, start, i)
      {
        LoadedStep(key, u, start, i);
        NextUserByte(|key| - 1 - i, k);
        l[i / 4] := FoldKeyByte(l[i / 4], key[i], u[k]);
        k := if k + 1 > 3 then 0 else k + 1;
        i := i - 1;
      }
      LoadedAll(key, user, start);
    }

    static method FillProgression(s: array<u32>, start: u32, step: u32)
      requires s.Length > 0
      modifies s
      ensures s[..] == Progression(start, step, s.Length)
    {
      s[0] := start;
      var i := 1;
      ProgressionOne(start, step);
      hide Progression;
      while i < s.Length
        invariant 1 <= i <= s.Length
        invariant s[..i] == Progression(start, step, i)
      {
        s[i] := (s[i - 1] + step) % M32;
        ProgressionAppend(start, step, i);
        assert s[..i + 1] == s[..i] + [s[i]] && s[i - 1] == s[..i][i - 1];
        i := i + 1;
      }
      assert s[..s.Length] == s[..];
    }

    static method MixOnce(s: array<u32>, l: array<u32>, a0: u32, b0: u32, i: nat, j: nat, ghost stride: nat)
      returns (a: u32, b: u32)
      requires s != l && i < s.Length && j < l.Length
      modifies s, l
      ensures MixStep(Mixing(old(s[..]), old(l[..]), a0, b0, i, j), stride)
           == Mixing(s[..], l[..], a, b, (i + stride) % s.Length, (j + 1) % l.Length)
    {
      hide RotL, Pow2, MixStep;
      MixStepIs(Mixing(s[..], l[..], a0, b0, i, j), stride);
      s[i] := RotL(32, (s[i] + a0 + b0) % M32, 3);
      a := s[i];
      l[j] := RotL(32, (l[j] + a + b0) % M32, (a + b0) % M32);
      b := l[j];
    }

    static method MixTables(s: array<u32>, l: array<u32>, stride: nat, steps: nat)
      requires s.Length > 0 && l.Length > 0 && s != l && steps == 3 * s.Length
      modifies s, l
      ensures s[..] == Schedule(old(s[..]), old(l[..]), stride)
    {
      hide MixStep, Mix, RotL, Pow2;
      var a: u32, b: u32, i, j, k := 0, 0, 0, 0, 0;
      ghost var start := Mixing(s[..], l[..], 0, 0, 0, 0);
      MixNext(start, stride, 0);
      while k < steps
        invariant 0 <= k <= steps && 0 <= i < s.Length && 0 <= j < l.Length
        invariant Mix(start, stride, k) == Mixing(s[..], l[..], a, b, i, j)
      {
        MixNext(start, stride, k);
        a, b := MixOnce(s, l, a, b, i, j, stride);
        i := (i + stride) % s.Length;
        j := (j + 1) % l.Length;
        k := k + 1;
      }
    }

    method RC5KeySetup()
      requires Valid()
      modifies rc5S
      ensures rc5S[..] == Rc5Table(userKey)
    {
      var l := new u32[4];
      LoadKey(l, KEY16, userKey);
      FillProgression(rc5S, 0x5163, 0x79b9);
      MixTables(rc5S, l, 26 / 2, 26 * 3);
    }

    method RC6KeySetup()
      requires Valid()
      modifies rc6S
      ensures rc6S[..] == Rc6Table(userKey)
    {
      var l := new u32[8];
      LoadKey(l, KEY32, userKey);
      FillProgression(rc6S, 0xb7e15163, 0x9e3779b9);
      MixTables(rc6S, l, 1, 84 * 3);
    }

    method KeySetup(key: u32)
      requires Valid()
      modifies this, rc5S, rc6S
      ensures Valid() && Tables() == KeysFor(key)
    {
      userKey := key;
      RC5KeySetup();
      RC6KeySetup();
    }

    // -------------------------------------------------------------- one block in registers

    method EncryptPair(w: nat, a0: nat, b0: nat) returns (a: nat, b: nat)
      requires Valid() && w > 0 && IsPair(w, (a0, b0))
      ensures (a, b) == Rc5EncryptPair(w, Tables(), (a0, b0))
    {
      hide RotL, Xor, AddW, Rc5Round, Pow2;
      a := AddW(w, a0, rc5S[0]);
      b := AddW(w, b0, rc5S[1]);
      ghost var start := (a, b);
      var i := 1;
      while i <= 12
        invariant 1 <= i <= 13 && IsPair(w, (a, b))
        invariant (a, b) == Rc5Rounds(w, rc5S[..], start, i - 1)
      {
        RoundStep(w, rc5S[..], a, b, i);
        a := AddW(w, RotL(w, Xor(w, a, b), b), rc5S[2 * i]);
        b := AddW(w, RotL(w, Xor(w, b, a), a), rc5S[2 * i + 1]);
        i := i + 1;
      }
      a := Xor(w, a, userKey);
      b := Xor(w, b, userKey);
    }

    method DecryptPair(w: nat, a0: nat, b0: nat) returns (a: nat, b: nat)
      requires Valid() && w > 0 && IsPair(w, (a0, b0))
      ensures (a, b) == Rc5DecryptPair(w, Tables(), (a0, b0))
    {
      hide RotR, Xor, SubW, Rc5Unround, Pow2;
      a := Xor(w, a0, userKey);
      b := Xor(w, b0, userKey);
      ghost var start := (a, b);
      var i := 12;
      while i > 0
        invariant 0 <= i <= 12 && IsPair(w, (a, b))
        invariant Rc5Unrounds(w, rc5S[..], start, Rc5RoundCount(rc5S[..])) == Rc5Unrounds(w, rc5S[..], (a, b), i)
      {
        UnroundStep(w, rc5S[..], a, b, i);
        b := Xor(w, RotR(w, SubW(w, b, rc5S[2 * i + 1]), a), a);
        a := Xor(w, RotR(w, SubW(w, a, rc5S[2 * i]), b), b);
        i := i - 1;
      }
      a := SubW(w, a, rc5S[0]);
      b := SubW(w, b, rc5S[1]);
    }

    method EncryptQuad(q0: Quad) returns (q: Quad)
      requires Valid() && IsQuad(32, q0)
      ensures IsQuad(32, q) && q == Rc6EncryptQuad(Tables(), q0)
    {
      hide RotL, Xor, AddW, Rc6Round, Pow2, Quadratic;
      var a, b, c, d := q0.a, AddW(32, q0.b, rc6S[0]), q0.c, AddW(32, q0.d, rc6S[1]);
      ghost var start := Quad(a, b, c, d);
      var i := 2;
      while i <= 2 * 40
        invariant 2 <= i <= 82 && i % 2 == 0 && IsQuad(32, Quad(a, b, c, d))
        invariant Quad(a, b, c, d) == Rc6Rounds(rc6S[..], start, i / 2 - 1)
      {
        Rc6RoundStep(rc6S[..], Quad(a, b, c, d), i / 2);
        var t, u := Quadratic(b), Quadratic(d);
        a := AddW(32, RotL(32, Xor(32, a, t), u), rc6S[i]);
        c := AddW(32, RotL(32, Xor(32, c, u), t), rc6S[i + 1]);
        var x := a;
        a := b;
        b := c;
        c := d;
        d := x;
        i := i + 2;
      }
      q := Quad(Xor(32, AddW(32, a, rc6S[2 * 40 + 2]), userKey), Xor(32, b, userKey),
                Xor(32, AddW(32, c, rc6S[2 * 40 + 3]), userKey), Xor(32, d, userKey));
    }

    method DecryptQuad(q0: Quad) returns (q: Quad)
      requires Valid() && IsQuad(32, q0)
      ensures IsQuad(32, q) && q == Rc6DecryptQuad(Tables(), q0)
    {
      hide RotR, Xor, SubW, Rc6Unround, Pow2, Quadratic;
      var a, b := SubW(32, Xor(32, q0.a, userKey), rc6S[2 * 40 + 2]), Xor(32, q0.b, userKey);
      var c, d := SubW(32, Xor(32, q0.c, userKey), rc6S[2 * 40 + 3]), Xor(32, q0.d, userKey);
      ghost var start := Quad(a, b, c, d);
      var i := 2 * 40;
      while i >= 2
        invariant 0 <= i <= 80 && i % 2 == 0 && IsQuad(32, Quad(a, b, c, d))
        invariant Rc6Unrounds(rc6S[..], start, Rc6RoundCount(rc6S[..]))
               == Rc6Unrounds(rc6S[..], Quad(a, b, c, d), i / 2)
      {
        Rc6UnroundStep(rc6S[..], Quad(a, b, c, d), i / 2);
        var x := d;
        d := c;
        c := b;
        b := a;
        a := x;
        var u, t := Quadratic(d), Quadratic(b);
        c := Xor(32, RotR(32, SubW(32, c, rc6S[i + 1]), t), u);
        a := Xor(32, RotR(32, SubW(32, a, rc6S[i]), u), t);
        i := i - 2;
      }
      q := Quad(a, SubW(32, b, rc6S[0]), c, SubW(32, d, rc6S[1]));
    }

    // -------------------------------------------------------------- buffers

    /** A byte buffer that is not one of the tables of this object. */
    ghost predicate Apart(a: array<byte>)
    {
      a as object != rc5S && a as object != rc6S
    }

    /** `size` bytes from `so` of `src` and from `to` of `dst`: the same memory, or two buffers. */
    ghost predicate Buffers(src: array<byte>, so: nat, dst: array<byte>, to: nat, size: nat)
    {
      && Valid() && Apart(dst)
      && so + size <= src.Length && to + size <= dst.Length
      && (src == dst ==> so == to)
    }

    /** One RC5 block read from `src` and written to `dst`. */
    method PairBlock(dir: Direction, m: Mode, src: array<byte>, s: nat, dst: array<byte>, d: nat)
      requires m != Rc6 && Buffers(src, s, dst, d, BlockSize(m))
      modifies dst
      ensures dst[..] == Splice(old(dst[..]), d, Block(dir, m, Tables(), old(src[s..s + BlockSize(m)])))
    {
      hide RotL, RotR, Xor, Pow2, Rc5EncryptPair, Rc5DecryptPair, LeWord, LeBytes, Splice;
      var n := Width(m) / 8;
      Subslice(src[..], s, s + 2 * n, 0, n);
      Subslice(src[..], s, s + 2 * n, n, 2 * n);
      var a := LoadWord(src, s, n);
      var b := LoadWord(src, s + n, n);
      if dir == Encrypt {
        a, b := EncryptPair(8 * n, a, b);
      } else {
        a, b := DecryptPair(8 * n, a, b);
      }
      StoreWord(dst, d, n, a);
      StoreWord(dst, d + n, n, b);
      SpliceAppend(old(dst[..]), d, LeBytes(n, a), LeBytes(n, b));
    }

    /** One RC6 block read from `src` and written to `dst`. */
    method QuadBlock(dir: Direction, src: array<byte>, s: nat, dst: array<byte>, d: nat)
      requires Buffers(src, s, dst, d, 16)
      modifies dst
      ensures dst[..] == Splice(old(dst[..]), d, Block(dir, Rc6, Tables(), old(src[s..s + 16])))
    {
      hide RotL, RotR, Xor, Pow2, Rc6EncryptQuad, Rc6DecryptQuad, LeWord, LeBytes, Splice;
      Subslice(src[..], s, s + 16, 0, 4);
      Subslice(src[..], s, s + 16, 4, 8);
      Subslice(src[..], s, s + 16, 8, 12);
      Subslice(src[..], s, s + 16, 12, 16);
      var a := LoadWord(src, s, 4);
      var b := LoadWord(src, s + 4, 4);
      var c := LoadWord(src, s + 8, 4);
      var e := LoadWord(src, s + 12, 4);
      var q := Quad(a, b, c, e);
      if dir == Encrypt {
        q := EncryptQuad(q);
      } else {
        q := DecryptQuad(q);
      }
      StoreWord(dst, d, 4, q.a);
      StoreWord(dst, d + 4, 4, q.b);
      SpliceAppend(old(dst[..]), d, LeBytes(4, q.a), LeBytes(4, q.b));
      StoreWord(dst, d + 8, 4, q.c);
      SpliceAppend(old(dst[..]), d, LeBytes(4, q.a) + LeBytes(4, q.b), LeBytes(4, q.c));
      StoreWord(dst, d + 12, 4, q.d);
      SpliceAppend(old(dst[..]), d, LeBytes(4, q.a) + LeBytes(4, q.b) + LeBytes(4, q.c), LeBytes(4, q.d));
    }

    /** The first block of a remainder that goes to `end`; the rest of the remainder is still unread. */
    method OneBlock(dir: Direction, m: Mode, src: array<byte>, s: nat, dst: array<byte>, d: nat, ghost end: nat)
      returns (ghost blk: seq<byte>)
      requires s + BlockSize(m) <= end && Buffers(src, s, dst, d, end - s)
      modifies dst
      ensures blk == Block(dir, m, Tables(), old(src[s..end])[..BlockSize(m)])
      ensures dst[..] == Splice(old(dst[..]), d, blk)
      ensures src[s + BlockSize(m)..end] == old(src[s..end])[BlockSize(m)..]
    {
      hide Block, Splice;
      var n := BlockSize(m);
      ghost var source := src[..];
      Subslice(source, s, end, 0, n);
      Subslice(source, s, end, n, end - s);
      blk := Block(dir, m, Tables(), source[s..s + n]);
      if m == Rc6 {
        QuadBlock(dir, src, s, dst, d);
      } else {
        PairBlock(dir, m, src, s, dst, d);
      }
      if src == dst {
        SpliceRest(source, s, blk);
        SuffixSlice(src[..], source, s + n, end);
      }
    }

    /** The block loop shared by the six routines: all whole blocks of mode `m`, front to back. */
    method Blocks(dir: Direction, m: Mode, src: array<byte>, so: nat, dst: array<byte>, to: nat, size: nat)
      returns (whole: nat, ghost out: seq<byte>)
      requires Buffers(src, so, dst, to, size)
      modifies dst
      ensures |out| == whole <= size < whole + BlockSize(m) && whole % 4 == 0
      ensures dst[..] == Splice(old(dst[..]), to, out)
      ensures src[so + whole..so + size] == old(src[so + whole..so + size])
      ensures var all := old(src[so..so + size]);
              Cascade(dir, m, Tables(), all) == out + Cascade(dir, m, Tables(), all[whole..])
    {
      hide Block, Cascade, Splice, BlockSize, Turned;
      var n := BlockSize(m);
      whole, out := 0, [];
      ghost var all, k, before := src[so..so + size], Tables(), dst[..];
      SpliceRest(before, to, []);
      NoneTurned(dir, m, k, all);
      while size - whole >= n
        invariant |out| == whole <= size && whole % 4 == 0
        invariant dst[..] == Splice(before, to, out)
        invariant src[so + whole..so + size] == all[whole..]
        invariant Tables() == k
        invariant Turned(dir, m, k, all, out)
      {
        ghost var blk := OneBlock(dir, m, src, so + whole, dst, to + whole, so + size);
        AppendBlock(dir, m, k, all, out, blk);
        SpliceAppend(before, to, out, blk);
        whole, out := whole + n, out + blk;
      }
      TurnedIs(dir, m, k, all, out);
    }

    method RC5Encrypt32(src: array<byte>, so: nat, dst: array<byte>, to: nat, size: nat)
      requires Buffers(src, so, dst, to, size)
      modifies dst
      ensures dst[..] == Splice(old(dst[..]), to, Cascade(Encrypt, Rc5Half, Tables(), old(src[so..so + size])))
    {
      hide Splice, Cascade, Block;
      ghost var all := src[so..so + size];
      CopyTail(src, so, dst, to, size);
      var whole, out := Blocks(Encrypt, Rc5Half, src, so, dst, to, size);
      assert whole == size - size % 4;
      Subslice(old(src[..]), so, so + size, whole, size);
      CascadeRest(Encrypt, Rc5Half, Tables(), all[whole..]);
      SpliceAppend(old(dst[..]), to, out, all[whole..]);
    }

    method RC5Decrypt32(src: array<byte>, so: nat, dst: array<byte>, to: nat, size: nat)
      requires Buffers(src, so, dst, to, size)
      modifies dst
      ensures dst[..] == Splice(old(dst[..]), to, Cascade(Decrypt, Rc5Half, Tables(), old(src[so..so + size])))
    {
      hide Splice, Cascade, Block;
      ghost var all := src[so..so + size];
      CopyTail(src, so, dst, to, size);
      var whole, out := Blocks(Decrypt, Rc5Half, src, so, dst, to, size);
      assert whole == size - size % 4;
      Subslice(old(src[..]), so, so + size, whole, size);
      CascadeRest(Decrypt, Rc5Half, Tables(), all[whole..]);
      SpliceAppend(old(dst[..]), to, out, all[whole..]);
    }

    /** The `memcpy` of the last `size % 4` bytes, done only when the buffers differ. */
    method CopyTail(src: array<byte>, so: nat, dst: array<byte>, to: nat, size: nat)
      requires Buffers(src, so, dst, to, size)
      modifies dst
      ensures dst[..] == Splice(old(dst[..]), to + size - size % 4, old(src[so + size - size % 4..so + size]))
      ensures src[so..so + size] == old(src[so..so + size])
    {
      hide Splice;
      var tail := size % 4;
      CopyLast(src, so + size - tail, dst, to + size - tail, tail);
    }

    method CopyLast(src: array<byte>, from: nat, dst: array<byte>, at: nat, tail: nat)
      requires Buffers(src, from, dst, at, tail)
      modifies dst
      ensures dst[..] == Splice(old(dst[..]), at, old(src[from..from + tail]))
      ensures src == dst ==> dst[..] == old(dst[..])
    {
      hide Splice;
      if src != dst && tail != 0 {
        StoreBytes(dst, at, src[from..from + tail]);
      } else if src == dst {
        SpliceSelf(dst[..], at, tail);
      } else {
        assert src[from..from + tail] == [];
        SpliceRest(dst[..], at, []);
      }
    }

    method RC5Encrypt64(src: array<byte>, so: nat, dst: array<byte>, to: nat, size: nat)
      requires Buffers(src, so, dst, to, size)
      modifies dst
      ensures dst[..] == Splice(old(dst[..]), to, Cascade(Encrypt, Rc5Full, Tables(), old(src[so..so + size])))
    {
      hide Splice, Cascade, Block;
      ghost var all := src[so..so + size];
      var whole, out := Blocks(Encrypt, Rc5Full, src, so, dst, to, size);
      Subslice(old(src[..]), so, so + size, whole, size);
      RC5Encrypt32(src, so + whole, dst, to + whole, size - whole);
      CascadeRest(Encrypt, Rc5Full, Tables(), all[whole..]);
      SpliceAppend(old(dst[..]), to, out, Cascade(Encrypt, Rc5Half, Tables(), all[whole..]));
    }

    method RC5Decrypt64(src: array<byte>, so: nat, dst: array<byte>, to: nat, size: nat)
      requires Buffers(src, so, dst, to, size)
      modifies dst
      ensures dst[..] == Splice(old(dst[..]), to, Cascade(Decrypt, Rc5Full, Tables(), old(src[so..so + size])))
    {
      hide Splice, Cascade, Block;
      ghost var all := src[so..so + size];
      var whole, out := Blocks(Decrypt, Rc5Full, src, so, dst, to, size);
      Subslice(old(src[..]), so, so + size, whole, size);
      RC5Decrypt32(src, so + whole, dst, to + whole, size - whole);
      CascadeRest(Decrypt, Rc5Full, Tables(), all[whole..]);
      SpliceAppend(old(dst[..]), to, out, Cascade(Decrypt, Rc5Half, Tables(), all[whole..]));
    }

    method RC6Encrypt128(src: array<byte>, so: nat, dst: array<byte>, to: nat, size: nat)
      requires Buffers(src, so, dst, to, size)
      modifies dst
      ensures dst[..] == Splice(old(dst[..]), to, Cascade(Encrypt, Rc6, Tables(), old(src[so..so + size])))
    {
      hide Splice, Cascade, Block;
      ghost var all := src[so..so + size];
      var whole, out := Blocks(Encrypt, Rc6, src, so, dst, to, size);
      Subslice(old(src[..]), so, so + size, whole, size);
      RC5Encrypt64(src, so + whole, dst, to + whole, size - whole);
      CascadeRest(Encrypt, Rc6, Tables(), all[whole..]);
      SpliceAppend(old(dst[..]), to, out, Cascade(Encrypt, Rc5Full, Tables(), all[whole..]));
    }

    method RC6Decrypt128(src: array<byte>, so: nat, dst: array<byte>, to: nat, size: nat)
      requires Buffers(src, so, dst, to, size)
      modifies dst
      ensures dst[..] == Splice(old(dst[..]), to, Cascade(Decrypt, Rc6, Tables(), old(src[so..so + size])))
    {
      hide Splice, Cascade, Block;
      ghost var all := src[so..so + size];
      var whole, out := Blocks(Decrypt, Rc6, src, so, dst, to, size);
      Subslice(old(src[..]), so, so + size, whole, size);
      RC5Decrypt64(src, so + whole, dst, to + whole, size - whole);
      CascadeRest(Decrypt, Rc6, Tables(), all[whole..]);
      SpliceAppend(old(dst[..]), to, out, Cascade(Decrypt, Rc5Full, Tables(), all[whole..]));
    }
  }

  /** The first bytes of the buffer have been turned into `out`, whole blocks of mode `m`. */
  ghost predicate Turned(d: Direction, m: Mode, k: Keys, all: seq<byte>, out: seq<byte>)
    requires k.Valid()
  {
    |out| <= |all| && Cascade(d, m, k, all) == out + Cascade(d, m, k, all[|out|..])
  }

  lemma NoneTurned(d: Direction, m: Mode, k: Keys, all: seq<byte>)
    requires k.Valid()
    ensures Turned(d, m, k, all, []) && all[0..] == all
  {
    hide Cascade;
    assert all[0..] == all;
  }

  lemma TurnedIs(d: Direction, m: Mode, k: Keys, all: seq<byte>, out: seq<byte>)
    requires k.Valid() && Turned(d, m, k, all, out)
    ensures |out| <= |all| && Cascade(d, m, k, all) == out + Cascade(d, m, k, all[|out|..])
  {
    hide Cascade;
  }

  /** One more block moves from the remainder to the output. */
  lemma AppendBlock(d: Direction, m: Mode, k: Keys, all: seq<byte>, out: seq<byte>, blk: seq<byte>)
    requires k.Valid() && |out| + BlockSize(m) <= |all| && Turned(d, m, k, all, out)
    requires blk == Block(d, m, k, all[|out|..][..BlockSize(m)])
    ensures Turned(d, m, k, all, out + blk)
    ensures all[|out|..][BlockSize(m)..] == all[|out| + BlockSize(m)..]
  {
    hide Block, Cascade, BlockSize;
    CascadeStep(d, m, k, all[|out|..]);
    assert all[|out|..][BlockSize(m)..] == all[|out| + BlockSize(m)..];
    Associates(out, blk, Cascade(d, m, k, all[|out| + BlockSize(m)..]));
  }

  lemma RoundStep(w: nat, s: seq<u32>, a: nat, b: nat, i: nat)
    requires w > 0 && |s| == 26 && 1 <= i <= 12
    ensures Rc5Round(w, s, (a, b), i)
         == (var x := AddW(w, RotL(w, Xor(w, a, b), b), s[2 * i]);
             (x, AddW(w, RotL(w, Xor(w, b, x), x), s[2 * i + 1])))
  {
    hide RotL, Xor, AddW, Pow2;
  }

  lemma UnroundStep(w: nat, s: seq<u32>, a: nat, b: nat, i: nat)
    requires w > 0 && |s| == 26 && 1 <= i <= 12
    ensures Rc5Unround(w, s, (a, b), i)
         == (var y := Xor(w, RotR(w, SubW(w, b, s[2 * i + 1]), a), a);
             (Xor(w, RotR(w, SubW(w, a, s[2 * i]), y), y), y))
  {
    hide RotR, Xor, SubW, Pow2;
  }

  lemma Rc6RoundStep(s: seq<u32>, q: Quad, i: nat)
    requires |s| == 84 && 1 <= i <= 40 && IsQuad(32, q)
    ensures Rc6Round(s, q, i)
         == (var t, u := Quadratic(q.b), Quadratic(q.d);
             Quad(q.b, AddW(32, RotL(32, Xor(32, q.c, u), t), s[2 * i + 1]),
                  q.d, AddW(32, RotL(32, Xor(32, q.a, t), u), s[2 * i])))
  {
    hide RotL, Xor, AddW, Pow2, Quadratic;
  }

  lemma Rc6UnroundStep(s: seq<u32>, q: Quad, i: nat)
    requires |s| == 84 && 1 <= i <= 40 && IsQuad(32, q)
    ensures Rc6Unround(s, q, i)
         == (var t, u := Quadratic(q.a), Quadratic(q.c);
             Quad(Xor(32, RotR(32, SubW(32, q.d, s[2 * i]), u), t), q.a,
                  Xor(32, RotR(32, SubW(32, q.b, s[2 * i + 1]), t), u), q.c))
  {
    hide RotR, Xor, SubW, Pow2, Quadratic;
  }
}
