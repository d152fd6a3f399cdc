/**
  The Base32 codec of ExternalLibraries/libcppotp/bytes.h (RFC 4648, section 6).

  A chunk of up to five bytes is one number below 2^40; its eight base-32 digits are the characters. The bits
  that `whole |= bits << n` sets are clear before, so the source's or is written as an addition.
 */
module Base32 {
  import opened Collections
  import opened Words

  datatype Result<T> = Ok(value: T) | Err(error: string)

  // ---------------------------------------------------------------- positional numbers

  function Pow(base: nat, n: nat): (p: nat)
    requires base > 0
    ensures p > 0
  {
    if n == 0 then 1 else base * Pow(base, n - 1)
  }

  /** The value of big-endian digits. */
  function Value(base: nat, ds: seq<nat>): nat
  {
    if ds == [] then 0 else Value(base, ds[..|ds| - 1]) * base + ds[|ds| - 1]
  }

  /** The `n` big-endian digits of `x`. */
  function Digits(base: nat, n: nat, x: nat): (ds: seq<nat>)
    requires base > 0
    ensures |ds| == n && forall i :: 0 <= i < n ==> ds[i] < base
    decreases n
  {
    if n == 0 then [] else Digits(base, n - 1, x / base) + [x % base]
  }

  predicate AreDigits(base: nat, ds: seq<nat>)
  {
    forall i :: 0 <= i < |ds| ==> ds[i] < base
  }

  lemma {:induction false} DigitsOfValue(base: nat, ds: seq<nat>)
    requires base > 0 && AreDigits(base, ds)
    ensures Digits(base, |ds|, Value(base, ds)) == ds
    decreases |ds|
  {
    if ds == [] {
    } else {
      var init, last := ds[..|ds| - 1], ds[|ds| - 1];
      DigitsOfValue(base, init);
      ModOf(last, Value(base, init), base);
    }
  }

  lemma {:induction false} ValueOfDigits(base: nat, n: nat, x: nat)
    requires base > 0 && x < Pow(base, n)
    ensures Value(base, Digits(base, n, x)) == x
    decreases n
  {
    if n == 0 {
    } else {
      Quotient(x, base, Pow(base, n - 1));
      ValueOfDigits(base, n - 1, x / base);
      assert Digits(base, n, x)[..n - 1] == Digits(base, n - 1, x / base);
    }
  }

  lemma Quotient(x: nat, a: nat, b: nat)
    requires a > 0 && x < a * b
    ensures x / a < b && x == (x / a) * a + x % a
  {
    if x / a >= b {
      MulMonotone(b, x / a, a);
    }
  }

  lemma {:induction false} ValueBound(base: nat, ds: seq<nat>)
    requires base > 0 && AreDigits(base, ds)
    ensures Value(base, ds) < Pow(base, |ds|)
    decreases |ds|
  {
    if ds == [] {
    } else {
      var v, p := Value(base, ds[..|ds| - 1]), Pow(base, |ds| - 1);
      ValueBound(base, ds[..|ds| - 1]);
      LastDigit(v, ds[|ds| - 1], p, base);
    }
  }

  lemma LastDigit(v: nat, d: nat, p: nat, base: nat)
    requires v < p && d < base
    ensures v * base + d < base * p
  {
    MulMonotone(v + 1, p, base);
  }

  lemma {:induction false} ValueAppendZeros(base: nat, ds: seq<nat>, n: nat)
    requires base > 0
    ensures Value(base, ds + Repeat<nat>(0, n)) == Value(base, ds) * Pow(base, n)
    decreases n
  {
    if n == 0 {
      assert ds + Repeat<nat>(0, 0) == ds;
    } else {
      var all := ds + Repeat<nat>(0, n);
      assert all[..|all| - 1] == ds + Repeat<nat>(0, n - 1);
      ValueAppendZeros(base, ds, n - 1);
      MulAssociates(Value(base, ds), Pow(base, n - 1), base);
      assert Pow(base, n - 1) * base == Pow(base, n);
    }
  }

  /** A multiple of base^n ends in n zero digits, and what is in front are the digits of the quotient. */
  lemma {:induction false} DigitsOfMultiple(base: nat, m: nat, n: nat, q: nat)
    requires base > 0
    ensures Digits(base, m + n, q * Pow(base, n)) == Digits(base, m, q) + Repeat<nat>(0, n)
    decreases n
  {
    if n == 0 {
    } else {
      var r := q * Pow(base, n - 1);
      MulAssociates(q, base, Pow(base, n - 1));
      assert q * Pow(base, n) == r * base by {
        assert q * base * Pow(base, n - 1) == r * base by {
          MulAssociates(q, Pow(base, n - 1), base);
          assert base * Pow(base, n - 1) == Pow(base, n - 1) * base;
        }
      }
      ModOf(0, r, base);
      DigitsOfMultiple(base, m, n - 1, q);
    }
  }

  // ---------------------------------------------------------------- characters

  function CharOf(v: nat): (c: char)
    requires v < 32
  {
    if v < 26 then (v + 'A' as int) as char else (v - 26 + '2' as int) as char
  }

  predicate IsBase32Char(c: char) { 'A' <= c <= 'Z' || '2' <= c <= '7' }

  function ValueOf(c: char): (v: nat)
    requires IsBase32Char(c)
    ensures v < 32
  {
    if 'A' <= c <= 'Z' then c as int - 'A' as int else c as int - '2' as int + 26
  }

  lemma CharRoundTrip(v: nat, c: char)
    requires v < 32 && IsBase32Char(c)
    ensures IsBase32Char(CharOf(v)) && ValueOf(CharOf(v)) == v && CharOf(v) != '='
    ensures CharOf(ValueOf(c)) == c
  {
  }

  function Chars(vs: seq<nat>): (s: string)
    requires AreDigits(32, vs)
    ensures |s| == |vs|
  {
    seq(|vs|, i requires 0 <= i < |vs| => CharOf(vs[i]))
  }

  function Pads(n: nat): (s: string)
    ensures |s| == n && forall i :: 0 <= i < n ==> s[i] == '='
  {
    seq(n, _ => '=')
  }

  // ---------------------------------------------------------------- one chunk

  /** How many characters carry the bits of `k` bytes. */
  function CharCount(k: nat): (n: nat)
    requires 1 <= k <= 5
    ensures 2 <= n <= 8
  {
    if k == 1 then 2 else if k == 2 then 4 else if k == 3 then 5 else if k == 4 then 7 else 8
  }

  /** The last character of `k` bytes has unused low bits; this many values fit in them. */
  function Spare(k: nat): (f: nat)
    requires 1 <= k <= 5
    ensures f > 0
  {
    if k == 1 then 4 else if k == 2 then 16 else if k == 3 then 2 else if k == 4 then 8 else 1
  }

  function EncodeChunk(bs: seq<byte>): (s: string)
    requires 1 <= |bs| <= 5
    ensures |s| == 8
  {
    var n := CharCount(|bs|);
    Chars(Digits(32, 8, Value(256, bs + Repeat<nat>(0, 5 - |bs|)))[..n]) + Pads(8 - n)
  }

  /** What the decoder has gathered from some leading characters. */
  datatype Gathered = Bits(values: seq<nat>, pads: nat) | Bad(error: string)

  function Gather(s: string): (g: Gathered)
    ensures g.Bits? ==> |g.values| + g.pads == |s| && AreDigits(32, g.values)
  {
    if s == [] then Bits([], 0)
    else
      var g, c := Gather(s[..|s| - 1]), s[|s| - 1];
      if g.Bad? then g
      else if c == '=' then g.(pads := g.pads + 1)
      else if g.pads > 0 then Bad("padding character followed by non-padding character")
      else if IsBase32Char(c) then g.(values := g.values + [ValueOf(c)])
      else Bad("not a base32 character")
  }

  /** How many bytes a chunk with that many padding characters holds. */
  function ByteCount(pads: nat): Result<nat>
  {
    match pads
    case 0 => Ok(5)
    case 1 => Ok(4)
    case 3 => Ok(3)
    case 4 => Ok(2)
    case 6 => Ok(1)
    case _ => Err("invalid number of padding characters")
  }

  function DecodeChunk(s: string): (r: Result<seq<nat>>)
  {
    if |s| != 8 then Err("incorrect length of base32 chunk")
    else
      match Gather(s)
      case Bad(error) => Err(error)
      case Bits(values, pads) =>
        match ByteCount(pads)
        case Err(error) => Err(error)
        case Ok(n) => Ok(Digits(256, 5, Value(32, values + Repeat<nat>(0, pads)))[..n])
  }

  lemma GatherNothing()
    ensures Gather("") == Bits([], 0)
  {
  }

  lemma GatherTurn(s: string)
    requires s != ""
    ensures var g, c := Gather(s[..|s| - 1]), s[|s| - 1];
            Gather(s) == if g.Bad? then g
                         else if c == '=' then g.(pads := g.pads + 1)
                         else if g.pads > 0 then Bad("padding character followed by non-padding character")
                         else if IsBase32Char(c) then g.(values := g.values + [ValueOf(c)])
                         else Bad("not a base32 character")
  {
    hide IsBase32Char, ValueOf;
  }

  lemma {:induction false} GatherChunk(vs: seq<nat>, n: nat)
    requires AreDigits(32, vs)
    ensures Gather(Chars(vs) + Pads(n)) == Bits(vs, n)
    decreases n, |vs|
  {
    hide CharOf, IsBase32Char, Gather, ValueOf;
    var s := Chars(vs) + Pads(n);
    if n > 0 {
      assert s[..|s| - 1] == Chars(vs) + Pads(n - 1);
      GatherChunk(vs, n - 1);
      GatherTurn(s);
    } else if vs != [] {
      var init := vs[..|vs| - 1];
      assert s[..|s| - 1] == Chars(init) + Pads(0);
      GatherChunk(init, 0);
      GatherTurn(s);
      CharRoundTrip(vs[|vs| - 1], 'A');
      assert init + [vs[|vs| - 1]] == vs;
    } else {
      assert s == "";
      GatherNothing();
    }
  }

  /** The bits of `k` bytes followed by zeros are the bits of `CharCount(k)` digits followed by zeros. */
  lemma DigitsOfBytes(bs: seq<byte>)
    requires 1 <= |bs| <= 5
    ensures var n, x := CharCount(|bs|), Value(256, bs + Repeat<nat>(0, 5 - |bs|));
            Digits(32, 8, x)[..n] + Repeat<nat>(0, 8 - n) == Digits(32, 8, x)
  {
    hide *;
    BytesThenZeros(bs, 5 - |bs|, CharCount(|bs|), 8 - CharCount(|bs|));
  }

  lemma BytesThenZeros(bs: seq<byte>, z: nat, n: nat, m: nat)
    requires 1 <= |bs| <= 5 && z == 5 - |bs| && n == CharCount(|bs|) && n + m == 8
    ensures var x := Value(256, bs + Repeat<nat>(0, z));
            Digits(32, 8, x)[..n] + Repeat<nat>(0, m) == Digits(32, 8, x)
  {
    hide *;
    var v, x := Value(256, bs), Value(256, bs + Repeat<nat>(0, z));
    ValueAppendZeros(256, bs, z);
    var f := Spare(|bs|);
    Scale(|bs|);
    Regroup(x, v, f, Pow(32, m), Pow(256, z));
    DigitsOfMultiple(32, n, m, v * f);
    TakeFront(Digits(32, n, v * f), Repeat<nat>(0, m), Digits(32, 8, x));
  }

  lemma Regroup(x: nat, v: nat, f: nat, p: nat, q: nat)
    requires x == v * q && q == f * p
    ensures x == (v * f) * p
  {
    MulAssociates(v, f, p);
  }

  lemma TakeFront(a: seq<nat>, b: seq<nat>, c: seq<nat>)
    requires c == a + b
    ensures c[..|a|] + b == c
  {
  }

  lemma Scale(k: nat)
    requires 1 <= k <= 5
    ensures Pow(256, 5 - k) == Spare(k) * Pow(32, 8 - CharCount(k))
  {
    assert Pow(256, 4) == 0x1_0000_0000 && Pow(256, 3) == 0x100_0000 && Pow(256, 2) == 0x1_0000;
    assert Pow(256, 1) == 0x100 && Pow(256, 0) == 1;
    assert Pow(32, 6) == 0x4000_0000 && Pow(32, 4) == 0x10_0000 && Pow(32, 3) == 0x8000 && Pow(32, 1) == 32;
  }

  lemma SameRange()
    ensures Pow(256, 5) == Pow(32, 8) == 0x100_0000_0000
  {
    assert Pow(256, 3) == 0x100_0000 && Pow(32, 5) == 0x200_0000;
  }

  /** Decoding a chunk undoes encoding it, for 1 to 5 bytes. */
  lemma ChunkRoundTrip(bs: seq<byte>)
    requires 1 <= |bs| <= 5
    ensures DecodeChunk(EncodeChunk(bs)) == Ok(bs)
  {
    hide Digits, Value, Pow, Gather;
    var n, padded := CharCount(|bs|), bs + Repeat<nat>(0, 5 - |bs|);
    var x := Value(256, padded);
    var vs := Digits(32, 8, x)[..n];
    GatherChunk(vs, 8 - n);
    DigitsOfBytes(bs);
    ValueBound(256, padded);
    SameRange();
    ValueOfDigits(32, 8, x);
    DigitsOfValue(256, padded);
    assert padded[..|bs|] == bs;
  }

  // ---------------------------------------------------------------- chunk routines

  /** Digit `i` of a number, taken by shifting. */
  lemma {:induction false} DigitAt(base: nat, n: nat, x: nat, i: nat)
    requires base > 0 && i < n
    ensures Digits(base, n, x)[i] == (x / Pow(base, n - 1 - i)) % base
    decreases n
  {
    if i == n - 1 {
      assert Pow(base, 0) == 1;
    } else {
      DigitAt(base, n - 1, x / base, i);
      DivideTwice(x, base, Pow(base, n - 2 - i));
    }
  }

  method BytesToB32Chunk(bs: seq<byte>) returns (r: Result<string>)
    ensures r == if 1 <= |bs| <= 5 then Ok(EncodeChunk(bs)) else Err("need a chunk of at least 1 and at most 5 bytes")
  {
    hide Digits, Value, CharOf, CharCount;
    if |bs| < 1 || |bs| > 5 {
      return Err("need a chunk of at least 1 and at most 5 bytes");
    }
    var whole, putchars := ShiftIn(bs);
    var ret: string := "";
    var i := 0;
    ghost var all := Digits(32, 8, whole);
    while i < putchars
      invariant 0 <= i <= putchars && ret == Chars(all[..i])
    {
      DigitAt(32, 8, whole, i);
      var val := (whole / Pow(32, 7 - i)) % 32;
      assert all[..i + 1] == all[..i] + [val];
      ret := ret + [CharOf(val)];
      i := i + 1;
    }
    ghost var front := ret;
    while i < 8
      invariant putchars <= i <= 8 && ret == front + Pads(i - putchars)
    {
      ret := ret + ['='];
      i := i + 1;
    }
    return Ok(ret);
  }

  /** The bytes shifted into a 40-bit number, and the number of characters that will carry them. */
  method ShiftIn(bs: seq<byte>) returns (whole: nat, putchars: nat)
    requires 1 <= |bs| <= 5
    ensures whole == Value(256, bs + Repeat<nat>(0, 5 - |bs|)) && putchars == CharCount(|bs|)
  {
    whole, putchars := bs[0] as int * 0x1_0000_0000, 2;
    if |bs| > 1 {
      whole, putchars := whole + bs[1] as int * 0x100_0000, putchars + 2;
    }
    if |bs| > 2 {
      whole, putchars := whole + bs[2] as int * 0x1_0000, putchars + 1;
    }
    if |bs| > 3 {
      whole, putchars := whole + bs[3] as int * 0x100, putchars + 2;
    }
    if |bs| > 4 {
      whole, putchars := whole + bs[4], putchars + 1;
    }
    ghost var p := bs + Repeat<nat>(0, 5 - |bs|);
    FiveDigits(p);
  }

  lemma FiveDigits(p: seq<nat>)
    requires |p| == 5
    ensures Value(256, p)
         == p[0] * 0x1_0000_0000 + p[1] * 0x100_0000 + p[2] * 0x1_0000 + p[3] * 0x100 + p[4]
  {
    assert p[..4][..3] == p[..3] && p[..3][..2] == p[..2] && p[..2][..1] == p[..1] && p[..1][..0] == [];
    assert Value(256, p[..1]) == p[0];
    assert Value(256, p[..2]) == p[0] * 256 + p[1];
    assert Value(256, p[..3]) == Value(256, p[..2]) * 256 + p[2];
    assert Value(256, p[..4]) == Value(256, p[..3]) * 256 + p[3];
  }

  lemma {:induction false} BadStays(s: string, n: nat)
    requires n <= |s| && Gather(s[..n]).Bad?
    ensures Gather(s) == Gather(s[..n])
    decreases |s|
  {
    if n == |s| {
      assert s[..n] == s;
    } else {
      var init := s[..|s| - 1];
      assert init[..n] == s[..n];
      BadStays(init, n);
    }
  }

  /** Adding a digit in the place of the first zero. */
  lemma PlaceDigit(values: seq<nat>, d: nat)
    requires |values| < 8
    ensures Value(32, values + [d] + Repeat<nat>(0, 7 - |values|))
         == Value(32, values + Repeat<nat>(0, 8 - |values|)) + d * Pow(32, 7 - |values|)
  {
    hide *;
    var m: nat := 7 - |values|;
    assert 8 - |values| == m + 1;
    PlaceBefore(values, d, m);
  }

  lemma PlaceBefore(values: seq<nat>, d: nat, m: nat)
    ensures Value(32, values + [d] + Repeat<nat>(0, m)) == Value(32, values + Repeat<nat>(0, m + 1)) + d * Pow(32, m)
  {
    hide *;
    ValueAppendZeros(32, values + [d], m);
    ValueAppendZeros(32, values, m + 1);
    OneDigit(32, values, d);
    OnePow(32, m);
    Distribute(Value(32, values), d, Pow(32, m), Value(32, values + [d]), Pow(32, m + 1));
  }

  lemma NoDigits(n: nat)
    ensures Value(32, [] + Repeat<nat>(0, n)) == 0
  {
    ValueAppendZeros(32, [], n);
  }

  lemma OneDigit(base: nat, values: seq<nat>, d: nat)
    ensures Value(base, values + [d]) == Value(base, values) * base + d
  {
    assert (values + [d])[..|values|] == values;
  }

  lemma OnePow(base: nat, n: nat)
    requires base > 0
    ensures Pow(base, n + 1) == base * Pow(base, n)
  {
  }

  lemma Distribute(v: nat, d: nat, p: nat, w: nat, q: nat)
    requires w == v * 32 + d && q == 32 * p
    ensures w * p == v * q + d * p
  {
    assert (v * 32 + d) * p == v * (32 * p) + d * p;
  }

  /** The eight characters gathered into a 40-bit number, and the number of padding characters. */
  method GatherBits(str: string) returns (r: Result<(nat, nat)>)
    requires |str| == 8
    ensures match Gather(str)
            case Bad(error) => r == Err(error)
            case Bits(values, pads) => r == Ok((Value(32, values + Repeat<nat>(0, pads)), pads))
  {
    hide Value, ValueOf, IsBase32Char, Pow, Gather;
    var whole, padcount := 0, 0;
    ghost var values: seq<nat> := [];
    var i := 0;
    GatherNothing();
    assert str[..0] == "" && str[..8] == str;
    NoDigits(8);
    while i < 8
      invariant 0 <= i <= 8
      invariant Gather(str[..i]) == Bits(values, padcount) && |values| + padcount == i
      invariant whole == Value(32, values + Repeat<nat>(0, 8 - |values|))
    {
      var c := str[i];
      assert str[..i + 1][..i] == str[..i];
      GatherTurn(str[..i + 1]);
      if c == '=' {
        padcount := padcount + 1;
      } else if padcount > 0 {
        BadStays(str, i + 1);
        return Err("padding character followed by non-padding character");
      } else if IsBase32Char(c) {
        var bits := ValueOf(c);
        PlaceDigit(values, bits);
        values := values + [bits];
        whole := whole + bits * Pow(32, 7 - i);
      } else {
        BadStays(str, i + 1);
        return Err("not a base32 character");
      }
      i := i + 1;
    }
    return Ok((whole, padcount));
  }

  method B32ChunkToBytes(str: string) returns (r: Result<seq<nat>>)
    ensures r == DecodeChunk(str)
  {
    hide Digits, Value, Pow, Gather;
    if |str| != 8 {
      return Err("incorrect length of base32 chunk");
    }
    var gathered := GatherBits(str);
    if gathered.Err? {
      return Err(gathered.error);
    }
    var (whole, padcount) := gathered.value;
    match ByteCount(padcount) {
      case Err(error) => return Err(error);
      case Ok(finalcount) =>
        var ret: seq<nat> := [];
        ghost var all := Digits(256, 5, whole);
        var i := 0;
        while i < finalcount
          invariant 0 <= i <= finalcount && ret == all[..i]
        {
          DigitAt(256, 5, whole, i);
          ret := ret + [(whole / Pow(256, 4 - i)) % 256];
          i := i + 1;
        }
        return Ok(ret);
    }
  }

  // ---------------------------------------------------------------- whole strings

  function Encode(bs: seq<byte>): (s: string)
    decreases |bs|
  {
    if bs == [] then ""
    else if |bs| <= 5 then EncodeChunk(bs)
    else EncodeChunk(bs[..5]) + Encode(bs[5..])
  }

  function Decode(s: string): (r: Result<seq<nat>>)
    decreases |s|
  {
    if s == "" then Ok([])
    else if |s| < 8 then Err("base32 string length not divisible by 8")
    else
      match DecodeChunk(s[..8])
      case Err(error) => Err(error)
      case Ok(chunk) => Behind(chunk, Decode(s[8..]))
  }

  lemma {:induction false} EncodeLength(bs: seq<byte>)
    ensures |Encode(bs)| == (|bs| + 4) / 5 * 8
    decreases |bs|
  {
    hide EncodeChunk;
    if |bs| <= 5 {
    } else {
      EncodeLength(bs[5..]);
    }
  }

  /** Decoding undoes encoding, for every byte string. */
  lemma {:induction false} RoundTrip(bs: seq<byte>)
    ensures Decode(Encode(bs)) == Ok(bs)
    decreases |bs|
  {
    hide EncodeChunk, DecodeChunk;
    if bs == [] {
    } else {
      var first, rest := if |bs| <= 5 then bs else bs[..5], if |bs| <= 5 then [] else bs[5..];
      var s := Encode(bs);
      assert s == EncodeChunk(first) + Encode(rest);
      assert s[..8] == EncodeChunk(first) && s[8..] == Encode(rest);
      ChunkRoundTrip(first);
      RoundTrip(rest);
      assert first + rest == bs;
    }
  }

  /** The text without its trailing padding characters. */
  function Unpadded(s: string): (t: string)
    ensures |t| <= |s| && s == t + Pads(|s| - |t|)
    decreases |s|
  {
    if s != "" && s[|s| - 1] == '=' then
      var t := Unpadded(s[..|s| - 1]);
      t
    else s
  }

  /** `s` padded up to a multiple of eight characters. */
  function Repadded(s: string): string
  {
    s + Pads((8 - |s| % 8) % 8)
  }

  /** An encoded text ends in at most six padding characters, behind a character that is none. */
  lemma {:induction false} EncodeEnds(bs: seq<byte>)
    ensures |Encode(bs)| - |Unpadded(Encode(bs))| <= 6
    decreases |bs|
  {
    hide Digits, Value, CharOf;
    if bs == [] {
    } else if |bs| <= 5 {
      var n, vs := CharCount(|bs|), Digits(32, 8, Value(256, bs + Repeat<nat>(0, 5 - |bs|)));
      LastIsDigit(vs[..n], 8 - n);
    } else {
      var s, first, rest := Encode(bs), EncodeChunk(bs[..5]), Encode(bs[5..]);
      EncodeEnds(bs[5..]);
      assert bs[5..] != [] && |rest| >= 8;
      UnpaddedSuffix(first, rest);
    }
  }

  lemma {:induction false} LastIsDigit(vs: seq<nat>, n: nat)
    requires vs != [] && AreDigits(32, vs)
    ensures Unpadded(Chars(vs) + Pads(n)) == Chars(vs)
    decreases n
  {
    var s := Chars(vs) + Pads(n);
    if n == 0 {
      assert s == Chars(vs);
    } else {
      assert s[..|s| - 1] == Chars(vs) + Pads(n - 1);
      LastIsDigit(vs, n - 1);
    }
  }

  lemma {:induction false} UnpaddedSuffix(a: string, b: string)
    requires Unpadded(b) != ""
    ensures Unpadded(a + b) == a + Unpadded(b)
    decreases |b|
  {
    if b[|b| - 1] != '=' {
    } else {
      assert (a + b)[..|a + b| - 1] == a + b[..|b| - 1];
      UnpaddedSuffix(a, b[..|b| - 1]);
    }
  }

  /** A text stripped of its padding decodes to the same bytes: `fromUnpaddedBase32` puts the padding back. */
  lemma UnpaddedRoundTrip(bs: seq<byte>)
    ensures Repadded(Unpadded(Encode(bs))) == Encode(bs)
    ensures Decode(Repadded(Unpadded(Encode(bs)))) == Ok(bs)
  {
    hide Encode, Decode;
    var s := Encode(bs);
    var t := Unpadded(s);
    EncodeEnds(bs);
    EncodeLength(bs);
    PadCount(|s|, |t|);
    assert s == t + Pads(|s| - |t|);
    RoundTrip(bs);
  }

  lemma PadCount(n: nat, m: nat)
    requires m <= n && n % 8 == 0 && n - m <= 6
    ensures n - m == (8 - m % 8) % 8
  {
  }

  method ToBase32(bs: seq<byte>) returns (ret: string)
    ensures ret == Encode(bs)
  {
    hide EncodeChunk, Encode;
    ret := "";
    var j := 0;
    assert bs[0..] == bs;
    while j < |bs| / 5
      invariant 0 <= j <= |bs| / 5
      invariant Encode(bs) == ret + Encode(bs[j * 5..])
    {
      var i := j * 5;
      var sub := bs[i..i + 5];
      var chk := BytesToB32Chunk(sub);
      ret := ret + chk.value;
      OneMore(bs, i);
      j := j + 1;
    }
    var i := j * 5;
    var len := |bs| - i;
    if len > 0 {
      var chk := BytesToB32Chunk(bs[i..]);
      ret := ret + chk.value;
    }
    LastChunk(bs[i..]);
  }

  lemma LastChunk(bs: seq<byte>)
    requires |bs| < 5
    ensures Encode(bs) == if bs == [] then "" else EncodeChunk(bs)
  {
    hide EncodeChunk;
  }

  lemma OneMore(bs: seq<byte>, i: nat)
    requires i + 5 <= |bs|
    ensures Encode(bs[i..]) == EncodeChunk(bs[i..i + 5]) + Encode(bs[i + 5..])
  {
    hide EncodeChunk;
    assert bs[i..][..5] == bs[i..i + 5] && bs[i..][5..] == bs[i + 5..];
    if |bs| == i + 5 {
      assert bs[i..] == bs[i..i + 5];
    }
  }

  method FromBase32(b32str: string) returns (r: Result<seq<nat>>)
    ensures r == if |b32str| % 8 != 0 then Err("base32 string length not divisible by 8") else Decode(b32str)
  {
    hide DecodeChunk, Decode;
    if |b32str| % 8 != 0 {
      return Err("base32 string length not divisible by 8");
    }
    var ret: seq<nat> := [];
    var i := 0;
    assert b32str[0..] == b32str;
    BehindNothing(Decode(b32str));
    while i < |b32str|
      invariant 0 <= i <= |b32str| && i % 8 == 0
      invariant Decode(b32str) == Behind(ret, Decode(b32str[i..]))
    {
      DecodeTurn(b32str[i..]);
      assert b32str[i..][..8] == b32str[i..i + 8] && b32str[i..][8..] == b32str[i + 8..];
      var sub := b32str[i..i + 8];
      var chk := B32ChunkToBytes(sub);
      if chk.Err? {
        return chk;
      }
      BehindTwice(ret, chk.value, Decode(b32str[i + 8..]));
      ret := ret + chk.value;
      i := i + 8;
    }
    DecodeTurn("");
    assert b32str[i..] == "" && ret + [] == ret;
    return Ok(ret);
  }

  /** A decoded rest behind bytes already decoded. */
  function Behind(a: seq<nat>, r: Result<seq<nat>>): Result<seq<nat>>
  {
    if r.Err? then r else Ok(a + r.value)
  }

  lemma BehindNothing(r: Result<seq<nat>>)
    ensures Behind([], r) == r
  {
    if r.Ok? {
      assert [] + r.value == r.value;
    }
  }

  lemma BehindTwice(a: seq<nat>, b: seq<nat>, r: Result<seq<nat>>)
    ensures Behind(a, Behind(b, r)) == Behind(a + b, r)
  {
    if r.Ok? {
      assert a + (b + r.value) == (a + b) + r.value;
    }
  }

  lemma DecodeTurn(s: string)
    ensures Decode(s)
         == if s == "" then Ok([])
            else if |s| < 8 then Err("base32 string length not divisible by 8")
            else
              match DecodeChunk(s[..8])
              case Err(error) => Err(error)
              case Ok(chunk) => Behind(chunk, Decode(s[8..]))
  {
    hide DecodeChunk;
  }

  method FromUnpaddedBase32(b32str: string) returns (r: Result<seq<nat>>)
    ensures r == Decode(Repadded(b32str))
  {
    hide Decode;
    var newstr := b32str;
    ghost var k := 0;
    while |newstr| % 8 != 0
      invariant 0 <= k <= (8 - |b32str| % 8) % 8 && newstr == b32str + Pads(k)
      decreases 8 - k
    {
      newstr := newstr + ['='];
      k := k + 1;
    }
    r := FromBase32(newstr);
  }

  // ---------------------------------------------------------------- the texts that come back

  /** What was gathered spells the text. */
  lemma {:induction false} GatheredIs(s: string)
    requires Gather(s).Bits?
    ensures s == Chars(Gather(s).values) + Pads(Gather(s).pads)
    decreases |s|
  {
    hide CharOf, IsBase32Char, Gather, ValueOf;
    if s == "" {
      GatherNothing();
    } else {
      var init, c := s[..|s| - 1], s[|s| - 1];
      GatherTurn(s);
      GatheredIs(init);
      assert s == init + [c];
      if c == '=' {
        assert Pads(Gather(s).pads) == Pads(Gather(init).pads) + [c];
      } else {
        CharRoundTrip(0, c);
        assert Chars(Gather(s).values) == Chars(Gather(init).values) + [c];
      }
    }
  }

  lemma CharsSame(vs: seq<nat>, ws: seq<nat>)
    requires AreDigits(32, vs) && AreDigits(32, ws) && Chars(vs) == Chars(ws)
    ensures vs == ws
  {
    hide CharOf, IsBase32Char, ValueOf;
    assert |vs| == |Chars(vs)| == |Chars(ws)| == |ws|;
    forall i | 0 <= i < |vs| ensures vs[i] == ws[i] {
      assert Chars(vs)[i] == Chars(ws)[i];
      CharRoundTrip(vs[i], 'A');
      CharRoundTrip(ws[i], 'A');
    }
  }

  /** A number with last digit `d` in base 32 is a multiple of a divisor of 32 exactly when `d` is. */
  lemma LastDigitDivides(v: nat, d: nat, k: nat)
    requires 1 <= k <= 5
    ensures (v * 32 + d) % Spare(k) == 0 <==> d % Spare(k) == 0
  {
    var f := Spare(k);
    var g := 32 / f;
    assert g * f == 32;
    MulAssociates(v, g, f);
    DropMultiple(v * g, f, d);
  }

  lemma DropMultiple(q: nat, f: nat, d: nat)
    requires f > 0
    ensures (q * f + d) % f == d % f
  {
    Distributes(q, d / f, f);
    ModOf(d % f, q + d / f, f);
  }

  lemma Cancel(a: nat, b: nat, p: nat)
    requires p > 0 && a * p == b * p
    ensures a == b
  {
    ModOf(0, a, p);
    ModOf(0, b, p);
  }

  lemma MultipleOf(v: nat, f: nat)
    requires f > 0
    ensures v % f == 0 ==> v == (v / f) * f
    ensures (v * f) % f == 0
  {
    ModOf(0, v, f);
  }

  /** The bytes of `x` that are kept hold all of it exactly when it is a multiple of what is dropped. */
  lemma KeptBytes(x: nat, k: nat, q: nat)
    requires 1 <= k <= 5 && x == q * Pow(256, 5 - k) && x < Pow(256, 5)
    ensures Digits(256, 5, x)[..k] + Repeat<nat>(0, 5 - k) == Digits(256, 5, x)
    ensures Value(256, Digits(256, 5, x)[..k] + Repeat<nat>(0, 5 - k)) == x
  {
    hide *;
    DigitsOfMultiple(256, k, 5 - k, q);
    TakeFront(Digits(256, k, q), Repeat<nat>(0, 5 - k), Digits(256, 5, x));
    ValueOfDigits(256, 5, x);
  }

  /** Whether the characters that carry `k` bytes leave their unused bits zero. */
  predicate Tidy(values: seq<nat>, k: nat)
    requires 1 <= k <= 5 && |values| == CharCount(k)
  {
    values[|values| - 1] % Spare(k) == 0
  }

  lemma TidyIff(values: seq<nat>, k: nat)
    requires 1 <= k <= 5 && |values| == CharCount(k)
    ensures Tidy(values, k) <==> Value(32, values) % Spare(k) == 0
  {
    hide CharCount, Spare;
    LastDigitDivides(Value(32, values[..|values| - 1]), values[|values| - 1], k);
  }

  lemma TidyComesBack(values: seq<nat>, k: nat)
    requires 1 <= k <= 5 && |values| == CharCount(k) && AreDigits(32, values) && Tidy(values, k)
    ensures var x := Value(32, values + Repeat<nat>(0, 8 - |values|));
            Value(256, Digits(256, 5, x)[..k] + Repeat<nat>(0, 5 - k)) == x
            && Digits(32, 8, x)[..|values|] == values
  {
    hide Value, Digits, Pow, Tidy;
    var padded, v, f, p := values + Repeat<nat>(0, 8 - |values|), Value(32, values), Spare(k), Pow(32, 8 - |values|);
    var x := Value(32, padded);
    ValueBound(32, padded);
    DigitsOfValue(32, padded);
    SameRange();
    ValueAppendZeros(32, values, 8 - |values|);
    TidyIff(values, k);
    MultipleOf(v, f);
    Scale(k);
    MulAssociates(v / f, f, p);
    KeptBytes(x, k, v / f);
    assert padded[..|values|] == values;
  }

  lemma ComesBackTidy(values: seq<nat>, k: nat, bs: seq<byte>)
    requires 1 <= k <= 5 && |values| == CharCount(k) && AreDigits(32, values) && |bs| == k
    requires Digits(32, 8, Value(256, bs + Repeat<nat>(0, 5 - k)))[..|values|] == values
    ensures Tidy(values, k)
  {
    hide Value, Digits, Pow, Tidy;
    var padded, y, p := bs + Repeat<nat>(0, 5 - k), Value(256, bs + Repeat<nat>(0, 5 - k)), Pow(32, 8 - |values|);
    ValueBound(256, padded);
    SameRange();
    ValueOfDigits(32, 8, y);
    DigitsOfBytes(bs);
    ValueAppendZeros(32, values, 8 - |values|);
    ValueAppendZeros(256, bs, 5 - k);
    Scale(k);
    MulAssociates(Value(256, bs), Spare(k), p);
    Cancel(Value(32, values), Value(256, bs) * Spare(k), p);
    MultipleOf(Value(256, bs), Spare(k));
    TidyIff(values, k);
  }

  /** How many bytes the characters before the padding of a chunk carry. */
  function BytesIn(chunk: string): Result<nat>
  {
    ByteCount(|chunk| - |Unpadded(chunk)|)
  }

  /** The unused bits of the last character before the padding are zero. */
  predicate SpareBitsZero(chunk: string)
    requires |chunk| == 8
  {
    var t := Unpadded(chunk);
    BytesIn(chunk).Ok? && IsBase32Char(t[|t| - 1]) && ValueOf(t[|t| - 1]) % Spare(BytesIn(chunk).value) == 0
  }

  lemma DecodedChunk(s: string)
    requires DecodeChunk(s).Ok?
    ensures var vs, bs := Gather(s).values, DecodeChunk(s).value;
            && Gather(s).Bits? && 1 <= |bs| <= 5 && AreDigits(256, bs)
            && |vs| == CharCount(|bs|) && s == Chars(vs) + Pads(8 - |vs|)
            && Unpadded(s) == Chars(vs) && BytesIn(s) == Ok(|bs|)
            && bs == Digits(256, 5, Value(32, vs + Repeat<nat>(0, 8 - |vs|)))[..|bs|]
  {
    hide Gather, Digits, Value, Unpadded;
    GatheredIs(s);
    LastIsDigit(Gather(s).values, Gather(s).pads);
  }

  lemma SpareIsTidy(s: string)
    requires DecodeChunk(s).Ok?
    ensures |Gather(s).values| == CharCount(|DecodeChunk(s).value|)
    ensures SpareBitsZero(s) <==> Tidy(Gather(s).values, |DecodeChunk(s).value|)
  {
    hide Gather, DecodeChunk, ByteCount, Unpadded, CharOf, IsBase32Char, ValueOf;
    DecodedChunk(s);
    var vs := Gather(s).values;
    CharRoundTrip(vs[|vs| - 1], 'A');
  }

  /** An accepted chunk is what its bytes are encoded as exactly when its unused bits are zero. */
  lemma ChunkCanonicalIff(s: string)
    requires DecodeChunk(s).Ok?
    ensures var bs := DecodeChunk(s).value;
            1 <= |bs| <= 5 && AreDigits(256, bs) && (EncodeChunk(bs) == s <==> SpareBitsZero(s))
  {
    hide Gather, DecodeChunk, Digits, Value, Chars, SpareBitsZero, Tidy, CharCount;
    DecodedChunk(s);
    SpareIsTidy(s);
    var vs, bs: seq<byte> := Gather(s).values, DecodeChunk(s).value;
    var ws := Digits(32, 8, Value(256, bs + Repeat<nat>(0, 5 - |bs|)))[..|vs|];
    assert EncodeChunk(bs) == Chars(ws) + Pads(8 - |vs|);
    assert EncodeChunk(bs) == s <==> Chars(ws) == Chars(vs) by {
      SameFront(Chars(ws), Chars(vs), Pads(8 - |vs|));
    }
    if Tidy(vs, |bs|) {
      TidyComesBack(vs, |bs|);
    }
    if Chars(ws) == Chars(vs) {
      CharsSame(ws, vs);
      ComesBackTidy(vs, |bs|, bs);
    }
  }

  lemma SameFront(a: string, b: string, c: string)
    ensures a + c == b + c ==> a == b
  {
    if a + c == b + c {
      assert |a| == |b| && (a + c)[..|a|] == a && (b + c)[..|b|] == b;
    }
  }

  /** Only a last chunk of fewer than five bytes is padded. */
  lemma PaddedIff(s: string)
    requires DecodeChunk(s).Ok?
    ensures '=' in s <==> |DecodeChunk(s).value| < 5
  {
    hide Gather, DecodeChunk, Digits, Value, Unpadded, CharOf, IsBase32Char, ValueOf;
    DecodedChunk(s);
    var vs := Gather(s).values;
    forall i | 0 <= i < |vs| ensures s[i] != '=' {
      CharRoundTrip(vs[i], 'A');
      assert s[i] == CharOf(vs[i]);
    }
    if |vs| < 8 {
      assert s[7] == '=';
    }
  }

  lemma EncodeTurn(bs: seq<byte>)
    ensures Encode(bs) == if bs == [] then ""
                          else if |bs| <= 5 then EncodeChunk(bs)
                          else EncodeChunk(bs[..5]) + Encode(bs[5..])
  {
    hide EncodeChunk;
  }

  /** An encoded text that goes on behind its first eight characters has no padding in them. */
  lemma FirstUnpadded(bs: seq<byte>)
    requires |bs| > 5
    ensures |EncodeChunk(bs[..5])| == 8 && '=' !in EncodeChunk(bs[..5]) && Encode(bs)[..8] == EncodeChunk(bs[..5])
  {
    hide EncodeChunk, DecodeChunk, Encode;
    EncodeTurn(bs);
    ChunkRoundTrip(bs[..5]);
    PaddedIff(EncodeChunk(bs[..5]));
  }

  lemma LongerCanonicalIff(s: string, chunk: seq<byte>, rest: seq<byte>)
    requires |s| > 8 && DecodeChunk(s[..8]) == Ok(chunk) && rest != []
    ensures Encode(chunk + rest) == s <==> '=' !in s[..8] && Encode(rest) == s[8..]
  {
    hide EncodeChunk, DecodeChunk, Encode, SpareBitsZero;
    var bs, front := chunk + rest, s[..8];
    PaddedIff(front);
    ChunkCanonicalIff(front);
    EncodeTurn(bs);
    if |bs| <= 5 {
      EncodeLength(bs);
    } else {
      FirstUnpadded(bs);
      if '=' !in front {
        FullChunkIsTidy(front);
        assert bs[..5] == chunk && bs[5..] == rest;
        assert Encode(bs) == front + Encode(rest);
        assert s == front + s[8..];
      }
    }
  }

  lemma FullChunkIsTidy(s: string)
    requires DecodeChunk(s).Ok? && '=' !in s
    ensures |DecodeChunk(s).value| == 5 && EncodeChunk(DecodeChunk(s).value) == s
  {
    hide EncodeChunk, DecodeChunk, Unpadded, Gather, ValueOf;
    PaddedIff(s);
    DecodedChunk(s);
    ChunkCanonicalIff(s);
    SpareIsTidy(s);
  }

  /** Padding only in the final chunk, and no bit set that the bytes do not use. */
  predicate Canonical(s: string)
    requires |s| % 8 == 0
  {
    s == "" || ('=' !in s[..|s| - 8] && SpareBitsZero(s[|s| - 8..]))
  }

  lemma CanonicalBehind(s: string)
    requires |s| % 8 == 0 && |s| > 8
    ensures Canonical(s) <==> '=' !in s[..8] && Canonical(s[8..])
  {
    hide SpareBitsZero;
    var rest := s[8..];
    assert rest[|rest| - 8..] == s[|s| - 8..];
    assert s[..|s| - 8] == s[..8] + rest[..|rest| - 8];
  }

  lemma OneChunk(s: string)
    requires |s| == 8 && DecodeChunk(s).Ok?
    ensures Decode(s) == DecodeChunk(s)
  {
    hide Decode, DecodeChunk;
    assert s[..8] == s && s[8..] == "";
    DecodeTurn(s);
    DecodeTurn("");
    assert DecodeChunk(s).value + [] == DecodeChunk(s).value;
  }

  lemma NothingCanonical()
    ensures Canonical("")
  {
  }

  lemma OneCanonical(s: string)
    requires |s| == 8
    ensures Canonical(s) <==> SpareBitsZero(s)
  {
    hide SpareBitsZero;
    assert s[..0] == "" && s[0..] == s;
  }

  /** Exactly which accepted texts are what their bytes are encoded as. */
  lemma {:induction false} CanonicalIff(s: string)
    requires Decode(s).Ok?
    ensures |s| % 8 == 0 && AreDigits(256, Decode(s).value) && (s != "" ==> Decode(s).value != [])
    ensures Encode(Decode(s).value) == s <==> Canonical(s)
    decreases |s|
  {
    hide EncodeChunk, DecodeChunk, Encode, Decode, SpareBitsZero, Canonical;
    DecodeTurn(s);
    if s == "" {
      EncodeTurn([]);
      NothingCanonical();
    } else {
      var chunk := DecodeChunk(s[..8]).value;
      ChunkCanonicalIff(s[..8]);
      CanonicalIff(s[8..]);
      if |s| == 8 {
        assert s[..8] == s;
        OneChunk(s);
        EncodeTurn(chunk);
        OneCanonical(s);
      } else {
        CanonicalBehind(s);
        LongerCanonicalIff(s, chunk, Decode(s[8..]).value);
      }
    }
  }

  /** A byte can be spelled with unused bits set, here the zero byte; it is then encoded otherwise. */
  lemma LooseText()
    ensures Decode("AB======") == Ok([0]) && Encode([0]) != "AB======"
  {
    hide Gather, DecodeChunk, Encode, Decode, EncodeChunk, Chars, Canonical, SpareBitsZero;
    assert "AB======" == Chars([0, 1]) + Pads(6) by { Spelled(); }
    GatherChunk([0, 1], 6);
    ZeroByte("AB======");
    OneChunk("AB======");
    CanonicalIff("AB======");
    OneCanonical("AB======");
    NotSpare("AB======");
  }

  lemma Spelled()
    ensures "AB======" == Chars([0, 1]) + Pads(6)
  {
  }

  lemma NotSpare(s: string)
    requires s == Chars([0, 1]) + Pads(6)
    ensures !SpareBitsZero(s)
  {
    hide Unpadded;
    LastIsDigit([0, 1], 6);
  }

  lemma ZeroByte(s: string)
    requires |s| == 8 && Gather(s) == Bits([0, 1], 6)
    ensures DecodeChunk(s) == Ok([0])
  {
    hide Gather, Digits;
    ValueAppendZeros(32, [0, 1], 6);
    assert [0, 1][..1] == [0] && [0][..0] == [];
    assert Value(32, [0, 1]) == 1;
    assert Pow(32, 6) == 0x4000_0000;
    TopByte();
  }

  lemma TopByte()
    ensures Digits(256, 5, 0x4000_0000)[..1] == [0]
  {
    hide Digits;
    DigitAt(256, 5, 0x4000_0000, 0);
    assert Pow(256, 4) == 0x1_0000_0000;
  }

  // ---------------------------------------------------------------- bit by bit

  /** Bit `k` of some digits of `w` bits each, the highest bit of the first digit being bit 0. */
  function DigitBit(w: nat, ds: seq<nat>, k: nat): (b: nat)
    requires w > 0 && k / w < |ds|
  {
    Bit(ds[k / w], w - 1 - k % w)
  }

  /** In a number made of digits those bits stand in one row, from the highest down. */
  lemma {:induction false} NumberBit(w: nat, ds: seq<nat>, k: nat)
    requires w > 0 && AreDigits(Pow2(w), ds) && k < w * |ds|
    ensures k / w < |ds| && Bit(Value(Pow2(w), ds), w * |ds| - 1 - k) == DigitBit(w, ds, k)
    decreases |ds|
  {
    hide Bit, Pow2;
    var n, init, last := |ds| - 1, ds[..|ds| - 1], ds[|ds| - 1];
    var v := Value(Pow2(w), init);
    WidthTimes(w, n, k);
    ShiftedIn(v, last, w);
    if k < w * n {
      NumberBit(w, init, k);
      BitOfShifted(Above(v, last, w), w, w * n - 1 - k);
      AboveShifted(v, last, w);
    } else {
      var i: nat := w * n + w - 1 - k;
      LowBit(v, last, i, w - i);
    }
  }

  /** Appending a digit shifts the number up by its width. */
  lemma ShiftedIn(v: nat, d: nat, w: nat)
    ensures v * Pow2(w) + d == Above(v, d, w)
  {
    hide Pow2;
  }

  lemma WidthTimes(w: nat, n: nat, k: nat)
    requires w > 0 && k < w * (n + 1)
    ensures w * (n + 1) == w * n + w
    ensures k < w * n ==> k / w < n
    ensures k >= w * n ==> k / w == n && w - 1 - k % w == w * n + w - 1 - k
  {
    DivMod(k, w);
    assert w * n == n * w;
    if k < w * n {
      if k / w >= n {
        MulMonotone(n, k / w, w);
      }
    } else {
      ModOf(k - w * n, n, w);
    }
  }

  lemma Widths()
    ensures Pow2(5) == 32 && Pow2(8) == 256
  {
  }

  /** Five bytes and eight characters of one number have the same forty bits. */
  lemma SameBits(bytes: seq<nat>, vs: seq<nat>, k: nat)
    requires |bytes| == 5 && |vs| == 8 && AreDigits(256, bytes) && AreDigits(32, vs) && k < 40
    requires Value(256, bytes) == Value(32, vs)
    ensures DigitBit(8, bytes, k) == DigitBit(5, vs, k)
  {
    hide Value, AreDigits, Pow2, DigitBit;
    Widths();
    NumberBit(8, bytes, k);
    NumberBit(5, vs, k);
  }

  const ALPHABET := "ABCDEFGHIJKLMNOPQRSTUVWXYZ234567"

  lemma AlphabetIs(v: nat)
    requires v < 32
    ensures CharOf(v) == ALPHABET[v] && IsBase32Char(ALPHABET[v]) && ValueOf(ALPHABET[v]) == v
  {
  }

  /** Bit `k` of a byte string, highest bit first, and zero behind its end. */
  function StreamBit(bs: seq<byte>, k: nat): nat { if k / 8 < |bs| then DigitBit(8, bs, k) else 0 }

  /** The character for five bits of the string from bit `at` on, or padding when the string has ended before. */
  ghost predicate Spells(bs: seq<byte>, at: nat, c: char)
  {
    if at >= 8 * |bs| then c == '='
    else exists v: nat :: Stands(bs, at, c, v)
  }

  predicate Stands(bs: seq<byte>, at: nat, c: char, v: nat)
  {
    v < 32 && c == ALPHABET[v] && forall t: nat :: t < 5 ==> BitStands(bs, at, v, t)
  }

  predicate BitStands(bs: seq<byte>, at: nat, v: nat, t: nat)
    requires t < 5
  {
    Bit(v, 4 - t) == StreamBit(bs, at + t)
  }

  /** The encoding bit by bit: character `i` is the letter for the bits `5 * i` to `5 * i + 4` of the bytes. */
  lemma {:induction false} EncodedAt(bs: seq<byte>, i: nat)
    requires i < |Encode(bs)|
    ensures Spells(bs, 5 * i, Encode(bs)[i])
    decreases |bs|
  {
    hide EncodeChunk, Spells;
    if |bs| <= 5 {
      ChunkSpells(bs, i);
    } else if i < 8 {
      ChunkSpells(bs[..5], i);
      SpellsFront(bs, 5 * i, Encode(bs)[i]);
    } else {
      EncodedAt(bs[5..], i - 8);
      SpellsBehind(bs, 5 * (i - 8), Encode(bs)[i]);
    }
  }

  lemma SpellsFront(bs: seq<byte>, at: nat, c: char)
    requires |bs| > 5 && at <= 35 && Spells(bs[..5], at, c)
    ensures Spells(bs, at, c)
  {
    hide StreamBit, Bit;
    var v: nat :| Stands(bs[..5], at, c, v);
    forall t: nat | t < 5 ensures BitStands(bs, at, v, t) {
      assert BitStands(bs[..5], at, v, t);
      StreamFront(bs, at + t);
    }
    assert Stands(bs, at, c, v);
  }

  lemma StreamFront(bs: seq<byte>, k: nat)
    requires |bs| > 5 && k < 40
    ensures StreamBit(bs[..5], k) == StreamBit(bs, k)
  {
    hide Bit;
    assert k / 8 < 5;
    assert bs[..5][k / 8] == bs[k / 8];
  }

  lemma SpellsBehind(bs: seq<byte>, at: nat, c: char)
    requires |bs| > 5 && Spells(bs[5..], at, c)
    ensures Spells(bs, at + 40, c)
  {
    hide StreamBit, Bit;
    if at < 8 * (|bs| - 5) {
      var far := at + 40;
      var v: nat :| Stands(bs[5..], at, c, v);
      forall t: nat | t < 5 ensures BitStands(bs, far, v, t) {
        assert BitStands(bs[5..], at, v, t);
        StreamBehind(bs, at + t);
      }
      assert Stands(bs, far, c, v);
    }
  }

  lemma StreamBehind(bs: seq<byte>, k: nat)
    requires |bs| > 5
    ensures StreamBit(bs[5..], k) == StreamBit(bs, k + 40)
  {
    hide Bit;
    assert (k + 40) / 8 == k / 8 + 5 && (k + 40) % 8 == k % 8;
  }

  lemma ChunkSpells(bs: seq<byte>, i: nat)
    requires 1 <= |bs| <= 5 && i < 8
    ensures Spells(bs, 5 * i, EncodeChunk(bs)[i])
  {
    hide Digits, Value, CharOf, IsBase32Char, ValueOf, BitStands, ALPHABET;
    var padded: seq<byte> := bs + Repeat<nat>(0, 5 - |bs|);
    var vs := Digits(32, 8, Value(256, padded));
    ChunkNumber(padded, vs);
    if i < CharCount(|bs|) {
      AlphabetIs(vs[i]);
      forall t: nat | t < 5 ensures BitStands(bs, 5 * i, vs[i], t) {
        PlaceOf(bs, padded, vs, i, t);
      }
      assert Stands(bs, 5 * i, EncodeChunk(bs)[i], vs[i]);
    }
  }

  lemma PlaceOf(bs: seq<byte>, padded: seq<byte>, vs: seq<nat>, i: nat, t: nat)
    requires 1 <= |bs| <= 5 && padded == bs + Repeat<nat>(0, 5 - |bs|) && i < 8 && t < 5
    requires |vs| == 8 && AreDigits(32, vs) && Value(32, vs) == Value(256, padded)
    ensures BitStands(bs, 5 * i, vs[i], t)
  {
    hide Value, Bit, StreamBit;
    SameBits(padded, vs, 5 * i + t);
    PaddedBit(bs, 5 * i + t);
    assert (5 * i + t) / 5 == i && (5 * i + t) % 5 == t;
  }

  lemma ChunkNumber(bytes: seq<byte>, vs: seq<nat>)
    requires |bytes| == 5 && vs == Digits(32, 8, Value(256, bytes))
    ensures Value(32, vs) == Value(256, bytes)
  {
    hide Digits, Value, Pow;
    ValueBound(256, bytes);
    SameRange();
    ValueOfDigits(32, 8, Value(256, bytes));
  }

  lemma PaddedBit(bs: seq<byte>, k: nat)
    requires |bs| <= 5 && k < 40
    ensures DigitBit(8, bs + Repeat<nat>(0, 5 - |bs|), k) == StreamBit(bs, k)
  {
    hide Bit;
    ZeroBits(7 - k % 8);
  }

  lemma ZeroBits(i: nat)
    ensures Bit(0, i) == 0
  {
    hide Pow2;
    ModOf(0, 0, Pow2(i));
  }

  /** A chunk of `n` letters and padding behind them. */
  predicate Lettered(s: string, n: nat)
  {
    && n <= |s| && (forall i :: 0 <= i < n ==> s[i] in ALPHABET) && (forall i :: n <= i < |s| ==> s[i] == '=')
  }

  /** Exactly which chunks are accepted: eight characters, of which 2, 4, 5, 7 or 8 are letters, before all padding. */
  lemma AcceptedIff(s: string)
    ensures DecodeChunk(s).Ok? <==>
              |s| == 8 && (Lettered(s, 2) || Lettered(s, 4) || Lettered(s, 5) || Lettered(s, 7) || Lettered(s, 8))
  {
    hide Gather, Digits, Value, CharOf, IsBase32Char, Lettered;
    if Gather(s).Bits? {
      GatheredIs(s);
      SpelledLettered(Gather(s).values, Gather(s).pads);
    }
    forall n: nat | Lettered(s, n) ensures Gather(s).Bits? && |Gather(s).values| == n {
      LetteredSpells(s, n);
    }
    if DecodeChunk(s).Ok? {
      assert Lettered(s, |Gather(s).values|);
    }
  }

  lemma LetterIff(c: char)
    ensures IsBase32Char(c) <==> c in ALPHABET
    ensures '=' !in ALPHABET
  {
    if IsBase32Char(c) {
      CharRoundTrip(0, c);
      AlphabetIs(ValueOf(c));
    }
    if c in ALPHABET {
      var v :| 0 <= v < 32 && ALPHABET[v] == c;
      AlphabetIs(v);
    }
    if '=' in ALPHABET {
      var v :| 0 <= v < 32 && ALPHABET[v] == '=';
      AlphabetIs(v);
    }
  }

  lemma SpelledLettered(vs: seq<nat>, n: nat)
    requires AreDigits(32, vs)
    ensures Lettered(Chars(vs) + Pads(n), |vs|)
  {
    hide CharOf, IsBase32Char, ValueOf;
    var s := Chars(vs) + Pads(n);
    forall i | 0 <= i < |vs| ensures s[i] in ALPHABET {
      AlphabetIs(vs[i]);
    }
  }

  lemma LetteredSpells(s: string, n: nat)
    requires Lettered(s, n)
    ensures Gather(s).Bits? && |Gather(s).values| == n
  {
    hide Gather, CharOf, IsBase32Char, ValueOf;
    forall i | 0 <= i < n ensures IsBase32Char(s[i]) {
      LetterIff(s[i]);
    }
    var vs := seq(n, i requires 0 <= i < n => ValueOf(s[i]));
    forall i | 0 <= i < n ensures Chars(vs)[i] == s[i] {
      CharRoundTrip(0, s[i]);
    }
    assert s == Chars(vs) + Pads(|s| - n);
    GatherChunk(vs, |s| - n);
  }

  /** The decoding of an accepted chunk bit by bit: the bits of its letters, five each, in their order. */
  lemma DecodedAt(s: string, k: nat)
    requires DecodeChunk(s).Ok? && k < 8 * |DecodeChunk(s).value|
    ensures ReadsLetter(s, DecodeChunk(s).value, k)
  {
    hide Gather, Digits, Value, CharOf, IsBase32Char, Unpadded, DecodeChunk, LetterBit;
    DecodedChunk(s);
    var vs, bs := Gather(s).values, DecodeChunk(s).value;
    var all := vs + Repeat<nat>(0, 8 - |vs|);
    LetterNumber(all, Digits(256, 5, Value(32, all)));
    LetterPlace(all, Digits(256, 5, Value(32, all)), bs, k);
    assert k / 5 < |vs| && s[k / 5] == CharOf(vs[k / 5]);
    AlphabetIs(vs[k / 5]);
    assert s[k / 5] == ALPHABET[vs[k / 5]] && LetterBit(bs, k, vs[k / 5]);
  }

  /** Bit `k` of the bytes is bit `k % 5` of letter `k / 5`. */
  ghost predicate ReadsLetter(s: string, bs: seq<nat>, k: nat)
    requires k < 8 * |bs|
  {
    k / 5 < |s| && exists v: nat :: v < 32 && s[k / 5] == ALPHABET[v] && LetterBit(bs, k, v)
  }

  predicate LetterBit(bs: seq<nat>, k: nat, v: nat)
    requires k < 8 * |bs|
  {
    DigitBit(8, bs, k) == Bit(v, 4 - k % 5)
  }

  lemma LetterPlace(all: seq<nat>, bytes: seq<nat>, bs: seq<nat>, k: nat)
    requires |all| == 8 && |bytes| == 5 && AreDigits(32, all) && AreDigits(256, bytes)
    requires Value(256, bytes) == Value(32, all) && bs <= bytes && k < 8 * |bs|
    ensures LetterBit(bs, k, all[k / 5])
  {
    hide Value, Bit;
    SameBits(bytes, all, k);
    assert bytes[k / 8] == bs[k / 8];
  }

  lemma LetterNumber(vs: seq<nat>, bytes: seq<nat>)
    requires |vs| == 8 && AreDigits(32, vs) && bytes == Digits(256, 5, Value(32, vs))
    ensures AreDigits(256, bytes) && |bytes| == 5 && Value(256, bytes) == Value(32, vs)
  {
    hide Digits, Value, Pow;
    ValueBound(32, vs);
    SameRange();
    ValueOfDigits(256, 5, Value(32, vs));
  }
}
