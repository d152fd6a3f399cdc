/**
  The CDB table files of Tools/CgdManager (CdbParser.py, CgdParser.py): the binary codec, and the in-place patch
  that must agree with rewriting the whole file. Text is kept as its bytes.
 */
module Cdb {
  import opened Words
  import opened Collections

  const KEY_BYTES := 30

  datatype Value = Bool(b: bool) | Int(n: int) | Text(text: seq<byte>)
  datatype Field = Field(key: seq<byte>, typeSize: nat, value: Value)
  datatype Table = Table(keys: seq<seq<byte>>, typeSizes: seq<nat>, entries: seq<seq<Field>>)

  // ---------------------------------------------------------------- values as bytes

  /** `ljust(n, b'\x00')` followed by `[:n]`. */
  function PadTo(b: seq<byte>, n: nat): (r: seq<byte>)
    ensures |r| == n
  {
    if |b| >= n then b[..n] else b + Repeat<byte>(0, n - |b|)
  }

  /** `rstrip(b'\x00')`. */
  function StripZeros(b: seq<byte>): (r: seq<byte>)
    ensures r <= b && (r != [] ==> r[|r| - 1] != 0)
    ensures forall i :: |r| <= i < |b| ==> b[i] == 0
  {
    if b != [] && b[|b| - 1] == 0 then StripZeros(b[..|b| - 1]) else b
  }

  function Digit(d: nat): byte requires d < 10 { 48 + d }

  function Decimal(n: nat): seq<byte>
  {
    if n < 10 then [Digit(n)] else Decimal(n / 10) + [Digit(n % 10)]
  }

  /** `str(value)`. */
  function TextOf(v: Value): seq<byte>
  {
    match v
    case Text(text) => text
    case Int(n) => if n < 0 then [45] + Decimal(-n) else Decimal(n)
    case Bool(b) => if b then [84, 114, 117, 101] else [70, 97, 108, 115, 101]
  }

  predicate IsSpace(c: byte) { c == 32 || 9 <= c <= 13 || 28 <= c <= 31 }

  predicate IsDigit(c: byte) { 48 <= c < 58 }

  /** Digits with single underscores between them. */
  function DigitsValue(t: seq<byte>): Option<nat>
  {
    if t == [] || !IsDigit(t[|t| - 1]) then None
    else
      var last, front := t[|t| - 1] - 48, t[..|t| - 1];
      if front == [] then Some(last)
      else
        var v := DigitsValue(if front[|front| - 1] == 95 then front[..|front| - 1] else front);
        if v.None? then None else Some(10 * v.value + last)
  }

  function TrimFront(t: seq<byte>): seq<byte> { if t != [] && IsSpace(t[0]) then TrimFront(t[1..]) else t }

  function TrimBack(t: seq<byte>): seq<byte>
  {
    if t != [] && IsSpace(t[|t| - 1]) then TrimBack(t[..|t| - 1]) else t
  }

  /** `int(text)` of an ASCII text: white space around, an optional sign, digits. */
  function TextNumber(t: seq<byte>): Option<int>
  {
    var s := TrimBack(TrimFront(t));
    if s != [] && s[0] == 45 then
      var v := DigitsValue(s[1..]);
      if v.None? then None else Some(0 - v.value)
    else
      var v := DigitsValue(if s != [] && s[0] == 43 then s[1..] else s);
      if v.None? then None else Some(v.value)
  }

  lemma {:induction false} DecimalDigits(n: nat)
    ensures Decimal(n) != [] && IsDigit(Decimal(n)[0]) && DigitsValue(Decimal(n)) == Some(n)
    decreases n
  {
    if n < 10 {
    } else {
      var front, t := Decimal(n / 10), Decimal(n);
      DecimalDigits(n / 10);
      assert t[..|t| - 1] == front && t[0] == front[0];
      DecimalEnds(n / 10);
    }
  }

  lemma DecimalEnds(n: nat)
    ensures Decimal(n) != [] && IsDigit(Decimal(n)[|Decimal(n)| - 1])
  {
  }

  /** `int(str(n)) == n`, for numbers of either sign. */
  lemma NumberOfDecimal(n: int)
    ensures TextNumber(TextOf(Int(n))) == Some(n)
  {
    hide DigitsValue, Decimal;
    var t, m: nat := TextOf(Int(n)), if n < 0 then -n else n;
    DecimalDigits(m);
    DecimalEnds(m);
    if n < 0 {
      assert t[1..] == Decimal(m);
    }
    assert TrimFront(t) == t && TrimBack(t) == t;
  }

  // ---------------------------------------------------------------- numbers as text

  /** Digits, with single underscores between them. */
  predicate Numeral(t: seq<byte>)
  {
    && t != [] && 48 <= t[0] <= 57 && 48 <= t[|t| - 1] <= 57
    && (forall i :: 0 <= i < |t| ==> 48 <= t[i] <= 57 || t[i] == 95)
    && (forall i :: 0 < i < |t| ==> t[i - 1] != 95 || t[i] != 95)
  }

  /** The decimal number read so far, and on to the right; underscores are passed over. */
  function Reading(n: nat, t: seq<byte>): nat
    decreases |t|
  {
    if t == [] then n else Reading(if 48 <= t[0] <= 57 then 10 * n + (t[0] - 48) else n, t[1..])
  }

  lemma {:induction false} ReadingOn(n: nat, t: seq<byte>, c: byte)
    ensures Reading(n, t + [c]) == if 48 <= c <= 57 then 10 * Reading(n, t) + (c - 48) else Reading(n, t)
    decreases |t|
  {
    if t == [] {
      assert ([] + [c])[1..] == [];
    } else {
      assert (t + [c])[1..] == t[1..] + [c];
      ReadingOn(if 48 <= t[0] <= 57 then 10 * n + (t[0] - 48) else n, t[1..], c);
    }
  }

  /** Exactly the numerals have a value: the number they write. */
  lemma {:induction false} DigitsValueIs(t: seq<byte>)
    ensures DigitsValue(t) == if Numeral(t) then Some(Reading(0, t)) else None
    decreases |t|
  {
    hide Numeral, Reading;
    NumeralFirst(t);
    if t == [] || !IsDigit(t[|t| - 1]) {
    } else {
      var last, front := t[|t| - 1], t[..|t| - 1];
      assert t == front + [last];
      ReadingOn(0, front, last);
      NoneRead(last);
      if front == [] {
      } else if front[|front| - 1] == 95 {
        var shorter := front[..|front| - 1];
        assert front == shorter + [95];
        ReadingOn(0, shorter, 95);
        DigitsValueIs(shorter);
        LongerNumeral(shorter, last);
      } else {
        DigitsValueIs(front);
        LongerNumeral(front, last);
      }
    }
  }

  lemma NoneRead(c: byte)
    ensures Reading(0, []) == 0 && (48 <= c <= 57 ==> Numeral([] + [c]))
  {
  }

  /** A digit behind a text, with or without an underscore before it. */
  lemma LongerNumeral(t: seq<byte>, c: byte)
    requires 48 <= c <= 57
    ensures t != [] && t[|t| - 1] != 95 ==> (Numeral(t + [c]) <==> Numeral(t))
    ensures Numeral(t + [95] + [c]) <==> Numeral(t)
  {
    var one, two := t + [c], t + [95] + [c];
    assert forall i :: 0 <= i < |t| ==> one[i] == t[i] && two[i] == t[i];
    assert two[|t|] == 95;
    if Numeral(two) {
      assert t != [] && t[|t| - 1] != 95;
    }
    if Numeral(one) && t != [] && t[|t| - 1] != 95 {
      assert one[|t| - 1] == t[|t| - 1];
    }
  }

  lemma {:induction false} DecimalIs(n: nat)
    ensures var d := Decimal(n);
            && d != [] && (forall i :: 0 <= i < |d| ==> 48 <= d[i] <= 57) && Reading(0, d) == n
            && (d[0] == 48 ==> |d| == 1)
    decreases n
  {
    if n < 10 {
      assert Reading(0, [48 + n]) == Reading(n, []);
    } else {
      DecimalIs(n / 10);
      ReadingOn(0, Decimal(n / 10), Digit(n % 10));
    }
  }

  /** `str` of any number: its digits, without leading zeros, behind a minus sign for a number below zero. */
  lemma NumberWritten(n: int)
    ensures var d, m := Decimal(if n < 0 then -n else n), if n < 0 then -n else n;
            && TextOf(Int(n)) == (if n < 0 then [45] else []) + d
            && d != [] && (forall i :: 0 <= i < |d| ==> 48 <= d[i] <= 57) && Reading(0, d) == m
            && (d[0] == 48 ==> |d| == 1)
  {
    DecimalIs(if n < 0 then -n else n);
  }

  /** White space only. */
  predicate White(t: seq<byte>)
  {
    forall i :: 0 <= i < |t| ==> t[i] == 32 || 9 <= t[i] <= 13 || 28 <= t[i] <= 31
  }

  /** A numeral, or a sign and a numeral, and the number it writes. */
  predicate Writes(t: seq<byte>, n: int)
  {
    || (Numeral(t) && n == Reading(0, t))
    || (t != [] && t[0] == 43 && Numeral(t[1..]) && n == Reading(0, t[1..]))
    || (t != [] && t[0] == 45 && Numeral(t[1..]) && n == 0 - Reading(0, t[1..]))
  }

  lemma WhiteOne(c: byte)
    ensures White([c]) <==> IsSpace(c)
    ensures White([])
  {
    assert [c][0] == c;
  }

  lemma WhiteBoth(a: seq<byte>, b: seq<byte>)
    requires White(a) && White(b)
    ensures White(a + b)
  {
  }

  lemma {:induction false} FrontTrimmed(t: seq<byte>)
    ensures |TrimFront(t)| <= |t| && TrimFront(t) == t[|t| - |TrimFront(t)|..] && White(t[..|t| - |TrimFront(t)|])
    ensures TrimFront(t) != [] ==> !White([TrimFront(t)[0]])
    decreases |t|
  {
    hide White, IsSpace;
    if t == [] {
      WhiteOne(0);
    } else {
      WhiteOne(t[0]);
      if IsSpace(t[0]) {
        FrontTrimmed(t[1..]);
        var k := |t| - |TrimFront(t)|;
        WhiteBoth([t[0]], t[1..][..k - 1]);
        assert t[..k] == [t[0]] + t[1..][..k - 1];
      } else {
        assert t[..0] == [];
      }
    }
  }

  lemma {:induction false} BackTrimmed(t: seq<byte>)
    ensures TrimBack(t) <= t && White(t[|TrimBack(t)|..])
    ensures TrimBack(t) != [] ==> !White([TrimBack(t)[|TrimBack(t)| - 1]])
    decreases |t|
  {
    hide White, IsSpace;
    if t == [] {
      WhiteOne(0);
    } else {
      var front, last := t[..|t| - 1], t[|t| - 1];
      WhiteOne(last);
      if IsSpace(last) {
        BackTrimmed(front);
        var k := |TrimBack(t)|;
        WhiteBoth(front[k..], [last]);
        assert t[k..] == front[k..] + [last];
      } else {
        assert t[|t|..] == [];
      }
    }
  }

  /** The text from `from` to `to` writes `n`, with white space on both sides. */
  predicate StandsIn(t: seq<byte>, from: nat, to: nat, n: int)
  {
    from <= to <= |t| && White(t[..from]) && White(t[to..]) && Writes(t[from..to], n)
  }

  lemma WritesIs(s: seq<byte>, n: int)
    requires TrimFront(s) == TrimBack(s) == s
    ensures Writes(s, n) <==> TextNumber(s) == Some(n)
  {
    hide DigitsValue, Numeral, Reading, TrimFront, TrimBack;
    DigitsValueIs(s);
    NumeralFirst(s);
    if s != [] {
      DigitsValueIs(s[1..]);
    }
  }

  lemma NumeralFirst(s: seq<byte>)
    ensures Numeral(s) ==> s != [] && 48 <= s[0] <= 57 && 48 <= s[|s| - 1] <= 57
    ensures !Numeral([])
  {
  }

  /** `int(text)` gives a number exactly when, with white space around it, the text writes that number. */
  lemma NumberReads(t: seq<byte>, n: int)
    ensures TextNumber(t) == Some(n) <==> exists from: nat, to: nat :: StandsIn(t, from, to, n)
  {
    hide DigitsValue, TrimFront, TrimBack, Writes, White;
    var f := TrimFront(t);
    var s := TrimBack(f);
    FrontTrimmed(t);
    BackTrimmed(f);
    var from: nat := |t| - |f|;
    var to: nat := from + |s|;
    assert s == t[from..to];
    assert t[to..] == f[|s|..];
    if s != [] {
      assert s[0] == f[0];
    }
    TrimmedStays(s);
    WritesIs(s, n);
    if TextNumber(t) == Some(n) {
      assert StandsIn(t, from, to, n);
    }
    if at: nat, end: nat :| StandsIn(t, at, end, n) {
      SameSpan(t, at, end, n, from, to);
    }
  }

  /** Trimming leaves a text without outer white space as it is. */
  lemma TrimmedStays(s: seq<byte>)
    requires s != [] ==> !White([s[0]]) && !White([s[|s| - 1]])
    ensures TrimFront(s) == s && TrimBack(s) == s
  {
    if s != [] {
      assert [s[0]][0] == s[0] && [s[|s| - 1]][0] == s[|s| - 1];
    }
  }

  lemma SameSpan(t: seq<byte>, at: nat, end: nat, n: int, from: nat, to: nat)
    requires StandsIn(t, at, end, n) && from <= to <= |t| && White(t[..from]) && White(t[to..])
    requires from < |t| ==> !White([t[from]])
    requires from < to ==> !White([t[to - 1]])
    ensures at == from && end == to
  {
    hide Writes;
    var s := t[at..end];
    WrittenEnds(s, n);
    assert s[0] == t[at] && s[|s| - 1] == t[end - 1];
  }

  lemma WrittenEnds(s: seq<byte>, n: int)
    requires Writes(s, n)
    ensures s != [] && !White([s[0]]) && !White([s[|s| - 1]])
  {
    hide Numeral, Reading;
    NumeralFirst(s);
    NumeralFirst(s[1..]);
    assert [s[0]][0] == s[0] && [s[|s| - 1]][0] == s[|s| - 1];
  }

  // ---------------------------------------------------------------- columns

  /** `int(value)`. */
  function NumberOf(v: Value): Option<int>
  {
    match v
    case Int(n) => Some(n)
    case Bool(b) => Some(if b then 1 else 0)
    case Text(text) => TextNumber(text)
  }

  predicate IsNumberSize(ts: nat) { 1 <= ts <= 4 }

  /** Whether writing the value raises no exception. */
  predicate Encodable(ts: nat, v: Value)
  {
    IsNumberSize(ts) ==> NumberOf(v).Some? && 0 <= NumberOf(v).value < Pow2(8 * ts)
  }

  function FieldBytes(ts: nat, v: Value): (b: seq<byte>)
    requires Encodable(ts, v)
    ensures |b| == ts
  {
    if IsNumberSize(ts) then LeBytes(ts, NumberOf(v).value) else PadTo(TextOf(v), ts)
  }

  /** `decodeValue(raw, ts)`. */
  function DecodeValue(raw: seq<byte>, ts: nat): Value
  {
    if IsNumberSize(ts) then Int(LeWord(raw)) else Text(StripZeros(raw))
  }

  /** The number in one to four bytes, the low byte first. */
  lemma NumbersDecoded(a: byte, b: byte, c: byte, d: byte)
    ensures DecodeValue([a], 1) == Int(a) && DecodeValue([a, b], 2) == Int(a + 0x100 * b)
    ensures DecodeValue([a, b, c], 3) == Int(a + 0x100 * b + 0x1_0000 * c)
    ensures DecodeValue([a, b, c, d], 4) == Int(a + 0x100 * b + 0x1_0000 * c + 0x100_0000 * d)
  {
    hide LeWord;
    FourBytes(a, b, c, d);
    ThreeBytes(a, b, c);
    ThreeBytes(c, a, b);
    ThreeBytes(c, b, a);
  }

  /**
    What a column reads as, for every width and every content: a number exactly for the widths 1 to 4, whose bytes
    these are, and otherwise the text without the zeros at its end.
   */
  lemma ColumnReads(raw: seq<byte>, ts: nat)
    ensures var v := DecodeValue(raw, ts);
            if 1 <= ts <= 4 then v.Int? && 0 <= v.n < Pow2(8 * |raw|) && ReadsAs(raw, v.n)
            else v.Text? && |v.text| <= |raw| && raw == v.text + Repeat(0, |raw| - |v.text|) && NoTrailingZero(v.text)
  {
    if 1 <= ts <= 4 {
      hide Pow2, LeWord, LeBytes;
      var n := LeWord(raw);
      BytesOfWord(raw);
      forall i | 0 <= i < |raw| ensures raw[i] == ByteOf(n, i) {
        ByteAt(|raw|, n, i);
      }
    }
  }

  /** Byte `i` of a number, counted from the low one. */
  function ByteOf(n: nat, i: nat): byte { n / Pow2(8 * i) % 256 }

  predicate ReadsAs(raw: seq<byte>, n: nat) { forall i :: 0 <= i < |raw| ==> raw[i] == ByteOf(n, i) }

  /** One more than the largest number a column takes. */
  function Limit(ts: nat): nat
  {
    match ts
    case 1 => 0x100
    case 2 => 0x1_0000
    case 3 => 0x100_0000
    case _ => 0x1_0000_0000
  }

  /** Byte `i` of a written column: of the number for 1 to 4 bytes, else of the text, cut or filled up with zeros. */
  function WrittenByte(ts: nat, v: Value, i: nat): byte
    requires 1 <= ts <= 4 ==> NumberOf(v).Some? && NumberOf(v).value >= 0
  {
    if 1 <= ts <= 4 then ByteOf(NumberOf(v).value, i) else if i < |TextOf(v)| then TextOf(v)[i] else 0
  }

  /** Exactly when a value can be written to a column, and then every byte written. */
  lemma ColumnWrites(ts: nat, v: Value)
    ensures Encodable(ts, v) <==> (1 <= ts <= 4 ==> NumberOf(v).Some? && 0 <= NumberOf(v).value < Limit(ts))
    ensures Encodable(ts, v) ==> forall i :: 0 <= i < ts ==> FieldBytes(ts, v)[i] == WrittenByte(ts, v, i)
  {
    hide TextNumber, LeBytes, Pow2, TextOf;
    LimitIs(ts);
    if Encodable(ts, v) && 1 <= ts <= 4 {
      forall i | 0 <= i < ts ensures FieldBytes(ts, v)[i] == WrittenByte(ts, v, i) {
        ByteAt(ts, NumberOf(v).value, i);
      }
    }
  }

  lemma LimitIs(ts: nat)
    ensures 1 <= ts <= 4 ==> Limit(ts) == Pow2(8 * ts)
  {
    assert Pow2(8) == 0x100;
    hide Pow2;
    Pow2Add(8, 8);
    Pow2Add(8, 16);
    Pow2Add(8, 24);
  }

  /** A truth value in one byte is 1 or 0, and in a text column the word. */
  lemma TruthWritten(b: bool)
    ensures Encodable(1, Bool(b)) && FieldBytes(1, Bool(b)) == if b then [1] else [0]
    ensures var word := if b then "True" else "False";
            |TextOf(Bool(b))| == |word| && forall i :: 0 <= i < |word| ==> TextOf(Bool(b))[i] == word[i] as int
  {
    assert Pow2(8) == 0x100;
    hide Pow2;
    assert LeBytes(1, 1) == [1] + LeBytes(0, 0) && LeBytes(1, 0) == [0] + LeBytes(0, 0);
  }

  // ---------------------------------------------------------------- the file image

  predicate EntryEncodable(fs: seq<Field>)
  {
    forall i :: 0 <= i < |fs| ==> Encodable(fs[i].typeSize, fs[i].value)
  }

  function EntryBytes(fs: seq<Field>): (b: seq<byte>)
    requires EntryEncodable(fs)
  {
    if fs == [] then [] else FieldBytes(fs[0].typeSize, fs[0].value) + EntryBytes(fs[1..])
  }

  predicate AllEncodable(es: seq<seq<Field>>)
  {
    forall i :: 0 <= i < |es| ==> EntryEncodable(es[i])
  }

  function EntriesBytes(es: seq<seq<Field>>): (b: seq<byte>)
    requires AllEncodable(es)
  {
    if es == [] then [] else EntryBytes(es[0]) + EntriesBytes(es[1..])
  }

  function KeysBytes(ks: seq<seq<byte>>): (b: seq<byte>)
    ensures |b| == KEY_BYTES * |ks|
  {
    if ks == [] then [] else PadTo(ks[0], KEY_BYTES) + KeysBytes(ks[1..])
  }

  function SizesBytes(ss: seq<nat>): (b: seq<byte>)
    ensures |b| == 4 * |ss|
  {
    if ss == [] then [] else LeBytes(4, ss[0]) + SizesBytes(ss[1..])
  }

  /** Whether `toCdb` writes the table without raising. */
  predicate Writable(t: Table)
  {
    && t.keys != [] && t.typeSizes != [] && |t.keys| < M32
    && (forall i :: 0 <= i < |t.typeSizes| ==> t.typeSizes[i] < M32)
    && AllEncodable(t.entries)
  }

  function Header(t: Table): seq<byte>
  {
    LeBytes(4, |t.keys|) + KeysBytes(t.keys) + SizesBytes(t.typeSizes)
  }

  /** The bytes `toCdb` writes. */
  function Image(t: Table): seq<byte>
    requires Writable(t)
  {
    Header(t) + EntriesBytes(t.entries)
  }

  // ---------------------------------------------------------------- parsing

  /** `f.read(n)` at the cursor, and what is left behind it. */
  function Read(s: seq<byte>, n: nat): seq<byte> { if n <= |s| then s[..n] else s }
  function Skip(s: seq<byte>, n: nat): seq<byte> { if n <= |s| then s[n..] else [] }

  function ParseKeys(s: seq<byte>, n: nat): (ks: seq<seq<byte>>)
    ensures |ks| == n
    decreases n
  {
    if n == 0 then [] else [StripZeros(Read(s, KEY_BYTES))] + ParseKeys(Skip(s, KEY_BYTES), n - 1)
  }

  function ParseSizes(s: seq<byte>, n: nat): (ss: seq<nat>)
    ensures |ss| == n
    decreases n
  {
    if n == 0 then [] else [LeWord(Read(s, 4))] + ParseSizes(Skip(s, 4), n - 1)
  }

  function ParseEntry(s: seq<byte>, ks: seq<seq<byte>>, ss: seq<nat>): (fs: seq<Field>)
    requires |ks| == |ss|
    ensures |fs| == |ss|
    decreases |ss|
  {
    if ss == [] then []
    else [Field(ks[0], ss[0], DecodeValue(Read(s, ss[0]), ss[0]))] + ParseEntry(Skip(s, ss[0]), ks[1..], ss[1..])
  }

  function Sum(ss: seq<nat>): nat { if ss == [] then 0 else ss[0] + Sum(ss[1..]) }

  function ParseEntries(s: seq<byte>, ks: seq<seq<byte>>, ss: seq<nat>, n: nat): (es: seq<seq<Field>>)
    requires |ks| == |ss|
    ensures |es| == n
    decreases n
  {
    if n == 0 then [] else [ParseEntry(s, ks, ss)] + ParseEntries(Skip(s, Sum(ss)), ks, ss, n - 1)
  }

  /** How many whole entries fit behind the header: a negative quotient is an empty range. */
  function EntryCount(fileSize: nat, keys: nat, entrySize: nat): nat
    requires entrySize > 0
  {
    var n := (fileSize - 4 - keys * 34) / entrySize;
    if n < 0 then 0 else n
  }

  function Parse(file: seq<byte>): (t: Table)
  {
    var n := LeWord(Read(file, 4));
    var ks := ParseKeys(Skip(file, 4), n);
    var afterKeys := Skip(Skip(file, 4), KEY_BYTES * n);
    var ss := ParseSizes(afterKeys, n);
    var body := Skip(afterKeys, 4 * n);
    Table(ks, ss, if Sum(ss) > 0 then ParseEntries(body, ks, ss, EntryCount(|file|, n, Sum(ss))) else [])
  }

  // ---------------------------------------------------------------- conforming tables

  predicate NoTrailingZero(b: seq<byte>) { b == [] || b[|b| - 1] != 0 }

  /** A value as the parser produces it. */
  predicate Fits(ts: nat, v: Value)
  {
    if IsNumberSize(ts) then v.Int? && 0 <= v.n < Pow2(8 * ts)
    else v.Text? && |v.text| <= ts && NoTrailingZero(v.text)
  }

  /** An entry with the columns of the schema. */
  predicate Shaped(fs: seq<Field>, ks: seq<seq<byte>>, ss: seq<nat>)
  {
    |fs| == |ks| == |ss| && forall i :: 0 <= i < |fs| ==> fs[i].key == ks[i] && fs[i].typeSize == ss[i]
  }

  ghost predicate Conforming(t: Table)
  {
    && |t.keys| == |t.typeSizes|
    && (forall i :: 0 <= i < |t.keys| ==> |t.keys[i]| <= KEY_BYTES && NoTrailingZero(t.keys[i]))
    && (Sum(t.typeSizes) > 0 || t.entries == [])
    && (forall i :: 0 <= i < |t.entries| ==> ConformingEntry(t.entries[i], t.keys, t.typeSizes))
  }

  ghost predicate ConformingEntry(fs: seq<Field>, ks: seq<seq<byte>>, ss: seq<nat>)
  {
    Shaped(fs, ks, ss) && forall i :: 0 <= i < |fs| ==> Fits(fs[i].typeSize, fs[i].value)
  }

  lemma StripPad(b: seq<byte>, n: nat)
    requires |b| <= n && NoTrailingZero(b)
    ensures StripZeros(PadTo(b, n)) == b
  {
    var p := PadTo(b, n);
    assert forall i :: |b| <= i < n ==> p[i] == 0;
    assert b != [] ==> p[|b| - 1] == b[|b| - 1];
    assert |StripZeros(p)| == |b| && p[..|b|] == b;
  }

  lemma FieldRoundTrip(ts: nat, v: Value)
    requires Fits(ts, v)
    ensures Encodable(ts, v) && DecodeValue(FieldBytes(ts, v), ts) == v
  {
    hide Pow2, LeWord, LeBytes;
    if IsNumberSize(ts) {
      WordOfBytes(ts, v.n);
    } else {
      StripPad(v.text, ts);
    }
  }

  lemma ReadAppend(a: seq<byte>, b: seq<byte>)
    ensures Read(a + b, |a|) == a && Skip(a + b, |a|) == b
  {
  }

  lemma SkipNone(s: seq<byte>)
    ensures Skip(s, 0) == s
  {
  }

  lemma SkipTwice(s: seq<byte>, m: nat, n: nat)
    ensures Skip(Skip(s, m), n) == Skip(s, m + n)
  {
  }

  lemma {:induction false} ParseKeysOf(ks: seq<seq<byte>>, rest: seq<byte>)
    requires forall i :: 0 <= i < |ks| ==> |ks[i]| <= KEY_BYTES && NoTrailingZero(ks[i])
    ensures ParseKeys(KeysBytes(ks) + rest, |ks|) == ks
    decreases |ks|
  {
    hide StripZeros, PadTo;
    if ks == [] {
    } else {
      var tail := KeysBytes(ks[1..]) + rest;
      assert KeysBytes(ks) + rest == PadTo(ks[0], KEY_BYTES) + tail;
      ReadAppend(PadTo(ks[0], KEY_BYTES), tail);
      StripPad(ks[0], KEY_BYTES);
      ParseKeysOf(ks[1..], rest);
    }
  }

  lemma {:induction false} ParseSizesOf(ss: seq<nat>, rest: seq<byte>)
    requires forall i :: 0 <= i < |ss| ==> ss[i] < M32
    ensures ParseSizes(SizesBytes(ss) + rest, |ss|) == ss
    decreases |ss|
  {
    hide LeWord, LeBytes, Pow2;
    if ss == [] {
    } else {
      var tail := SizesBytes(ss[1..]) + rest;
      assert SizesBytes(ss) + rest == LeBytes(4, ss[0]) + tail;
      ReadAppend(LeBytes(4, ss[0]), tail);
      Pow2Widths();
      WordOfBytes(4, ss[0]);
      ParseSizesOf(ss[1..], rest);
    }
  }

  lemma {:induction false} EntryLength(fs: seq<Field>, ks: seq<seq<byte>>, ss: seq<nat>)
    requires Shaped(fs, ks, ss) && EntryEncodable(fs)
    ensures |EntryBytes(fs)| == Sum(ss)
    decreases |fs|
  {
    if fs == [] {
    } else {
      EntryLength(fs[1..], ks[1..], ss[1..]);
    }
  }

  lemma ConformingRest(fs: seq<Field>, ks: seq<seq<byte>>, ss: seq<nat>)
    requires ConformingEntry(fs, ks, ss) && fs != []
    ensures Fits(fs[0].typeSize, fs[0].value) && ConformingEntry(fs[1..], ks[1..], ss[1..])
  {
    hide Fits;
  }

  lemma EncodableFirst(fs: seq<Field>)
    ensures EntryEncodable(fs) <==>
              fs == [] || (Encodable(fs[0].typeSize, fs[0].value) && EntryEncodable(fs[1..]))
  {
    hide Encodable;
    assert forall i :: 0 < i < |fs| ==> fs[i] == fs[1..][i - 1];
  }

  lemma {:induction false} ParseEntryOf(fs: seq<Field>, ks: seq<seq<byte>>, ss: seq<nat>, rest: seq<byte>)
    requires ConformingEntry(fs, ks, ss)
    ensures EntryEncodable(fs) && ParseEntry(EntryBytes(fs) + rest, ks, ss) == fs
    decreases |fs|
  {
    hide FieldBytes, DecodeValue, Fits, Encodable, ConformingEntry, EntryEncodable;
    ShapedOf(fs, ks, ss);
    if fs == [] {
      EncodableFirst(fs);
    } else {
      ConformingRest(fs, ks, ss);
      FieldRoundTrip(fs[0].typeSize, fs[0].value);
      ParseEntryOf(fs[1..], ks[1..], ss[1..], rest);
      EncodableFirst(fs);
      var first, tail := FieldBytes(fs[0].typeSize, fs[0].value), EntryBytes(fs[1..]) + rest;
      assert EntryBytes(fs) + rest == first + tail;
      ReadAppend(first, tail);
    }
  }

  lemma {:induction false} ParseEntriesOf(es: seq<seq<Field>>, ks: seq<seq<byte>>, ss: seq<nat>)
    requires |ks| == |ss| && AllEncodable(es) && forall i :: 0 <= i < |es| ==> ConformingEntry(es[i], ks, ss)
    ensures ParseEntries(EntriesBytes(es), ks, ss, |es|) == es
    ensures |EntriesBytes(es)| == |es| * Sum(ss)
    decreases |es|
  {
    hide ConformingEntry, EntryBytes, EntryEncodable, ParseEntry;
    if es == [] {
    } else {
      var tail := EntriesBytes(es[1..]);
      ParseEntryOf(es[0], ks, ss, tail);
      ShapedOf(es[0], ks, ss);
      EntryLength(es[0], ks, ss);
      ReadAppend(EntryBytes(es[0]), tail);
      ParseEntriesOf(es[1..], ks, ss);
    }
  }

  lemma ShapedOf(fs: seq<Field>, ks: seq<seq<byte>>, ss: seq<nat>)
    requires ConformingEntry(fs, ks, ss)
    ensures Shaped(fs, ks, ss)
  {
  }

  /** Parsing what `toCdb` wrote for a conforming table gives the table back. */
  lemma ConformingRoundTrip(t: Table)
    requires Writable(t) && Conforming(t)
    ensures Parse(Image(t)) == t
  {
    hide StripZeros, LeWord, LeBytes, EntryBytes, EntriesBytes, ParseEntries, Pow2, KeysBytes, SizesBytes, ParseKeys;
    hide ParseSizes, EntryEncodable, ConformingEntry;
    var n, file := |t.keys|, Image(t);
    var count, keys, sizes, body := LeBytes(4, n), KeysBytes(t.keys), SizesBytes(t.typeSizes), EntriesBytes(t.entries);
    assert file == count + (keys + (sizes + body));
    ReadAppend(count, keys + (sizes + body));
    Pow2Widths();
    WordOfBytes(4, n);
    ParseKeysOf(t.keys, sizes + body);
    ReadAppend(keys, sizes + body);
    ParseSizesOf(t.typeSizes, body);
    ReadAppend(sizes, body);
    ParseEntriesOf(t.entries, t.keys, t.typeSizes);
    if Sum(t.typeSizes) > 0 {
      assert |file| - 4 - n * 34 == |t.entries| * Sum(t.typeSizes);
      ModOf(0, |t.entries|, Sum(t.typeSizes));
    }
  }

  // ---------------------------------------------------------------- whatever is parsed conforms

  lemma {:induction false} Pow2Monotone(a: nat, b: nat)
    requires a <= b
    ensures Pow2(a) <= Pow2(b)
    decreases b
  {
    if a == b {
    } else {
      Pow2Monotone(a, b - 1);
    }
  }

  lemma DecodedFits(raw: seq<byte>, ts: nat)
    requires |raw| <= ts
    ensures Fits(ts, DecodeValue(raw, ts))
  {
    hide Pow2, LeWord;
    Pow2Monotone(8 * |raw|, 8 * ts);
  }

  lemma {:induction false} ParsedEntryConforms(s: seq<byte>, ks: seq<seq<byte>>, ss: seq<nat>)
    requires |ks| == |ss|
    ensures ConformingEntry(ParseEntry(s, ks, ss), ks, ss)
    decreases |ss|
  {
    hide Fits, DecodeValue;
    if ss == [] {
    } else {
      DecodedFits(Read(s, ss[0]), ss[0]);
      ParsedEntryConforms(Skip(s, ss[0]), ks[1..], ss[1..]);
      FirstConforms(Field(ks[0], ss[0], DecodeValue(Read(s, ss[0]), ss[0])),
                    ParseEntry(Skip(s, ss[0]), ks[1..], ss[1..]), ks, ss);
    }
  }

  lemma FirstConforms(f: Field, fs: seq<Field>, ks: seq<seq<byte>>, ss: seq<nat>)
    requires |ks| == |ss| > 0 && f.key == ks[0] && f.typeSize == ss[0] && Fits(ss[0], f.value)
    requires ConformingEntry(fs, ks[1..], ss[1..])
    ensures ConformingEntry([f] + fs, ks, ss)
  {
    hide Fits;
    var all := [f] + fs;
    forall i | 0 <= i < |all| ensures all[i] == if i == 0 then f else fs[i - 1] {
    }
  }

  lemma {:induction false} ParsedEntriesConform(s: seq<byte>, ks: seq<seq<byte>>, ss: seq<nat>, n: nat)
    requires |ks| == |ss|
    ensures forall i :: 0 <= i < n ==> ConformingEntry(ParseEntries(s, ks, ss, n)[i], ks, ss)
    decreases n
  {
    hide ConformingEntry, ParseEntry;
    if n == 0 {
    } else {
      ParsedEntryConforms(s, ks, ss);
      ParsedEntriesConform(Skip(s, Sum(ss)), ks, ss, n - 1);
    }
  }

  lemma {:induction false} ParsedKeysConform(s: seq<byte>, n: nat)
    ensures forall i :: 0 <= i < n ==> |ParseKeys(s, n)[i]| <= KEY_BYTES && NoTrailingZero(ParseKeys(s, n)[i])
    decreases n
  {
    if n == 0 {
    } else {
      ParsedKeysConform(Skip(s, KEY_BYTES), n - 1);
    }
  }

  /** Every file, well-formed or not, parses to a conforming table. */
  lemma ParseConforms(file: seq<byte>)
    ensures Conforming(Parse(file))
  {
    hide ParseKeys, ParseSizes, ParseEntries, LeWord, ConformingEntry;
    var n := LeWord(Read(file, 4));
    ParsedKeysConform(Skip(file, 4), n);
    var t := Parse(file);
    var body := Skip(Skip(Skip(file, 4), KEY_BYTES * n), 4 * n);
    if Sum(t.typeSizes) > 0 {
      ParsedEntriesConform(body, t.keys, t.typeSizes, EntryCount(|file|, n, Sum(t.typeSizes)));
    }
  }

  /** The codec's round trip, and exactly when it holds: for the conforming tables and for no others. */
  lemma RoundTripIff(t: Table)
    requires Writable(t)
    ensures Parse(Image(t)) == t <==> Conforming(t)
  {
    hide Parse, Image, Conforming, Writable;
    ParseConforms(Image(t));
    if Conforming(t) {
      ConformingRoundTrip(t);
    }
  }

  // ---------------------------------------------------------------- the parser by positions in the file

  /** What the file holds of the `n` bytes from `at` on. */
  function Slice(s: seq<byte>, at: nat, n: nat): seq<byte> { Read(Skip(s, at), n) }

  lemma SliceIs(s: seq<byte>, at: nat, n: nat)
    ensures Slice(s, at, n) == if at + n <= |s| then s[at..at + n] else if at <= |s| then s[at..] else []
  {
  }

  lemma SliceBehind(s: seq<byte>, m: nat, at: nat, n: nat)
    ensures Slice(Skip(s, m), at, n) == Slice(s, m + at, n)
  {
    hide Read, Skip;
    SkipTwice(s, m, at);
  }

  lemma {:induction false} KeyAt(s: seq<byte>, n: nat, k: nat)
    requires k < n
    ensures ParseKeys(s, n)[k] == StripZeros(Slice(s, 30 * k, 30))
    decreases k
  {
    hide StripZeros, Read, Skip;
    if k == 0 {
      SkipNone(s);
    } else {
      KeyAt(Skip(s, 30), n - 1, k - 1);
      SkipTwice(s, 30, 30 * (k - 1));
    }
  }

  lemma {:induction false} SizeAt(s: seq<byte>, n: nat, k: nat)
    requires k < n
    ensures ParseSizes(s, n)[k] == LeWord(Slice(s, 4 * k, 4))
    decreases k
  {
    hide LeWord, Read, Skip;
    if k == 0 {
      SkipNone(s);
    } else {
      SizeAt(Skip(s, 4), n - 1, k - 1);
      SkipTwice(s, 4, 4 * (k - 1));
    }
  }

  lemma {:induction false} FieldAt(s: seq<byte>, ks: seq<seq<byte>>, ss: seq<nat>, i: nat)
    requires |ks| == |ss| && i < |ss|
    ensures ParseEntry(s, ks, ss)[i] == Field(ks[i], ss[i], DecodeValue(Slice(s, Sum(ss[..i]), ss[i]), ss[i]))
    decreases i
  {
    hide DecodeValue, Read, Skip;
    if i == 0 {
      SkipNone(s);
    } else {
      FieldAt(Skip(s, ss[0]), ks[1..], ss[1..], i - 1);
      assert ss[..i][1..] == ss[1..][..i - 1];
      SkipTwice(s, ss[0], Sum(ss[1..][..i - 1]));
    }
  }

  lemma {:induction false} EntryAt(s: seq<byte>, ks: seq<seq<byte>>, ss: seq<nat>, n: nat, e: nat)
    requires |ks| == |ss| && e < n
    ensures ParseEntries(s, ks, ss, n)[e] == ParseEntry(Skip(s, EntryStart(e, Sum(ss))), ks, ss)
    decreases e
  {
    hide ParseEntry, Skip;
    if e == 0 {
      SkipNone(s);
    } else {
      EntryAt(Skip(s, Sum(ss)), ks, ss, n - 1, e - 1);
      assert EntryStart(e, Sum(ss)) == Sum(ss) + EntryStart(e - 1, Sum(ss));
      SkipTwice(s, Sum(ss), EntryStart(e - 1, Sum(ss)));
    }
  }

  /** How many whole entries there are behind the header: as many as fit. */
  lemma CountFits(fileSize: nat, keys: nat, size: nat)
    requires size > 0
    ensures var c := EntryCount(fileSize, keys, size);
            && fileSize < 4 + 34 * keys + EntryStart(c + 1, size)
            && (c > 0 ==> 4 + 34 * keys + EntryStart(c, size) <= fileSize)
  {
    var room := fileSize - 4 - keys * 34;
    if room >= 0 {
      DivMod(room, size);
    } else {
      assert room / size < 0;
    }
  }

  /** Where column `i` of entry `e` starts, as a byte of the file. */
  function FieldStart(t: Table, e: nat, i: nat): nat
    requires i <= |t.typeSizes|
  {
    4 + 34 * |t.keys| + EntryStart(e, Sum(t.typeSizes)) + Sum(t.typeSizes[..i])
  }

  predicate ParsedField(file: seq<byte>, t: Table, e: nat, i: nat)
    requires i < |t.keys| == |t.typeSizes| && e < |t.entries|
  {
    var ts := t.typeSizes[i];
    && |t.entries[e]| == |t.keys|
    && t.entries[e][i] == Field(t.keys[i], ts, DecodeValue(Slice(file, FieldStart(t, e, i), ts), ts))
  }

  /**
    The parser by absolute positions, for every file: the number of columns in the first four bytes, the keys from
    byte 4 on, 30 bytes each, the widths behind them, 4 bytes each, and then the entries, column behind column, as
    many as the file holds whole.
   */
  lemma ParsedAt(file: seq<byte>)
    ensures var t := Parse(file);
            var n, size := |t.keys|, Sum(t.typeSizes);
            && n == |t.typeSizes| == LeWord(Slice(file, 0, 4))
            && (forall k: nat :: k < n ==> t.keys[k] == StripZeros(Slice(file, 4 + 30 * k, 30)))
            && (forall k: nat :: k < n ==> t.typeSizes[k] == LeWord(Slice(file, 4 + 30 * n + 4 * k, 4)))
            && (if size == 0 then t.entries == []
                else && |file| < 4 + 34 * n + EntryStart(|t.entries| + 1, size)
                     && (t.entries != [] ==> 4 + 34 * n + EntryStart(|t.entries|, size) <= |file|))
            && (forall e: nat, i: nat :: e < |t.entries| && i < n ==> ParsedField(file, t, e, i))
  {
    hide LeWord, ParseKeys, ParseSizes, ParseEntries, ParseEntry, Read, Skip, StripZeros, EntryCount, DecodeValue, Sum;
    hide Slice, EntryStart;
    var t := Parse(file);
    var n, size := |t.keys|, Sum(t.typeSizes);
    var afterCount, afterKeys := Skip(file, 4), Skip(Skip(file, 4), 30 * n);
    var body := Skip(afterKeys, 4 * n);
    SkipTwice(file, 4, 30 * n);
    SkipTwice(file, 4 + 30 * n, 4 * n);
    FirstSlice(file, 4);
    forall k: nat | k < n
      ensures t.keys[k] == StripZeros(Slice(file, 4 + 30 * k, 30))
      ensures t.typeSizes[k] == LeWord(Slice(file, 4 + 30 * n + 4 * k, 4))
    {
      KeyAt(afterCount, n, k);
      SliceBehind(file, 4, 30 * k, 30);
      SizeAt(afterKeys, n, k);
      SliceBehind(file, 4 + 30 * n, 4 * k, 4);
    }
    if size > 0 {
      CountFits(|file|, n, size);
      forall e: nat, i: nat | e < |t.entries| && i < n
        ensures ParsedField(file, t, e, i)
      {
        EntryAt(body, t.keys, t.typeSizes, |t.entries|, e);
        var start, offset := EntryStart(e, size), Sum(t.typeSizes[..i]);
        FieldAt(Skip(body, start), t.keys, t.typeSizes, i);
        SliceBehind(body, start, offset, t.typeSizes[i]);
        SliceBehind(file, 4 + 34 * n, start + offset, t.typeSizes[i]);
      }
    }
  }

  lemma FirstSlice(s: seq<byte>, n: nat)
    ensures Slice(s, 0, n) == Read(s, n)
  {
    hide Read;
    SkipNone(s);
  }

  // ---------------------------------------------------------------- patching one field

  /** The first column with that key, or the number of columns. */
  function FindField(fs: seq<Field>, key: seq<byte>): (i: nat)
    ensures i <= |fs| && (i < |fs| ==> fs[i].key == key) && forall j :: 0 <= j < i ==> fs[j].key != key
  {
    if fs == [] then 0 else if fs[0].key == key then 0 else 1 + FindField(fs[1..], key)
  }

  /** The byte offset of column `i` in an entry. */
  function Offset(fs: seq<Field>, i: nat): nat
    requires i <= |fs|
  {
    if i == 0 then 0 else fs[0].typeSize + Offset(fs[1..], i - 1)
  }

  function SetField(fs: seq<Field>, i: nat, v: Value): seq<Field>
    requires i < |fs|
  {
    fs[i := fs[i].(value := v)]
  }

  function SetEntry(t: Table, e: nat, i: nat, v: Value): Table
    requires e < |t.entries| && i < |t.entries[e]|
  {
    t.(entries := t.entries[e := SetField(t.entries[e], i, v)])
  }

  /** Writing into an open file at a position; a write behind the end fills the gap with zeros. */
  function WriteAt(s: seq<byte>, pos: nat, b: seq<byte>): seq<byte>
  {
    if b == [] then s
    else if pos > |s| then s + Repeat<byte>(0, pos - |s|) + b
    else if pos + |b| >= |s| then s[..pos] + b
    else s[..pos] + b + s[pos + |b|..]
  }

  lemma WriteInside(s: seq<byte>, pos: nat, b: seq<byte>)
    requires pos + |b| <= |s|
    ensures WriteAt(s, pos, b) == s[..pos] + b + s[pos + |b|..]
  {
    if b == [] {
      assert s == s[..pos] + b + s[pos..];
    } else if pos + |b| == |s| {
      assert s[..pos] + b == s[..pos] + b + s[|s|..];
    }
  }

  lemma WriteAtWithin(a: seq<byte>, s: seq<byte>, c: seq<byte>, pos: nat, b: seq<byte>)
    requires pos + |b| <= |s|
    ensures WriteAt(a + s + c, |a| + pos, b) == a + WriteAt(s, pos, b) + c
    ensures |WriteAt(s, pos, b)| == |s|
  {
    hide WriteAt;
    WriteInside(s, pos, b);
    WriteInside(a + s + c, |a| + pos, b);
    var front, back := s[..pos], s[pos + |b|..];
    assert (a + s + c)[..|a| + pos] == a + front;
    assert (a + s + c)[|a| + pos + |b|..] == back + c;
    assert a + front + b + (back + c) == a + (front + b + back) + c;
  }

  lemma SetFieldEncodable(fs: seq<Field>, i: nat, v: Value)
    requires i < |fs| && EntryEncodable(fs) && Encodable(fs[i].typeSize, v)
    ensures EntryEncodable(SetField(fs, i, v))
  {
    hide Encodable;
  }

  lemma {:induction false} PatchEntry(fs: seq<Field>, i: nat, v: Value)
    requires i < |fs| && EntryEncodable(fs) && Encodable(fs[i].typeSize, v)
    ensures EntryEncodable(SetField(fs, i, v))
    ensures EntryBytes(SetField(fs, i, v)) == WriteAt(EntryBytes(fs), Offset(fs, i), FieldBytes(fs[i].typeSize, v))
    ensures Offset(fs, i) + fs[i].typeSize <= |EntryBytes(fs)|
    decreases i
  {
    hide FieldBytes, Encodable, EntryEncodable, WriteAt;
    SetFieldEncodable(fs, i, v);
    var gs, b := SetField(fs, i, v), FieldBytes(fs[i].typeSize, v);
    FirstEncodable(fs);
    FirstEncodable(gs);
    var first, rest := FieldBytes(fs[0].typeSize, fs[0].value), EntryBytes(fs[1..]);
    if i == 0 {
      assert gs[1..] == fs[1..];
      WriteInside(first + rest, 0, b);
      assert (first + rest)[..0] + b + (first + rest)[|b|..] == b + rest;
    } else {
      PatchEntry(fs[1..], i - 1, v);
      assert gs[1..] == SetField(fs[1..], i - 1, v) && gs[0] == fs[0];
      assert first + rest == first + rest + [];
      WriteAtWithin(first, rest, [], Offset(fs[1..], i - 1), b);
      var patched := WriteAt(rest, Offset(fs[1..], i - 1), b);
      assert first + patched + [] == first + patched;
    }
  }

  lemma FirstEncodable(fs: seq<Field>)
    requires fs != [] && EntryEncodable(fs)
    ensures Encodable(fs[0].typeSize, fs[0].value) && EntryEncodable(fs[1..])
  {
    hide Encodable;
  }

  /** Where entry `e` starts behind the header. */
  function EntryStart(e: nat, size: nat): nat { e * size }

  predicate AllOfSize(es: seq<seq<Field>>, size: nat)
    requires AllEncodable(es)
  {
    forall k :: 0 <= k < |es| ==> |EntryBytes(es[k])| == size
  }

  /** Entries of one size: patching entry `e` patches the list of entries `e` sizes further on. */
  lemma {:induction false} PatchEntries(es: seq<seq<Field>>, e: nat, fs: seq<Field>, pos: nat, b: seq<byte>, size: nat)
    requires e < |es| && AllEncodable(es) && EntryEncodable(fs)
    requires AllOfSize(es, size)
    requires pos + |b| <= size && EntryBytes(fs) == WriteAt(EntryBytes(es[e]), pos, b)
    ensures AllEncodable(es[e := fs])
    ensures EntriesBytes(es[e := fs]) == WriteAt(EntriesBytes(es), EntryStart(e, size) + pos, b)
    ensures EntryStart(e, size) + pos + |b| <= |EntriesBytes(es)|
    decreases e
  {
    hide EntryBytes, EntryEncodable, WriteAt;
    var us, first, rest := es[e := fs], EntryBytes(es[0]), EntriesBytes(es[1..]);
    if e == 0 {
      assert us[1..] == es[1..];
      assert first + rest == [] + first + rest;
      WriteAtWithin([], first, rest, pos, b);
      assert [] + EntryBytes(fs) + rest == EntryBytes(fs) + rest;
    } else {
      PatchEntries(es[1..], e - 1, fs, pos, b, size);
      assert us[1..] == es[1..][e - 1 := fs] && us[0] == es[0];
      assert first + rest == first + rest + [];
      WriteAtWithin(first, rest, [], EntryStart(e - 1, size) + pos, b);
      var patched := WriteAt(rest, EntryStart(e - 1, size) + pos, b);
      assert first + patched + [] == first + patched;
      assert EntryStart(e, size) == size + EntryStart(e - 1, size);
    }
  }

  ghost predicate AllShaped(t: Table)
  {
    |t.keys| == |t.typeSizes| && forall k :: 0 <= k < |t.entries| ==> Shaped(t.entries[k], t.keys, t.typeSizes)
  }

  function HeaderSize(t: Table): nat { 4 + |t.keys| * 34 }

  /** Patching the bytes of one field of the image gives the image of the updated table. */
  lemma PatchIsRewrite(t: Table, e: nat, i: nat, v: Value)
    requires Writable(t) && AllShaped(t) && e < |t.entries| && i < |t.entries[e]|
    requires Encodable(t.entries[e][i].typeSize, v)
    ensures Writable(SetEntry(t, e, i, v))
    ensures Image(SetEntry(t, e, i, v))
         == WriteAt(Image(t), HeaderSize(t) + EntryStart(e, Sum(t.typeSizes)) + Offset(t.entries[e], i),
                    FieldBytes(t.entries[e][i].typeSize, v))
  {
    hide FieldBytes, Encodable, EntryBytes, EntryEncodable, Offset, SetField, Header, EntriesBytes, WriteAt, Shaped;
    var size, fs, b := Sum(t.typeSizes), t.entries[e], FieldBytes(t.entries[e][i].typeSize, v);
    forall k | 0 <= k < |t.entries|
      ensures |EntryBytes(t.entries[k])| == size
    {
      EntryLength(t.entries[k], t.keys, t.typeSizes);
    }
    PatchEntry(fs, i, v);
    var pos := Offset(fs, i);
    PatchEntries(t.entries, e, SetField(fs, i, v), pos, b, size);
    HeaderLength(t);
    var h, body := Header(t), EntriesBytes(t.entries);
    WriteAtWithin(h, body, [], EntryStart(e, size) + pos, b);
    assert h + body == h + body + [];
    var patched := WriteAt(body, EntryStart(e, size) + pos, b);
    assert h + patched + [] == h + patched;
    HeaderUnchanged(t, SetEntry(t, e, i, v));
  }

  lemma HeaderLength(t: Table)
    requires |t.keys| == |t.typeSizes|
    ensures |Header(t)| == HeaderSize(t)
  {
  }

  lemma HeaderUnchanged(t: Table, u: Table)
    requires t.keys == u.keys && t.typeSizes == u.typeSizes
    ensures Header(t) == Header(u)
  {
  }

  // ---------------------------------------------------------------- updateCdbEntryFast

  /** A list index of the tool's language: negative indices count from the end. */
  function PyIndex(n: int, len: nat): Option<nat>
  {
    if 0 <= n < len then Some(n) else if n < 0 <= len + n then Some(len + n) else None
  }

  datatype Fast = Fast(ok: bool, table: Table, disk: Option<seq<byte>>)

  /** The byte position that is patched. */
  function PatchPosition(t: Table, fs: seq<Field>, n: int, i: nat): int
    requires i <= |fs|
  {
    HeaderSize(t) + n * Offset(fs, |fs|) + Offset(fs, i)
  }

  /** The table in memory changes first; the file is patched unless something fails before the write. */
  function UpdateFast(t: Table, disk: Option<seq<byte>>, n: int, key: seq<byte>, v: Value): (r: Fast)
  {
    match PyIndex(n, |t.entries|)
    case None => Fast(false, t, disk)
    case Some(e) =>
      var fs := t.entries[e];
      var i := FindField(fs, key);
      if i == |fs| then Fast(false, t, disk)
      else
        var u, pos := SetEntry(t, e, i, v), PatchPosition(t, fs, n, i);
        if disk.None? || pos < 0 || !Encodable(fs[i].typeSize, v) then Fast(false, u, disk)
        else Fast(true, u, Some(WriteAt(disk.value, pos, FieldBytes(fs[i].typeSize, v))))
  }

  lemma {:induction false} OffsetIsSum(fs: seq<Field>, ks: seq<seq<byte>>, ss: seq<nat>)
    requires Shaped(fs, ks, ss)
    ensures Offset(fs, |fs|) == Sum(ss)
    decreases |fs|
  {
    if fs == [] {
    } else {
      OffsetIsSum(fs[1..], ks[1..], ss[1..]);
    }
  }

  lemma NotWritable(t: Table, e: nat, i: nat, v: Value)
    requires Writable(t) && e < |t.entries| && i < |t.entries[e]|
    requires !Encodable(t.entries[e][i].typeSize, v)
    ensures !Writable(SetEntry(t, e, i, v))
  {
    var u := SetEntry(t, e, i, v);
    assert u.entries[e][i] == t.entries[e][i].(value := v);
  }

  /**
    The fast patch agrees with the full rewrite. For a file that is the image of the table, any schema, any
    number of entries and any index from 0 on: the patch succeeds exactly when the updated table can be written,
    the file is then byte for byte its image, and otherwise the file is untouched.
   */
  lemma FastIsRewrite(t: Table, n: int, key: seq<byte>, v: Value)
    requires Writable(t) && AllShaped(t) && 0 <= n < |t.entries| && FindField(t.entries[n], key) < |t.entries[n]|
    ensures var r := UpdateFast(t, Some(Image(t)), n, key, v);
            && r.table == SetEntry(t, n, FindField(t.entries[n], key), v)
            && r.ok == Writable(r.table)
            && (if r.ok then r.disk == Some(Image(r.table)) else r.disk == Some(Image(t)))
  {
    hide FieldBytes, Encodable, Image, Writable, Offset, WriteAt, Shaped, SetField;
    var fs, i := t.entries[n], FindField(t.entries[n], key);
    OffsetIsSum(fs, t.keys, t.typeSizes);
    assert n * Sum(t.typeSizes) == EntryStart(n, Sum(t.typeSizes));
    if Encodable(fs[i].typeSize, v) {
      PatchIsRewrite(t, n, i, v);
    } else {
      NotWritable(t, n, i, v);
    }
  }

  lemma WriteChanges(s: seq<byte>, pos: nat, a: seq<byte>, b: seq<byte>)
    requires pos + |a| <= |s| && |a| == |b| && a != b && WriteAt(s, pos, a) == s
    ensures WriteAt(s, pos, b) != s
  {
    assert WriteAt(s, pos, a)[pos..pos + |a|] == a;
    assert WriteAt(s, pos, b)[pos..pos + |b|] == b;
  }

  /** A write that ends before position `h` leaves everything from `h` on alone. */
  lemma WriteBelow(s: seq<byte>, pos: nat, b: seq<byte>, h: nat)
    requires pos + |b| <= h <= |s|
    ensures |WriteAt(s, pos, b)| == |s| && WriteAt(s, pos, b)[h..] == s[h..]
  {
  }

  lemma {:induction false} OffsetWithin(fs: seq<Field>, i: nat)
    requires i < |fs|
    ensures Offset(fs, i) + fs[i].typeSize <= Offset(fs, |fs|)
    decreases |fs|
  {
    if i > 0 {
      OffsetWithin(fs[1..], i - 1);
    } else {
      assert Offset(fs, 0) == 0;
    }
  }

  /**
    Exactly when the fast patch keeps file and table together: for an update that changes the stored bytes, if and
    only if the index is not negative. A negative index selects an entry from the end in memory, but its byte
    position lies in front of the entries.
   */
  lemma FastIsRewriteIff(t: Table, n: int, key: seq<byte>, v: Value)
    requires Writable(t) && AllShaped(t) && PyIndex(n, |t.entries|).Some?
    requires var fs := t.entries[PyIndex(n, |t.entries|).value];
             var i := FindField(fs, key);
             && i < |fs| && Encodable(fs[i].typeSize, v) && Encodable(fs[i].typeSize, fs[i].value)
             && FieldBytes(fs[i].typeSize, v) != FieldBytes(fs[i].typeSize, fs[i].value)
    ensures var r := UpdateFast(t, Some(Image(t)), n, key, v);
            Writable(r.table) && (r.disk == Some(Image(r.table)) <==> n >= 0)
  {
    hide FieldBytes, Encodable, Offset, WriteAt, Shaped, SetField, Header, EntriesBytes, AllEncodable, EntryEncodable;
    hide Sum;
    var e := PyIndex(n, |t.entries|).value;
    var fs := t.entries[e];
    var i := FindField(fs, key);
    PatchIsRewrite(t, e, i, v);
    if n >= 0 {
      FastIsRewrite(t, n, key, v);
    } else {
      NegativeIndexMisses(t, n, e, i, v);
    }
  }

  lemma SetSame(t: Table, e: nat, i: nat)
    requires e < |t.entries| && i < |t.entries[e]|
    ensures SetEntry(t, e, i, t.entries[e][i].value) == t
  {
    assert SetField(t.entries[e], i, t.entries[e][i].value) == t.entries[e];
  }

  lemma NegativeIndexMisses(t: Table, n: int, e: nat, i: nat, v: Value)
    requires Writable(t) && AllShaped(t) && n < 0 && e < |t.entries| && i < |t.entries[e]|
    requires Encodable(t.entries[e][i].typeSize, v)
    requires Encodable(t.entries[e][i].typeSize, t.entries[e][i].value)
    requires FieldBytes(t.entries[e][i].typeSize, v) != FieldBytes(t.entries[e][i].typeSize, t.entries[e][i].value)
    ensures Writable(SetEntry(t, e, i, v))
    ensures Image(t) != Image(SetEntry(t, e, i, v))
    ensures var pos := PatchPosition(t, t.entries[e], n, i);
            pos >= 0 ==>
              WriteAt(Image(t), pos, FieldBytes(t.entries[e][i].typeSize, v)) != Image(SetEntry(t, e, i, v))
  {
    hide FieldBytes, Encodable, Offset, WriteAt, Shaped, SetField, Header, EntriesBytes, AllEncodable, EntryEncodable;
    hide Sum;
    var fs, size := t.entries[e], Sum(t.typeSizes);
    var b, old_ := FieldBytes(fs[i].typeSize, v), FieldBytes(fs[i].typeSize, fs[i].value);
    var s, h, at := Image(t), HeaderSize(t), HeaderSize(t) + EntryStart(e, size) + Offset(fs, i);
    OffsetIsSum(fs, t.keys, t.typeSizes);
    OffsetWithin(fs, i);
    PatchIsRewrite(t, e, i, v);
    PatchIsRewrite(t, e, i, fs[i].value);
    SetSame(t, e, i);
    ImageLength(t, e, i);
    assert s[..] == WriteAt(s, at, old_);
    WriteChanges(s, at, old_, b);
    var pos := PatchPosition(t, fs, n, i);
    NegativeProduct(n, size);
    if pos >= 0 {
      WriteBelow(s, pos, b, h);
      var w := WriteAt(s, pos, b);
      if w == WriteAt(s, at, b) {
        SplitWrite(s, at, b, h, w);
        SplitWrite(s, at, old_, h, s);
        assert false;
      }
    }
  }

  /** Behind `h`, a write at `at >= h` shows its bytes. */
  lemma SplitWrite(s: seq<byte>, at: nat, b: seq<byte>, h: nat, w: seq<byte>)
    requires h <= at && at + |b| <= |s| && w == WriteAt(s, at, b)
    ensures |w| == |s| && w[h..][at - h..at - h + |b|] == b
  {
    assert w[at..at + |b|] == b;
  }

  lemma NegativeProduct(n: int, size: nat)
    requires n < 0
    ensures n * size + size <= 0
  {
    MulMonotone(1, -n, size);
  }

  lemma ImageLength(t: Table, e: nat, i: nat)
    requires Writable(t) && AllShaped(t) && e < |t.entries| && i < |t.entries[e]|
    ensures HeaderSize(t) + EntryStart(e, Sum(t.typeSizes)) + Offset(t.entries[e], i) + t.entries[e][i].typeSize
         <= |Image(t)|
  {
    hide FieldBytes, Encodable, EntryBytes, EntryEncodable, Offset, Header, EntriesBytes, WriteAt, Shaped;
    var fs, size := t.entries[e], Sum(t.typeSizes);
    forall k | 0 <= k < |t.entries|
      ensures |EntryBytes(t.entries[k])| == size
    {
      EntryLength(t.entries[k], t.keys, t.typeSizes);
    }
    AllFitOf(t.entries, e, i);
    PatchEntry(fs, i, fs[i].value);
    SetSame(t, e, i);
    assert SetField(fs, i, fs[i].value) == fs;
    PatchEntries(t.entries, e, fs, Offset(fs, i), FieldBytes(fs[i].typeSize, fs[i].value), size);
    HeaderLength(t);
  }

  lemma AllFitOf(es: seq<seq<Field>>, e: nat, i: nat)
    requires AllEncodable(es) && e < |es| && i < |es[e]|
    ensures EntryEncodable(es[e]) && Encodable(es[e][i].typeSize, es[e][i].value)
  {
  }

  // ---------------------------------------------------------------- the image by positions in the file

  lemma {:induction false} KeyPlace(ks: seq<seq<byte>>, k: nat)
    requires k < |ks|
    ensures KeysBytes(ks)[30 * k..30 * k + 30] == PadTo(ks[k], 30)
    decreases k
  {
    hide PadTo;
    var first, rest := PadTo(ks[0], 30), KeysBytes(ks[1..]);
    if k == 0 {
    } else {
      KeyPlace(ks[1..], k - 1);
      assert (first + rest)[30 * k..30 * k + 30] == rest[30 * (k - 1)..30 * (k - 1) + 30];
    }
  }

  lemma {:induction false} SizePlace(ss: seq<nat>, k: nat)
    requires k < |ss|
    ensures SizesBytes(ss)[4 * k..4 * k + 4] == LeBytes(4, ss[k])
    decreases k
  {
    hide LeBytes;
    var first, rest := LeBytes(4, ss[0]), SizesBytes(ss[1..]);
    if k == 0 {
    } else {
      SizePlace(ss[1..], k - 1);
      assert (first + rest)[4 * k..4 * k + 4] == rest[4 * (k - 1)..4 * (k - 1) + 4];
    }
  }

  /** Byte `j` of a key as it is stored: cut or filled up with zeros. */
  function KeyByte(key: seq<byte>, j: nat): byte { if j < |key| then key[j] else 0 }

  /** The header of a written file: the number of columns, then every key at its place, then every width at its. */
  lemma ImageHeaderAt(t: Table)
    requires Writable(t) && |t.keys| == |t.typeSizes|
    ensures var b, n := Image(t), |t.keys|;
            && |b| >= 4 + 34 * n && b[..4] == LeBytes(4, n)
            && (forall k: nat, j: nat :: k < n && j < 30 ==> b[4 + 30 * k + j] == KeyByte(t.keys[k], j))
            && (forall k: nat, j: nat :: k < n && j < 4 ==> b[4 + 30 * n + 4 * k + j] == ByteOf(t.typeSizes[k], j))
  {
    hide EntriesBytes, LeBytes, PadTo, ByteOf, KeyByte, KeysBytes, SizesBytes;
    var b, n := Image(t), |t.keys|;
    var keys, sizes := KeysBytes(t.keys), SizesBytes(t.typeSizes);
    assert b[..4] == LeBytes(4, n) && b[4..4 + 30 * n] == keys && b[4 + 30 * n..4 + 34 * n] == sizes;
    hide Image;
    forall k: nat, j: nat | k < n && j < 30 ensures b[4 + 30 * k + j] == KeyByte(t.keys[k], j) {
      KeyPlace(t.keys, k);
      PadByte(t.keys[k], j);
      assert keys[30 * k..30 * k + 30][j] == keys[30 * k + j] == b[4 + 30 * k + j];
    }
    forall k: nat, j: nat | k < n && j < 4 ensures b[4 + 30 * n + 4 * k + j] == ByteOf(t.typeSizes[k], j) {
      SizePlace(t.typeSizes, k);
      WidthByte(t.typeSizes[k], j);
      assert sizes[4 * k..4 * k + 4][j] == sizes[4 * k + j] == b[4 + 30 * n + 4 * k + j];
    }
  }

  lemma PadByte(key: seq<byte>, j: nat)
    requires j < 30
    ensures PadTo(key, 30)[j] == KeyByte(key, j)
  {
  }

  lemma WidthByte(size: nat, j: nat)
    requires j < 4
    ensures LeBytes(4, size)[j] == ByteOf(size, j)
  {
    hide *;
    ByteAt(4, size, j);
    ByteOfIs(size, j);
  }

  lemma ByteOfIs(n: nat, i: nat)
    ensures ByteOf(n, i) == n / Pow2(8 * i) % 256
  {
    hide Pow2;
  }

  lemma {:induction false} OffsetIsSumOf(fs: seq<Field>, ks: seq<seq<byte>>, ss: seq<nat>, i: nat)
    requires Shaped(fs, ks, ss) && i <= |fs|
    ensures Offset(fs, i) == Sum(ss[..i])
    decreases i
  {
    if i == 0 {
    } else {
      OffsetIsSumOf(fs[1..], ks[1..], ss[1..], i - 1);
      assert ss[..i][1..] == ss[1..][..i - 1];
    }
  }

  /** Every column of every entry stands at its place behind the header, and nothing stands behind the last entry. */
  lemma ImageFieldAt(t: Table, e: nat, i: nat)
    requires Writable(t) && AllShaped(t) && e < |t.entries| && i < |t.keys|
    ensures var f := t.entries[e][i];
            && Encodable(f.typeSize, f.value)
            && FieldStart(t, e, i) + f.typeSize <= |Image(t)|
            && Image(t)[FieldStart(t, e, i)..FieldStart(t, e, i) + f.typeSize] == FieldBytes(f.typeSize, f.value)
  {
    hide FieldBytes, Encodable, EntryBytes, EntryEncodable, Offset, SetField, Header, EntriesBytes, WriteAt, Sum;
    hide EntryStart;
    var fs := t.entries[e];
    AllFitOf(t.entries, e, i);
    OffsetIsSumOf(fs, t.keys, t.typeSizes, i);
    ImageLength(t, e, i);
    PatchIsRewrite(t, e, i, fs[i].value);
    SetSame(t, e, i);
    SplitWrite(Image(t), FieldStart(t, e, i), FieldBytes(fs[i].typeSize, fs[i].value), 0, Image(t));
  }

  lemma ImageSize(t: Table)
    requires Writable(t) && AllShaped(t)
    ensures |Image(t)| == 4 + 34 * |t.keys| + EntryStart(|t.entries|, Sum(t.typeSizes))
  {
    hide EntryBytes, EntryEncodable, Header, EntriesBytes, Shaped, Sum, EntryStart;
    HeaderLength(t);
    forall k | 0 <= k < |t.entries| ensures |EntryBytes(t.entries[k])| == Sum(t.typeSizes) {
      EntryLength(t.entries[k], t.keys, t.typeSizes);
    }
    EntriesSize(t.entries, Sum(t.typeSizes));
  }

  lemma {:induction false} EntriesSize(es: seq<seq<Field>>, size: nat)
    requires AllEncodable(es) && AllOfSize(es, size)
    ensures |EntriesBytes(es)| == EntryStart(|es|, size)
    decreases |es|
  {
    hide EntryBytes, EntryEncodable;
    if es == [] {
    } else {
      EntriesSize(es[1..], size);
      assert EntryStart(|es|, size) == size + EntryStart(|es| - 1, size);
    }
  }

  /** A write byte by byte: the new bytes, the old ones before and behind them, and zeros in a gap. */
  lemma WrittenAt(s: seq<byte>, pos: nat, b: seq<byte>, j: nat)
    ensures var w := WriteAt(s, pos, b);
            && |w| == (if b == [] || pos + |b| < |s| then |s| else pos + |b|)
            && (j < |w| ==> w[j] == if pos <= j < pos + |b| then b[j - pos] else if j < |s| then s[j] else 0)
  {
  }

  /** The list positions: an index from 0 on stands for itself, and one below 0 counts from the end. */
  lemma PyIndexIff(n: int, len: nat, e: nat)
    ensures PyIndex(n, len) == Some(e) <==> e < len && (n == e || n == e - len)
  {
  }

  // ---------------------------------------------------------------- checked updates

  /** The value types `updateValue` and `addEntry` accept for a column; a truth value also counts as a number. */
  predicate Accepts(ts: nat, v: Value)
  {
    if ts == 1 then v.Bool? else if IsNumberSize(ts) then !v.Text? else v.Text?
  }

  /** `updateValue`: the updated table, or nothing when it raises. */
  function UpdateChecked(t: Table, n: int, key: seq<byte>, v: Value): Option<Table>
  {
    match PyIndex(n, |t.entries|)
    case None => None
    case Some(e) =>
      var i := FindField(t.entries[e], key);
      if i < |t.entries[e]| && Accepts(t.entries[e][i].typeSize, v) then Some(SetEntry(t, e, i, v)) else None
  }

  /**
    Exactly when the checked update goes through, and what it does: the index is in the list, some column has the key,
    and the first such column takes a truth value in one byte, a number or truth value in two to four, and a text in
    any other width; that column of that entry is replaced and nothing else.
   */
  lemma UpdateCheckedIff(t: Table, n: int, key: seq<byte>, v: Value, u: Table)
    ensures UpdateChecked(t, n, key, v) == Some(u) <==>
              exists e: nat, i: nat :: Updates(t, n, key, v, u, e, i)
  {
    if exists e: nat, i: nat :: Updates(t, n, key, v, u, e, i) {
      var e: nat, i: nat :| Updates(t, n, key, v, u, e, i);
      assert FindField(t.entries[e], key) == i;
      PyIndexIff(n, |t.entries|, e);
      assert u.entries == t.entries[e := u.entries[e]];
      assert u.entries[e] == SetField(t.entries[e], i, v);
      assert UpdateChecked(t, n, key, v) == Some(u);
    }
    if UpdateChecked(t, n, key, v) == Some(u) {
      var e := PyIndex(n, |t.entries|).value;
      PyIndexIff(n, |t.entries|, e);
      assert Updates(t, n, key, v, u, e, FindField(t.entries[e], key));
    }
  }

  /** `u` is `t` with `v` in column `i` of entry `e`, which index `n` and the key name and whose width takes `v`. */
  predicate Updates(t: Table, n: int, key: seq<byte>, v: Value, u: Table, e: nat, i: nat)
  {
    && e < |t.entries| && (n == e || n == e - |t.entries|)
    && i < |t.entries[e]| && t.entries[e][i].key == key && (forall j :: 0 <= j < i ==> t.entries[e][j].key != key)
    && (match t.entries[e][i].typeSize
        case 1 => v.Bool?
        case 2 | 3 | 4 => v.Int? || v.Bool?
        case _ => v.Text?)
    && u.keys == t.keys && u.typeSizes == t.typeSizes && |u.entries| == |t.entries|
    && (forall k :: 0 <= k < |t.entries| && k != e ==> u.entries[k] == t.entries[k])
    && |u.entries[e]| == |t.entries[e]|
    && (forall j :: 0 <= j < |t.entries[e]| && j != i ==> u.entries[e][j] == t.entries[e][j])
    && u.entries[e][i] == Field(key, t.entries[e][i].typeSize, v)
  }

  /**
    The two ways to update an entry agree: when the checked update goes through for an index from 0 on, rewriting
    the whole file and patching the image in place succeed together and leave the same table and the same bytes.
   */
  lemma FastMatchesChecked(t: Table, n: int, key: seq<byte>, v: Value)
    requires Writable(t) && AllShaped(t) && 0 <= n && UpdateChecked(t, n, key, v).Some?
    ensures var u := UpdateChecked(t, n, key, v).value;
            var r := UpdateFast(t, Some(Image(t)), n, key, v);
            && AllShaped(u) && r.table == u && r.ok == Writable(u)
            && (Writable(u) ==> r.disk == Some(Image(u)))
  {
    hide Image, Writable, Accepts, UpdateFast;
    FastIsRewrite(t, n, key, v);
  }

  /** `addEntry`'s comparison with the schema, column by column. */
  predicate Admissible(entry: seq<Field>, keys: seq<seq<byte>>, typeSizes: seq<nat>)
  {
    && keys != [] && |entry| == (if |keys| < |typeSizes| then |keys| else |typeSizes|)
    && forall i :: 0 <= i < |entry| ==>
         entry[i].key == keys[i] && entry[i].typeSize == typeSizes[i] && Accepts(typeSizes[i], entry[i].value)
  }

  /** Adding an accepted entry keeps the table in the shape of its schema, so that fast patches stay correct. */
  lemma AdmissibleKeepsShape(t: Table, entry: seq<Field>)
    requires AllShaped(t) && t.keys != []
    requires forall i :: 0 <= i < |entry| ==> Accepts(entry[i].typeSize, entry[i].value)
    ensures Admissible(entry, t.keys, t.typeSizes) <==> AllShaped(t.(entries := t.entries + [entry]))
  {
    var u := t.(entries := t.entries + [entry]);
    assert u.entries[|t.entries|] == entry;
    if Admissible(entry, t.keys, t.typeSizes) {
      forall k | 0 <= k < |u.entries| ensures Shaped(u.entries[k], u.keys, u.typeSizes) {
        if k < |t.entries| {
          assert u.entries[k] == t.entries[k];
        }
      }
    }
  }

  // ---------------------------------------------------------------- deleting entries

  /** Deleting entries one by one, the given indices in the given order. */
  function DeleteAll<T>(es: seq<T>, indices: seq<nat>): seq<T>
    requires Descending(indices) && (indices != [] ==> indices[0] < |es|)
    decreases |indices|
  {
    if indices == [] then es
    else DeleteAll(es[..indices[0]] + es[indices[0] + 1..], indices[1..])
  }

  predicate Descending(indices: seq<int>)
  {
    forall i, j :: 0 <= i < j < |indices| ==> indices[i] > indices[j]
  }

  /** The entries whose original index is not among those to delete, in their order. */
  function Survivors<T>(es: seq<T>, gone: set<nat>): seq<T>
    decreases |es|
  {
    if es == [] then []
    else Survivors(es[..|es| - 1], gone) + if |es| - 1 in gone then [] else [es[|es| - 1]]
  }

  lemma {:induction false} SurvivorsSplit<T>(a: seq<T>, b: seq<T>, gone: set<nat>)
    requires forall g :: g in gone ==> g < |a|
    ensures Survivors(a + b, gone) == Survivors(a, gone) + b
    decreases |b|
  {
    if b == [] {
      assert a + b == a;
    } else {
      var init, last := b[..|b| - 1], b[|b| - 1];
      assert (a + b)[..|a + b| - 1] == a + init;
      SurvivorsSplit(a, init, gone);
      assert init + [last] == b;
    }
  }

  /** Deleting from the highest index down removes exactly the entries asked for and keeps the others in order. */
  lemma {:induction false} DeleteAllKeepsSurvivors<T>(es: seq<T>, indices: seq<nat>)
    requires Descending(indices) && (indices != [] ==> indices[0] < |es|)
    ensures DeleteAll(es, indices) == Survivors(es, set i | i in indices)
    decreases |indices|
  {
    hide Survivors;
    var gone := set i | i in indices;
    if indices == [] {
      EmptySurvives<T>({});
      SurvivorsSplit([], es, {});
      assert [] + es == es && gone == {};
    } else {
      var k, lower := indices[0], set i | i in indices[1..];
      var front, back := es[..k], es[k + 1..];
      DeleteAllKeepsSurvivors(front + back, indices[1..]);
      SurvivorsSplit(front, back, lower);
      assert gone == lower + {k};
      assert es == es[..k + 1] + back;
      SurvivorsSplit(es[..k + 1], back, gone);
      assert es[..k + 1][..k] == front;
      LastGone(es[..k + 1], gone);
      SurvivorsAgree(front, gone, lower);
    }
  }

  lemma EmptySurvives<T>(gone: set<nat>)
    ensures Survivors<T>([], gone) == []
  {
  }

  lemma LastGone<T>(es: seq<T>, gone: set<nat>)
    requires es != [] && |es| - 1 in gone
    ensures Survivors(es, gone) == Survivors(es[..|es| - 1], gone)
  {
  }

  lemma {:induction false} SurvivorsAgree<T>(es: seq<T>, g: set<nat>, h: set<nat>)
    requires forall i: nat :: i < |es| ==> (i in g <==> i in h)
    ensures Survivors(es, g) == Survivors(es, h)
    decreases |es|
  {
    if es == [] {
    } else {
      SurvivorsAgree(es[..|es| - 1], g, h);
    }
  }

  /** `sorted(indices, reverse=True)`. */
  function SortDown(s: seq<int>): (r: seq<int>)
    ensures |r| == |s|
  {
    if s == [] then [] else InsertDown(s[0], SortDown(s[1..]))
  }

  function InsertDown(x: int, s: seq<int>): (r: seq<int>)
    ensures |r| == |s| + 1
  {
    if s == [] || x >= s[0] then [x] + s else [s[0]] + InsertDown(x, s[1..])
  }

  predicate NonAscending(s: seq<int>) { forall i, j :: 0 <= i < j < |s| ==> s[i] >= s[j] }

  lemma FirstIsLargest(x: int, s: seq<int>)
    requires NonAscending(s) && (s == [] || x >= s[0])
    ensures NonAscending([x] + s)
  {
    var r := [x] + s;
    forall i, j | 0 <= i < j < |r| ensures r[i] >= r[j] {
      assert r[j] == s[j - 1] <= s[0];
    }
  }

  lemma {:induction false} InsertDownSorts(x: int, s: seq<int>)
    requires NonAscending(s)
    ensures NonAscending(InsertDown(x, s))
    decreases |s|
  {
    if s == [] || x >= s[0] {
      FirstIsLargest(x, s);
    } else {
      InsertDownSorts(x, s[1..]);
      FirstIsLargest(s[0], InsertDown(x, s[1..]));
    }
  }

  lemma {:induction false} InsertDownAdds(x: int, s: seq<int>)
    ensures multiset(InsertDown(x, s)) == multiset(s) + multiset{x}
    decreases |s|
  {
    if s == [] || x >= s[0] {
    } else {
      InsertDownAdds(x, s[1..]);
      assert s == [s[0]] + s[1..];
    }
  }

  lemma {:induction false} SortDownSorts(s: seq<int>)
    ensures NonAscending(SortDown(s)) && multiset(SortDown(s)) == multiset(s)
    decreases |s|
  {
    hide NonAscending, InsertDown;
    if s == [] {
      EmptySorted();
    } else {
      SortDownSorts(s[1..]);
      InsertDownSorts(s[0], SortDown(s[1..]));
      InsertDownAdds(s[0], SortDown(s[1..]));
      assert s == [s[0]] + s[1..];
    }
  }

  lemma EmptySorted()
    ensures NonAscending([])
  {
  }

  datatype Removal<T> = Removal(ok: bool, entries: seq<T>)

  /** `deleteEntry` on each index in turn, up to the first that raises. */
  function RemoveEach<T>(es: seq<T>, indices: seq<int>): (r: Removal<T>)
    decreases |indices|
  {
    if indices == [] then Removal(true, es)
    else match PyIndex(indices[0], |es|)
      case None => Removal(false, es)
      case Some(e) => RemoveEach(es[..e] + es[e + 1..], indices[1..])
  }

  lemma {:induction false} RemoveEachIsDeleteAll<T>(es: seq<T>, indices: seq<int>)
    requires forall i :: 0 <= i < |indices| ==> 0 <= indices[i] < |es|
    requires forall i, j :: 0 <= i < j < |indices| ==> indices[i] > indices[j]
    ensures RemoveEach(es, indices) == Removal(true, DeleteAll(es, indices))
    decreases |indices|
  {
    if indices == [] {
    } else {
      RemoveEachIsDeleteAll(es[..indices[0]] + es[indices[0] + 1..], indices[1..]);
    }
  }

  lemma {:induction false} RemovedCount<T>(es: seq<T>, indices: seq<int>)
    requires RemoveEach(es, indices).ok
    ensures |RemoveEach(es, indices).entries| == |es| - |indices|
    decreases |indices|
  {
    if indices == [] {
    } else {
      var e := PyIndex(indices[0], |es|).value;
      RemovedCount(es[..e] + es[e + 1..], indices[1..]);
    }
  }

  lemma {:induction false} SurvivorsCount<T>(es: seq<T>, gone: set<nat>)
    requires forall g :: g in gone ==> g < |es|
    ensures |Survivors(es, gone)| == |es| - |gone|
    decreases |es|
  {
    if es != [] {
      var init, last: nat := es[..|es| - 1], |es| - 1;
      SurvivorsCount(init, gone - {last});
      SurvivorsAgree(init, gone, gone - {last});
    } else {
      assert gone == {};
    }
  }

  lemma ElementsFirst(s: seq<int>)
    requires s != []
    ensures Elements(s) == Elements(s[1..]) + {s[0]}
    ensures s[0] in Elements(s[1..]) <==> s[0] in s[1..]
    ensures Distinct(s) <==> s[0] !in s[1..] && Distinct(s[1..])
  {
    assert s == [s[0]] + s[1..];
    assert forall j :: 0 <= j < |s[1..]| ==> s[1..][j] == s[j + 1];
    if s[0] !in s[1..] && Distinct(s[1..]) {
      forall i, j | 0 <= i < j < |s| ensures s[i] != s[j] {
        assert s[j] == s[1..][j - 1] && (i > 0 ==> s[i] == s[1..][i - 1]);
      }
    }
  }

  lemma {:induction false} RepeatsShrink(s: seq<int>)
    ensures |Elements(s)| <= |s| && (|Elements(s)| == |s| <==> Distinct(s))
    decreases |s|
  {
    if s == [] {
    } else {
      hide Elements, Distinct;
      ElementsFirst(s);
      RepeatsShrink(s[1..]);
    }
  }

  lemma SameMultisetDistinct(a: seq<int>, b: seq<int>)
    requires multiset(a) == multiset(b)
    ensures Elements(a) == Elements(b) && |a| == |b| && (Distinct(a) <==> Distinct(b))
  {
    hide Distinct;
    forall x ensures x in a <==> x in b {
      assert x in a <==> x in multiset(a);
      assert x in b <==> x in multiset(b);
    }
    assert |multiset(a)| == |a| && |multiset(b)| == |b|;
    RepeatsShrink(a);
    RepeatsShrink(b);
  }

  // ---------------------------------------------------------------- removing by any indices

  /** Every index is accepted by the list it is given for. */
  predicate Acceptable(indices: seq<int>, n: nat)
  {
    forall i :: 0 <= i < |indices| ==> 0 <= n + indices[i] && indices[i] < n
  }

  /** The entry an accepted index stands for. */
  function Target(index: int, n: nat): nat
    requires 0 <= n + index && index < n
  {
    if index < 0 then n + index else index
  }

  function Targets(indices: seq<int>, n: nat): (ts: seq<nat>)
    requires Acceptable(indices, n)
    ensures |ts| == |indices| && forall i :: 0 <= i < |ts| ==> ts[i] == Target(indices[i], n)
  {
    seq(|indices|, i requires 0 <= i < |indices| => Target(indices[i], n))
  }

  /** The entries asked for. */
  function Asked(indices: seq<int>, n: nat): set<nat>
    requires Acceptable(indices, n)
  {
    Elements(Targets(indices, n))
  }

  /** No index twice, and at most one from the end, for an entry behind all the others. */
  predicate Clean(indices: seq<int>, n: nat)
  {
    Distinct(indices) && forall x, y :: x in indices && y in indices && x < 0 && y != x ==> 0 <= y < n + x
  }

  /** Removing by indices from the end, lower and lower, keeps whatever lies behind the first entry removed. */
  lemma {:induction false} TailStays<T>(l: seq<T>, m: seq<int>)
    requires m != [] && m[0] < 0 && Descending(m) && RemoveEach(l, m).ok
    ensures |l| + m[0] >= 0
    ensures forall k :: |l| + m[0] < k < |l| ==> l[k] in RemoveEach(l, m).entries
    decreases |m|
  {
    var e := |l| + m[0];
    var next := l[..e] + l[e + 1..];
    if |m| <= 1 {
    } else {
      TailStays(next, m[1..]);
    }
    forall k | e < k < |l| ensures l[k] in RemoveEach(l, m).entries {
      assert next[k - 1] == l[k];
      assert |m| > 1 ==> |next| + m[1] < k - 1 < |next|;
    }
  }

  lemma {:induction false} RemoveEachSplit<T>(es: seq<T>, a: seq<int>, b: seq<int>)
    requires RemoveEach(es, a).ok
    ensures RemoveEach(es, a + b) == RemoveEach(RemoveEach(es, a).entries, b)
    decreases |a|
  {
    if a == [] {
      assert a + b == b;
    } else {
      var e := PyIndex(a[0], |es|).value;
      assert (a + b)[1..] == a[1..] + b;
      RemoveEachSplit(es[..e] + es[e + 1..], a[1..], b);
    }
  }

  /** The first index that the list does not accept stops the removal there; what went before it stays removed. */
  lemma RefusedStops<T>(es: seq<T>, a: seq<int>, x: int, b: seq<int>)
    requires RemoveEach(es, a).ok
    requires var left := RemoveEach(es, a).entries; x >= |left| || x < -|left|
    ensures RemoveEach(es, a + [x] + b) == Removal(false, RemoveEach(es, a).entries)
  {
    Associate(a, [x], b);
    RemoveEachSplit(es, a, [x] + b);
  }

  function Below(d: set<nat>, t: nat): set<nat> { set x | x in d && x < t }

  /** Where entry `t` stands when the entries of `d` are gone. */
  lemma SurvivorPosition<T>(es: seq<T>, d: set<nat>, t: nat)
    requires t < |es| && t !in d && forall x :: x in d ==> x < |es|
    ensures var q, l := t - |Below(d, t)|, Survivors(es, d);
            0 <= q < |l| && |l| == |es| - |d| && l[q] == es[t]
  {
    var below := Below(d, t);
    SurvivorsCount(es, d);
    SurvivorsCount(es[..t], below);
    SurvivorsAgree(es[..t], d, below);
    assert es[..t + 1][..t] == es[..t];
    SurvivorsPrefix(es, d, t + 1);
  }

  lemma {:induction false} SurvivorsPrefix<T>(es: seq<T>, d: set<nat>, n: nat)
    requires n <= |es|
    ensures Survivors(es[..n], d) <= Survivors(es, d)
    decreases |es|
  {
    if n == |es| {
      assert es[..n] == es;
    } else {
      SurvivorsPrefix(es[..|es| - 1], d, n);
      assert es[..|es| - 1][..n] == es[..n];
    }
  }

  lemma {:induction false} GoneAbsent<T>(es: seq<T>, g: set<nat>, t: nat)
    requires Distinct(es) && t < |es| && t in g
    ensures es[t] !in Survivors(es, g)
    decreases |es|
  {
    var last := |es| - 1;
    assert es == es[..last] + [es[last]];
    DistinctSlice(es, 0, last);
    assert es[0..last] == es[..last];
    SurvivorsMember(es[..last], g);
    if t >= last {
    } else {
      GoneAbsent(es[..last], g, t);
    }
  }

  lemma {:induction false} SurvivorsMember<T>(es: seq<T>, g: set<nat>)
    ensures forall i :: 0 <= i < |Survivors(es, g)| ==> Survivors(es, g)[i] in es
    decreases |es|
  {
    if es == [] {
    } else {
      SurvivorsMember(es[..|es| - 1], g);
      assert es == es[..|es| - 1] + [es[|es| - 1]];
    }
  }

  /** Removing an entry behind all that are gone already. */
  lemma RemoveTop<T>(es: seq<T>, d: set<nat>, t: nat)
    requires t < |es| && forall x :: x in d ==> x < t
    ensures var q, l := t - |d|, Survivors(es, d);
            0 <= q < |l| && |l| == |es| - |d| && l[..q] + l[q + 1..] == Survivors(es, d + {t})
  {
    hide Survivors;
    var front, back := Survivors(es[..t], d), es[t + 1..];
    assert es == es[..t] + es[t..];
    SurvivorsSplit(es[..t], es[t..], d);
    SurvivorsCount(es[..t], d);
    var l := Survivors(es, d);
    assert l == front + es[t..] && l[|front| + 1..] == back;
    assert es == es[..t + 1] + back;
    SurvivorsSplit(es[..t + 1], back, d + {t});
    LastGone(es[..t + 1], d + {t});
    assert es[..t + 1][..t] == es[..t];
    SurvivorsAgree(es[..t], d + {t}, d);
  }

  /** If removing by indices from the end is right, the first one lies behind everything gone before. */
  lemma TopTarget<T>(es: seq<T>, d: set<nat>, m: seq<int>, gone: set<nat>)
    requires Distinct(es) && (forall x :: x in d ==> x < |es|)
    requires m != [] && 0 <= |es| + m[0] && m[0] < 0 && Descending(m)
    requires |es| + m[0] in gone && |es| + m[0] !in d
    requires RemoveEach(Survivors(es, d), m) == Removal(true, Survivors(es, gone))
    ensures forall x :: x in d ==> x < |es| + m[0]
  {
    hide Survivors, RemoveEach;
    var t, l := |es| + m[0], Survivors(es, d);
    SurvivorPosition(es, d, t);
    GoneAbsent(es, gone, t);
    TailStays(l, m);
    var q, below := t - |Below(d, t)|, Below(d, t);
    if y :| y in d && y >= t {
      assert below <= d - {y};
      SubsetSize(below, d - {y});
    }
  }

  lemma {:induction false} SubsetSize(a: set<nat>, b: set<nat>)
    requires a <= b
    ensures |a| <= |b|
    decreases a
  {
    if a == {} {
    } else {
      var x :| x in a;
      SubsetSize(a - {x}, b - {x});
    }
  }

  /** Sorted indices: first those from the front, then those from the end. */
  lemma {:induction false} SplitAtSign(s: seq<int>) returns (j: nat)
    requires NonAscending(s)
    ensures j <= |s| && (forall i :: 0 <= i < j ==> s[i] >= 0) && forall i :: j <= i < |s| ==> s[i] < 0
    decreases |s|
  {
    if s == [] || s[|s| - 1] >= 0 {
      j := |s|;
    } else {
      j := SplitAtSign(s[..|s| - 1]);
    }
  }

  /** What removing the indices from the front leaves. */
  lemma FrontRemoved<T>(es: seq<T>, front: seq<int>, back: seq<int>)
    requires Descending(front) && forall i :: 0 <= i < |front| ==> 0 <= front[i] < |es|
    ensures RemoveEach(es, front + back) == RemoveEach(Survivors(es, Elements(front)), back)
  {
    hide RemoveEach, Survivors, DeleteAll;
    RemoveEachIsDeleteAll(es, front);
    DeleteAllKeepsSurvivors(es, front);
    assert (set i: nat | i in front) == Elements(front);
    RemoveEachSplit(es, front, back);
  }

  lemma RemoveNoneOrOne<T>(l: seq<T>, index: int)
    ensures RemoveEach(l, []) == Removal(true, l)
    ensures index < 0 <= |l| + index ==>
              RemoveEach(l, [index]) == Removal(true, l[..|l| + index] + l[|l| + index + 1..])
  {
    assert [index][1..] == [];
  }

  /** What sorted indices do first: the entries of those from the front are gone, those from the end are left to do. */
  lemma CutSorted<T>(es: seq<T>, down: seq<int>) returns (j: nat, gone: set<nat>)
    requires Acceptable(down, |es|) && Descending(down)
    ensures SignCut(down, j) && IsFront(gone, down, j) && |gone| == j && forall x :: x in gone ==> x < |es|
    ensures RemoveEach(es, down) == RemoveEach(Survivors(es, gone), down[j..])
  {
    hide Survivors, RemoveEach;
    assert NonAscending(down);
    j := SplitAtSign(down);
    gone := Elements(down[..j]);
    assert down == down[..j] + down[j..];
    FrontRemoved(es, down[..j], down[j..]);
    FrontSize(down[..j]);
  }

  /** The first `j` indices count from the front, the others from the end. */
  predicate SignCut(down: seq<int>, j: nat)
  {
    j <= |down| && (forall i :: 0 <= i < j ==> down[i] >= 0) && forall i :: j <= i < |down| ==> down[i] < 0
  }

  predicate IsFront(gone: set<nat>, down: seq<int>, j: nat)
    requires j <= |down|
  {
    gone == Elements(down[..j])
  }

  /** Sorted, clean indices remove what they ask for. */
  lemma CleanRemoves<T>(es: seq<T>, down: seq<int>)
    requires Acceptable(down, |es|) && Descending(down) && Clean(down, |es|)
    ensures RemoveEach(es, down) == Removal(true, Survivors(es, Asked(down, |es|)))
  {
    hide Survivors, Clean, RemoveEach, Asked, Descending, Acceptable, IsFront, SignCut;
    var j, gone := CutSorted(es, down);
    CleanCut(down, |es|, j, gone);
    var l := Survivors(es, gone);
    if j == |down| {
      assert down[j..] == [];
      RemoveNoneOrOne(l, 0);
    } else {
      var t: nat := |es| + down[j];
      assert down[j..] == [down[j]];
      RemoveTop(es, gone, t);
      RemoveNoneOrOne(l, down[j]);
    }
  }

  lemma CleanCut(down: seq<int>, n: nat, j: nat, gone: set<nat>)
    requires Acceptable(down, n) && Clean(down, n) && SignCut(down, j) && IsFront(gone, down, j)
    ensures j <= |down| <= j + 1
    ensures j == |down| ==> gone == Asked(down, n)
    ensures j < |down| ==>
              && 0 <= n + down[j] && down[j] < 0 && (forall x :: x in gone ==> x < n + down[j])
              && gone + {(n + down[j]) as nat} == Asked(down, n)
  {
    hide Clean, Asked;
    CleanBack(down, n, j);
    AskedSplit(down, n, j);
  }

  lemma FrontSize(front: seq<int>)
    requires Descending(front)
    ensures |Elements(front)| == |front|
  {
    RepeatsShrink(front);
  }

  lemma OneFromTheEnd(down: seq<int>, n: nat, i: nat, k: nat)
    requires Clean(down, n) && i < k < |down| && down[i] < 0
    ensures down[k] >= 0
  {
    var x, y := down[i], down[k];
    assert x in down && y in down && x != y;
  }

  lemma CleanBack(down: seq<int>, n: nat, j: nat)
    requires Clean(down, n) && j <= |down| && forall i :: j <= i < |down| ==> down[i] < 0
    ensures |down| <= j + 1 && (j < |down| ==> forall x :: x in Elements(down[..j]) ==> 0 <= x < n + down[j])
  {
    if j + 1 < |down| {
      OneFromTheEnd(down, n, j, j + 1);
    }
    if j < |down| {
      forall x | x in Elements(down[..j]) ensures 0 <= x < n + down[j] {
        var i :| 0 <= i < j && down[i] == x;
        assert down[i] in down && down[j] in down && down[i] != down[j];
      }
    }
  }

  lemma AskedSplit(down: seq<int>, n: nat, j: nat)
    requires Acceptable(down, n) && j <= |down| && |down| <= j + 1
    requires (forall i :: 0 <= i < j ==> down[i] >= 0) && forall i :: j <= i < |down| ==> down[i] < 0
    ensures forall x :: x in Asked(down, n) <==> x in Elements(down[..j]) || (j < |down| && x == n + down[j])
  {
    var ts := Targets(down, n);
    forall x: int ensures x in ts <==> x in down[..j] || (j < |down| && x == n + down[j]) {
      if x in down[..j] {
        var i :| 0 <= i < j && down[i] == x;
        assert ts[i] == x;
      }
      if j < |down| && x == n + down[j] {
        assert ts[j] == x;
      }
    }
  }

  /** When removing asks for as many entries as it removes, no two indices stand for the same entry. */
  lemma RightMeansDistinct<T>(es: seq<T>, down: seq<int>)
    requires Acceptable(down, |es|)
    requires RemoveEach(es, down) == Removal(true, Survivors(es, Asked(down, |es|)))
    ensures Distinct(Targets(down, |es|)) && Distinct(down)
  {
    hide RemoveEach, Survivors;
    var ts := Targets(down, |es|);
    RemovedCount(es, down);
    SurvivorsCount(es, Asked(down, |es|));
    RepeatsShrink(ts);
    assert (set x: int | x in ts) == (set x: nat | x in ts);
    forall i, k | 0 <= i < k < |down| ensures down[i] != down[k] {
      assert ts[i] != ts[k];
    }
  }

  /** A list of indices from the end, lower and lower, each asked for and none gone before. */
  predicate ToDo(back: seq<int>, n: nat, gone: set<nat>, asked: set<nat>)
  {
    && back != [] && Descending(back) && (forall x :: x in gone ==> x < n)
    && forall k :: 0 <= k < |back| ==>
         0 <= n + back[k] && back[k] < 0 && n + back[k] in asked && n + back[k] !in gone
  }

  /** After the first of them, the others remove from what is left without its entry. */
  lemma AfterFirst<T>(es: seq<T>, gone: set<nat>, back: seq<int>, asked: set<nat>)
    requires ToDo(back, |es|, gone, asked) && forall x :: x in gone ==> x < |es| + back[0]
    requires RemoveEach(Survivors(es, gone), back).ok
    ensures RemoveEach(Survivors(es, gone), back)
         == RemoveEach(Survivors(es, gone + {(|es| + back[0]) as nat}), back[1..])
  {
    hide RemoveEach, Survivors, Descending;
    var t: nat := |es| + back[0];
    RemoveTop(es, gone, t);
    BelowSize(gone, t);
    NextRemoved(Survivors(es, gone), back);
  }

  lemma StrictlyLess(back: seq<int>)
    requires Descending(back) && |back| > 1
    ensures back[1] < back[0]
  {
  }

  /** Behind entries gone from the front there is no room for two right indices from the end. */
  lemma OneFromBack<T>(es: seq<T>, gone: set<nat>, back: seq<int>, asked: set<nat>)
    requires Distinct(es) && ToDo(back, |es|, gone, asked)
    requires RemoveEach(Survivors(es, gone), back) == Removal(true, Survivors(es, asked))
    ensures |back| == 1 && forall x :: x in gone ==> x < |es| + back[0]
  {
    hide RemoveEach, Survivors, Distinct, Descending;
    TopTarget(es, gone, back, asked);
    if |back| > 1 {
      var t: nat := |es| + back[0];
      AfterFirst(es, gone, back, asked);
      DescendingSuffix(back, 1);
      StrictlyLess(back);
      TopTarget(es, gone + {t}, back[1..], asked);
    }
  }

  lemma BelowSize(gone: set<nat>, t: nat)
    requires forall x :: x in gone ==> x < t
    ensures |gone| <= t
  {
    SurvivorsCount(seq(t, _ => 0), gone);
  }

  /** Sorted indices that remove what they ask for, of entries that can be told apart, are clean. */
  lemma RightMeansClean<T>(es: seq<T>, down: seq<int>)
    requires Acceptable(down, |es|) && NonAscending(down) && Distinct(es)
    requires RemoveEach(es, down) == Removal(true, Survivors(es, Asked(down, |es|)))
    ensures Clean(down, |es|)
  {
    hide RemoveEach, Survivors, NonAscending, Asked, Clean, Distinct, Acceptable, Descending, IsFront, SignCut;
    hide Targets, ToDo;
    RightMeansDistinct(es, down);
    StrictlyDown(down);
    var j, gone := CutSorted(es, down);
    CutWithin(down, j);
    if j == |down| {
      FrontClean(down, |es|, j);
    } else {
      BackAsked(down, |es|, j, gone);
      OneFromBack(es, gone, down[j..], Asked(down, |es|));
      CleanFromBack(down, |es|, j, gone);
    }
  }

  lemma CutWithin(down: seq<int>, j: nat)
    requires SignCut(down, j)
    ensures j <= |down|
  {
  }

  lemma FrontClean(down: seq<int>, n: nat, j: nat)
    requires SignCut(down, j) && j == |down| && Distinct(down)
    ensures Clean(down, n)
  {
  }

  lemma DescendingSuffix(down: seq<int>, j: nat)
    requires Descending(down) && j <= |down|
    ensures Descending(down[j..])
  {
  }

  lemma BackAsked(down: seq<int>, n: nat, j: nat, gone: set<nat>)
    requires Acceptable(down, n) && Distinct(Targets(down, n)) && SignCut(down, j) && IsFront(gone, down, j)
    requires Descending(down) && j < |down|
    ensures ToDo(down[j..], n, gone, Asked(down, n))
  {
    hide Asked;
    forall k | j <= k < |down| ensures n + down[k] in Asked(down, n) && n + down[k] !in Elements(down[..j]) {
      TargetIsNew(down, n, j, k);
      AskedHas(down, n, k);
    }
  }

  lemma AskedHas(down: seq<int>, n: nat, k: nat)
    requires Acceptable(down, n) && k < |down| && down[k] < 0
    ensures 0 <= n + down[k] && n + down[k] in Asked(down, n)
  {
    assert Targets(down, n)[k] == n + down[k];
  }

  lemma TargetIsNew(down: seq<int>, n: nat, j: nat, k: nat)
    requires Acceptable(down, n) && Distinct(Targets(down, n)) && j <= k < |down|
    requires (forall i :: 0 <= i < j ==> down[i] >= 0) && down[k] < 0
    ensures n + down[k] !in Elements(down[..j])
  {
    var ts := Targets(down, n);
    forall i | 0 <= i < j ensures down[i] != n + down[k] {
      assert ts[i] != ts[k];
    }
  }

  lemma NextRemoved<T>(l: seq<T>, back: seq<int>)
    requires |back| > 0 && back[0] < 0 && RemoveEach(l, back).ok
    ensures var q := |l| + back[0]; 0 <= q && RemoveEach(l, back) == RemoveEach(l[..q] + l[q + 1..], back[1..])
  {
  }

  lemma CleanFromBack(down: seq<int>, n: nat, j: nat, gone: set<nat>)
    requires Distinct(down) && SignCut(down, j) && IsFront(gone, down, j) && j < |down| && |down[j..]| == 1
    requires forall x :: x in gone ==> x < n + down[j..][0]
    ensures Clean(down, n)
  {
    assert down == down[..j] + [down[j]];
    forall x, y | x in down && y in down && x < 0 && y != x ensures 0 <= y < n + x {
      assert x == down[j] && y in Elements(down[..j]);
    }
  }

  lemma CleanSorted(indices: seq<int>, down: seq<int>, n: nat)
    requires multiset(indices) == multiset(down)
    ensures Clean(indices, n) <==> Clean(down, n)
    ensures Acceptable(indices, n) <==> Acceptable(down, n)
    ensures Acceptable(indices, n) ==> Asked(indices, n) == Asked(down, n)
  {
    SameMultisetDistinct(indices, down);
    assert forall x :: x in indices <==> x in Elements(indices);
    assert forall x :: x in down <==> x in Elements(down);
    if Acceptable(indices, n) {
      assert forall i :: 0 <= i < |down| ==> down[i] in indices;
      AskedWithin(indices, down, n);
      AskedWithin(down, indices, n);
    } else if Acceptable(down, n) {
      assert forall i :: 0 <= i < |indices| ==> indices[i] in down;
    }
  }

  lemma AskedWithin(a: seq<int>, b: seq<int>, n: nat)
    requires Acceptable(a, n) && Acceptable(b, n) && forall x :: x in a ==> x in b
    ensures Asked(a, n) <= Asked(b, n)
  {
    forall t | t in Asked(a, n) ensures t in Asked(b, n) {
      var i :| 0 <= i < |a| && Targets(a, n)[i] == t;
      assert a[i] in b;
      var k :| 0 <= k < |b| && b[k] == a[i];
      assert Targets(b, n)[k] == t;
    }
  }

  /**
    Removing many entries: for any indices the list accepts, from the front or from the end, sorting and deleting
    leaves exactly the entries not asked for, in their order, if no index is given twice and at most one counts from
    the end, for an entry behind all the others; and only then, for entries that can be told apart. Indices that all
    count from the front need no such distinction.
   */
  lemma RemoveEntriesIff<T>(es: seq<T>, indices: seq<int>)
    requires Acceptable(indices, |es|)
    ensures var right := RemoveEach(es, SortDown(indices)) == Removal(true, Survivors(es, Asked(indices, |es|)));
            && (Clean(indices, |es|) ==> right)
            && (Distinct(es) || (forall i :: 0 <= i < |indices| ==> indices[i] >= 0) ==>
                  (right ==> Clean(indices, |es|)))
  {
    hide RemoveEach, Survivors, SortDown, NonAscending, Clean, Asked, Distinct;
    var down, n := SortDown(indices), |es|;
    SortDownSorts(indices);
    CleanSorted(indices, down, n);
    if Clean(down, n) {
      CleanStrict(down, n);
      CleanRemoves(es, down);
    } else if RemoveEach(es, down) == Removal(true, Survivors(es, Asked(down, n))) {
      if Distinct(es) {
        RightMeansClean(es, down);
      } else if forall i :: 0 <= i < |indices| ==> indices[i] >= 0 {
        RightMeansDistinct(es, down);
        SameMultisetDistinct(indices, down);
        AllFromFront(indices, n);
      }
    }
  }

  lemma StrictlyDown(s: seq<int>)
    requires NonAscending(s) && Distinct(s)
    ensures Descending(s)
  {
  }

  lemma CleanStrict(down: seq<int>, n: nat)
    requires NonAscending(down) && Clean(down, n)
    ensures Descending(down)
  {
    StrictlyDown(down);
  }

  lemma AllFromFront(indices: seq<int>, n: nat)
    requires Distinct(indices) && forall i :: 0 <= i < |indices| ==> indices[i] >= 0
    ensures Clean(indices, n)
  {
  }

  lemma OneSurvives(x: int)
    ensures Survivors([x], {2, 1}) == [x]
  {
    assert [x][..0] == [];
  }

  /** Two indices from the end: the second counts from the end of the list that the first has shortened. */
  lemma TwoFromTheEnd()
    ensures RemoveEach([10, 11, 12], SortDown([-1, -2])) == Removal(true, [11])
    ensures Survivors([10, 11, 12], {2, 1}) == [10]
  {
    hide RemoveEach, Survivors;
    var es, m := [10, 11, 12], [-1, -2];
    assert m[1..] == [-2] && [-2][1..] == [];
    assert SortDown([-2]) == [-2] && SortDown(m) == m;
    assert es[..2] + es[3..] == [10, 11] && [10, 11][..0] + [10, 11][1..] == [11];
    RemoveNoneOrOne(es, -1);
    RemoveNoneOrOne([10, 11], -2);
    assert m == [-1] + [-2];
    RemoveEachSplit(es, [-1], [-2]);
    assert es[..2] == [10, 11] && [10, 11][..1] == [10];
    LastGone(es, {2, 1});
    LastGone([10, 11], {2, 1});
    OneSurvives(10);
  }

  // ---------------------------------------------------------------- the table object and its file

  class Cdb {
    var keys: seq<seq<byte>>
    var typeSizes: seq<nat>
    var entries: seq<seq<Field>>
    /** The file behind the table, when there is one. */
    var disk: Option<seq<byte>>

    function Contents(): Table
      reads this
    {
      Table(keys, typeSizes, entries)
    }

    constructor (file: seq<byte>)
      ensures Contents() == Table([], [], []) && disk == Some(file)
    {
      keys, typeSizes, entries, disk := [], [], [], Some(file);
    }

    /** Reads the file with a cursor; entries are appended to those already there. */
    method ParseCdb()
      requires disk.Some?
      modifies this
      ensures disk == old(disk)
      ensures var t := Parse(disk.value); Contents() == t.(entries := old(entries) + t.entries)
    {
      hide LeWord, ParseKeys, ParseSizes, ParseEntries, Sum, Skip, Read;
      var f, fileSize := disk.value, |disk.value|;
      var totalKeys := LeWord(Read(f, 4));
      f := Skip(f, 4);
      keys, f := ReadKeys(f, totalKeys);
      var entrySize;
      typeSizes, entrySize, f := ReadSizes(f, totalKeys);
      if entrySize > 0 {
        ReadEntries(f, EntryCount(fileSize, totalKeys, entrySize));
      } else {
        assert entries + [] == entries;
      }
    }

    static method ReadKeys(f0: seq<byte>, totalKeys: nat) returns (ks: seq<seq<byte>>, f: seq<byte>)
      ensures ks == ParseKeys(f0, totalKeys) && f == Skip(f0, KEY_BYTES * totalKeys)
    {
      hide StripZeros, Read, Skip;
      ks, f := [], f0;
      SkipNone(f0);
      while |ks| < totalKeys
        invariant |ks| <= totalKeys
        invariant f == Skip(f0, KEY_BYTES * |ks|)
        invariant ks + ParseKeys(f, totalKeys - |ks|) == ParseKeys(f0, totalKeys)
      {
        SkipTwice(f0, KEY_BYTES * |ks|, KEY_BYTES);
        var key := StripZeros(Read(f, KEY_BYTES));
        Associate(ks, [key], ParseKeys(Skip(f, KEY_BYTES), totalKeys - |ks| - 1));
        ks := ks + [key];
        f := Skip(f, KEY_BYTES);
      }
      assert ks + [] == ks;
    }

    static method ReadSizes(f0: seq<byte>, totalKeys: nat) returns (ss: seq<nat>, entrySize: nat, f: seq<byte>)
      ensures ss == ParseSizes(f0, totalKeys) && f == Skip(f0, 4 * totalKeys) && entrySize == Sum(ss)
    {
      hide LeWord, Read, Skip;
      ss, entrySize, f := [], 0, f0;
      SkipNone(f0);
      while |ss| < totalKeys
        invariant |ss| <= totalKeys
        invariant f == Skip(f0, 4 * |ss|)
        invariant ss + ParseSizes(f, totalKeys - |ss|) == ParseSizes(f0, totalKeys)
        invariant entrySize == Sum(ss)
      {
        SkipTwice(f0, 4 * |ss|, 4);
        var size := LeWord(Read(f, 4));
        SumAppend(ss, size);
        Associate(ss, [size], ParseSizes(Skip(f, 4), totalKeys - |ss| - 1));
        ss, entrySize := ss + [size], entrySize + size;
        f := Skip(f, 4);
      }
      assert ss + [] == ss;
    }

    method ReadEntries(f0: seq<byte>, numEntries: nat)
      requires |keys| == |typeSizes|
      modifies this`entries
      ensures entries == old(entries) + ParseEntries(f0, keys, typeSizes, numEntries)
    {
      hide ParseEntry;
      var f, k := f0, 0;
      while k < numEntries
        invariant 0 <= k <= numEntries
        invariant entries + ParseEntries(f, keys, typeSizes, numEntries - k)
               == old(entries) + ParseEntries(f0, keys, typeSizes, numEntries)
      {
        var fields, rest := ReadEntry(f);
        Associate(entries, [fields], ParseEntries(rest, keys, typeSizes, numEntries - k - 1));
        entries := entries + [fields];
        f := rest;
        k := k + 1;
      }
      assert entries + [] == entries;
    }

    method ReadEntry(f0: seq<byte>) returns (fields: seq<Field>, f: seq<byte>)
      requires |keys| == |typeSizes|
      ensures fields == ParseEntry(f0, keys, typeSizes) && f == Skip(f0, Sum(typeSizes))
    {
      hide DecodeValue, Read, Skip, ParseEntry, Sum;
      fields, f := [], f0;
      var i := 0;
      assert keys[0..] == keys && typeSizes[0..] == typeSizes && fields + ParseEntry(f0, keys, typeSizes)
          == ParseEntry(f0, keys, typeSizes);
      while i < |typeSizes|
        invariant 0 <= i <= |typeSizes|
        invariant fields + ParseEntry(f, keys[i..], typeSizes[i..]) == ParseEntry(f0, keys, typeSizes)
        invariant Skip(f, Sum(typeSizes[i..])) == Skip(f0, Sum(typeSizes))
      {
        var size := typeSizes[i];
        ParseEntryTurn(f, keys[i..], typeSizes[i..]);
        assert keys[i..][1..] == keys[i + 1..] && typeSizes[i..][1..] == typeSizes[i + 1..];
        var raw := Read(f, size);
        var field := Field(keys[i], size, DecodeValue(raw, size));
        Associate(fields, [field], ParseEntry(Skip(f, size), keys[i + 1..], typeSizes[i + 1..]));
        fields := fields + [field];
        f := Skip(f, size);
        i := i + 1;
      }
      ParseEntryEnd(f, keys[i..], typeSizes[i..]);
      assert fields + [] == fields;
    }

    /** Sets the value in memory, then patches its bytes in the file. */
    method UpdateEntryFast(entryNumber: int, entryKey: seq<byte>, newValue: Value) returns (ok: bool)
      modifies this`entries, this`disk
      ensures Fast(ok, Contents(), disk) == UpdateFast(old(Contents()), old(disk), entryNumber, entryKey, newValue)
    {
      hide FieldBytes, Encodable, WriteAt, Offset;
      var index := PyIndex(entryNumber, |entries|);
      if index.None? {
        return false;
      }
      var e := index.value;
      var fields := entries[e];
      var i := FindColumn(fields, entryKey);
      if i == |fields| {
        return false;
      }
      var size := fields[i].typeSize;
      entries := entries[e := fields[i := fields[i].(value := newValue)]];
      var fieldOffset := SizeUpTo(fields, i);
      var entrySize := SizeUpTo(fields, |fields|);
      if disk.None? {
        return false;
      }
      var position := 4 + |keys| * 34 + entryNumber * entrySize + fieldOffset;
      if position < 0 || !Encodable(size, newValue) {
        return false;
      }
      disk := Some(WriteAt(disk.value, position, FieldBytes(size, newValue)));
      return true;
    }

    static method FindColumn(fields: seq<Field>, key: seq<byte>) returns (i: nat)
      ensures i == FindField(fields, key)
    {
      i := 0;
      assert fields[0..] == fields;
      while i < |fields| && fields[i].key != key
        invariant 0 <= i <= |fields|
        invariant FindField(fields, key) == i + FindField(fields[i..], key)
      {
        assert fields[i..][1..] == fields[i + 1..];
        i := i + 1;
      }
    }

    static method SizeUpTo(fields: seq<Field>, n: nat) returns (total: nat)
      requires n <= |fields|
      ensures total == Offset(fields, n)
    {
      total := 0;
      var i := 0;
      assert fields[0..] == fields;
      while i < n
        invariant 0 <= i <= n
        invariant total + Offset(fields[i..], n - i) == Offset(fields, n)
      {
        assert fields[i..][1..] == fields[i + 1..];
        total := total + fields[i].typeSize;
        i := i + 1;
      }
    }

    method UpdateValue(entryIndex: int, key: seq<byte>, newValue: Value) returns (ok: bool)
      modifies this`entries
      ensures var u := UpdateChecked(old(Contents()), entryIndex, key, newValue);
              ok == u.Some? && Contents() == if ok then u.value else old(Contents())
    {
      var index := PyIndex(entryIndex, |entries|);
      if index.None? {
        return false;
      }
      var e := index.value;
      var fields := entries[e];
      var i := FindColumn(fields, key);
      if i == |fields| || !Accepts(fields[i].typeSize, newValue) {
        return false;
      }
      entries := entries[e := fields[i := fields[i].(value := newValue)]];
      return true;
    }

    /** The checked update and then the full rewrite. */
    method UpdateEntry(entryNumber: int, entryKey: seq<byte>, newValue: Value) returns (ok: bool)
      modifies this`entries, this`disk
      ensures var u := UpdateChecked(old(Contents()), entryNumber, entryKey, newValue);
              && Contents() == (if u.Some? then u.value else old(Contents()))
              && ok == (u.Some? && Writable(u.value))
              && (ok ==> disk == Some(Image(u.value))) && (u.None? ==> disk == old(disk))
    {
      hide Image, Writable, UpdateChecked;
      ok := UpdateValue(entryNumber, entryKey, newValue);
      if ok {
        ok := ToCdb();
      }
    }

    method AddEntry(entry: seq<Field>) returns (ok: bool)
      modifies this`entries
      ensures ok == Admissible(entry, keys, typeSizes)
      ensures entries == if ok then old(entries) + [entry] else old(entries)
    {
      if keys == [] || |entry| != (if |keys| < |typeSizes| then |keys| else |typeSizes|) {
        return false;
      }
      var i := 0;
      while i < |entry|
        invariant 0 <= i <= |entry|
        invariant forall k :: 0 <= k < i ==>
                    && entry[k].key == keys[k] && entry[k].typeSize == typeSizes[k]
                    && Accepts(typeSizes[k], entry[k].value)
      {
        if entry[i].key != keys[i] || entry[i].typeSize != typeSizes[i] || !Accepts(entry[i].typeSize, entry[i].value) {
          return false;
        }
        i := i + 1;
      }
      entries := entries + [entry];
      return true;
    }

    method DeleteEntry(entryIndex: int) returns (ok: bool)
      modifies this`entries
      ensures var index := PyIndex(entryIndex, |old(entries)|);
              && ok == index.Some?
              && entries == if ok then old(entries)[..index.value] + old(entries)[index.value + 1..] else old(entries)
    {
      var index := PyIndex(entryIndex, |entries|);
      if index.None? {
        return false;
      }
      entries := entries[..index.value] + entries[index.value + 1..];
      return true;
    }

    /** Deletes from the highest index down, then rewrites the file. */
    method RemoveEntries(indices: seq<int>) returns (ok: bool)
      modifies this`entries, this`disk
      ensures var r := RemoveEach(old(entries), SortDown(indices));
              && entries == r.entries
              && ok == (r.ok && Writable(Contents()))
              && (ok ==> disk == Some(Image(Contents()))) && (!r.ok ==> disk == old(disk))
    {
      hide Image, Writable, SortDown;
      var order := SortDown(indices);
      var k := 0;
      assert order[0..] == order;
      while k < |order|
        invariant 0 <= k <= |order| && disk == old(disk)
        invariant RemoveEach(entries, order[k..]) == RemoveEach(old(entries), order)
      {
        assert order[k..][1..] == order[k + 1..];
        var good := DeleteEntry(order[k]);
        if !good {
          return false;
        }
        k := k + 1;
      }
      ok := ToCdb();
    }

    /** Rewrites the whole file; false when an exception cut the writing short. */
    method ToCdb() returns (ok: bool)
      modifies this`disk
      ensures ok == Writable(Contents())
      ensures ok ==> disk == Some(Image(Contents()))
    {
      hide FieldBytes, Header;
      if keys == [] || typeSizes == [] {
        return false;
      }
      if |keys| >= M32 {
        disk := Some([]);
        return false;
      }
      var f, sized := WriteHeader();
      if !sized {
        disk := Some(f);
        return false;
      }
      var i := 0;
      ghost var done: seq<seq<Field>> := [];
      assert EntriesBytes(done) == [] && f + [] == f;
      while i < |entries|
        invariant 0 <= i <= |entries| && done == entries[..i] && AllEncodable(done)
        invariant f == Header(Contents()) + EntriesBytes(done)
      {
        var b, good := WriteEntry(entries[i]);
        assert entries[i] == Contents().entries[i];
        if !good {
          disk := Some(f + b);
          return false;
        }
        EntriesAppend(done, entries[i]);
        Associate(Header(Contents()), EntriesBytes(done), b);
        f := f + b;
        done := done + [entries[i]];
        i := i + 1;
      }
      assert done == entries;
      disk := Some(f);
      return true;
    }

    /** The header, or as much of it as was written before a size did not fit in four bytes. */
    method WriteHeader() returns (f: seq<byte>, sized: bool)
      requires |keys| < M32
      ensures sized <==> forall k :: 0 <= k < |typeSizes| ==> typeSizes[k] < M32
      ensures sized ==> f == Header(Contents())
    {
      hide LeBytes, PadTo, Pow2;
      f := LeBytes(4, |keys|);
      var i := 0;
      assert keys[0..] == keys && typeSizes[0..] == typeSizes;
      while i < |keys|
        invariant 0 <= i <= |keys|
        invariant f + KeysBytes(keys[i..]) == LeBytes(4, |keys|) + KeysBytes(keys)
      {
        assert keys[i..][1..] == keys[i + 1..];
        Associate(f, PadTo(keys[i], KEY_BYTES), KeysBytes(keys[i + 1..]));
        f := f + PadTo(keys[i], KEY_BYTES);
        i := i + 1;
      }
      assert f + [] == f;
      ghost var g := f;
      i := 0;
      while i < |typeSizes|
        invariant 0 <= i <= |typeSizes|
        invariant f + SizesBytes(typeSizes[i..]) == g + SizesBytes(typeSizes)
        invariant forall k :: 0 <= k < i ==> typeSizes[k] < M32
      {
        if typeSizes[i] >= M32 {
          return f, false;
        }
        assert typeSizes[i..][1..] == typeSizes[i + 1..];
        Associate(f, LeBytes(4, typeSizes[i]), SizesBytes(typeSizes[i + 1..]));
        f := f + LeBytes(4, typeSizes[i]);
        i := i + 1;
      }
      assert f + [] == f;
      return f, true;
    }

    static method WriteEntry(fields: seq<Field>) returns (b: seq<byte>, good: bool)
      ensures good == EntryEncodable(fields)
      ensures good ==> b == EntryBytes(fields)
    {
      hide FieldBytes, Encodable;
      b := [];
      var i := 0;
      assert fields[0..] == fields;
      while i < |fields|
        invariant 0 <= i <= |fields|
        invariant forall k :: 0 <= k < i ==> Encodable(fields[k].typeSize, fields[k].value)
        invariant EntryEncodable(fields) ==>
                    EntryEncodable(fields[i..]) && b + EntryBytes(fields[i..]) == EntryBytes(fields)
      {
        if !Encodable(fields[i].typeSize, fields[i].value) {
          return b, false;
        }
        assert fields[i..][1..] == fields[i + 1..];
        b := b + FieldBytes(fields[i].typeSize, fields[i].value);
        i := i + 1;
      }
      assert b + [] == b;
      return b, true;
    }
  }

  lemma ParseEntryTurn(f: seq<byte>, ks: seq<seq<byte>>, ss: seq<nat>)
    requires |ks| == |ss| && ss != []
    ensures ParseEntry(f, ks, ss)
         == [Field(ks[0], ss[0], DecodeValue(Read(f, ss[0]), ss[0]))] + ParseEntry(Skip(f, ss[0]), ks[1..], ss[1..])
    ensures Skip(f, Sum(ss)) == Skip(Skip(f, ss[0]), Sum(ss[1..]))
  {
    hide DecodeValue, Read;
    SkipTwice(f, ss[0], Sum(ss[1..]));
  }

  lemma ParseEntryEnd(f: seq<byte>, ks: seq<seq<byte>>, ss: seq<nat>)
    requires ks == [] && ss == []
    ensures ParseEntry(f, ks, ss) == [] && Skip(f, Sum(ss)) == f
  {
  }

  lemma {:induction false} SumAppend(ss: seq<nat>, x: nat)
    ensures Sum(ss + [x]) == Sum(ss) + x
    decreases |ss|
  {
    if ss == [] {
      assert ([] + [x])[1..] == [];
    } else {
      assert (ss + [x])[1..] == ss[1..] + [x];
      SumAppend(ss[1..], x);
    }
  }

  lemma {:induction false} EntriesAppend(es: seq<seq<Field>>, e: seq<Field>)
    requires AllEncodable(es) && EntryEncodable(e)
    ensures AllEncodable(es + [e]) && EntriesBytes(es + [e]) == EntriesBytes(es) + EntryBytes(e)
    decreases |es|
  {
    hide EntryBytes, EntryEncodable;
    if es == [] {
      assert ([] + [e])[1..] == [];
      assert EntryBytes(e) + [] == EntryBytes(e) && [] + EntryBytes(e) == EntryBytes(e);
    } else {
      assert (es + [e])[1..] == es[1..] + [e];
      EntriesAppend(es[1..], e);
      Associate(EntryBytes(es[0]), EntriesBytes(es[1..]), EntryBytes(e));
    }
  }
}
