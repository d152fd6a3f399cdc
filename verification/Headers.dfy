/**
  The two 32-bit packet headers: TcpHeader (4/14/11/3 bits) and CommandHeader (4/2/10/8/8 bits).

  Bit fields occupy disjoint positions, so `a | (b << n)` is written as `a + b * 2^n`, and `& mask` as `% 2^n`.
 */
module Headers {
  import opened Words

  datatype TcpHeader = TcpHeader(bogus: nat, sessionId: nat, size: nat, crypt: nat) {
    predicate Valid() { bogus < 16 && sessionId < 0x4000 && size < 0x800 && crypt < 8 }

    function SetBogus(p: nat): TcpHeader { this.(bogus := p % 16) }
    function SetSessionId(s: nat): TcpHeader { this.(sessionId := s % 0x4000) }
    function SetSize(s: nat): TcpHeader { this.(size := s % 0x800) }
    function SetCrypt(c: nat): TcpHeader { this.(crypt := c % 8) }

    function Initialize(session: nat, c: nat, s: nat): (h: TcpHeader)
      ensures h.Valid()
    {
      SetBogus(0).SetSessionId(session).SetCrypt(c).SetSize(s)
    }

    function GetData(): (d: u32)
      requires Valid()
    {
      bogus + sessionId * 0x10 + size * 0x4_0000 + crypt * 0x2000_0000
    }
  }

  function TcpHeaderFrom(d: u32): (h: TcpHeader)
    ensures h.Valid()
  {
    TcpHeader(d % 0x10, (d / 0x10) % 0x4000, (d / 0x4_0000) % 0x800, (d / 0x2000_0000) % 8)
  }

  /** A field of `n` values above `low < m` is read back by shifting right and masking. */
  lemma FieldBack(d: nat, low: nat, field: nat, m: nat, n: nat, high: nat)
    requires low < m && field < n && d == low + (field + high * n) * m
    ensures (d / m) % n == field
  {
    ModOf(low, field + high * n, m);
    ModOf(field, high, n);
  }

  /** Shifting by two fields at once is shifting by one after the other. */
  lemma Regroup(d: nat, m: nat, n: nat, mn: nat)
    requires m > 0 && n > 0 && mn == m * n
    ensures d / m == (d / m) % n + n * (d / mn)
  {
    DivideTwice(d, m, n);
    QuotientAndRest(d / m, n);
  }

  lemma QuotientAndRest(x: nat, n: nat)
    requires n > 0
    ensures x == x % n + n * (x / n)
  {
  }

  lemma TcpFieldsBack(h: TcpHeader)
    requires h.Valid()
    ensures TcpHeaderFrom(h.GetData()) == h
  {
    var d := h.GetData();
    FieldBack(d, 0, h.bogus, 1, 0x10, h.sessionId + h.size * 0x4000 + h.crypt * 0x200_0000);
    FieldBack(d, h.bogus, h.sessionId, 0x10, 0x4000, h.size + h.crypt * 0x800);
    FieldBack(d, h.bogus + h.sessionId * 0x10, h.size, 0x4_0000, 0x800, h.crypt);
    FieldBack(d, h.bogus + h.sessionId * 0x10 + h.size * 0x4_0000, h.crypt, 0x2000_0000, 8, 0);
  }

  lemma TcpWordBack(d: u32)
    ensures TcpHeaderFrom(d).GetData() == d
  {
    Regroup(d, 1, 0x10, 0x10);
    Regroup(d, 0x10, 0x4000, 0x4_0000);
    Regroup(d, 0x4_0000, 0x800, 0x2000_0000);
    Regroup(d, 0x2000_0000, 8, 0x1_0000_0000);
  }

  /** The header word and the header fields determine each other: no field leaks into another. */
  lemma TcpHeaderRoundTrip(h: TcpHeader, d: u32)
    requires h.Valid()
    ensures TcpHeaderFrom(h.GetData()) == h
    ensures TcpHeaderFrom(d).GetData() == d
  {
    hide *;
    TcpFieldsBack(h);
    TcpWordBack(d);
  }

  datatype CommandHeader = CommandHeader(bogus: nat, mission: nat, order: nat, extra: nat, option: nat) {
    predicate Valid() { bogus < 16 && mission < 4 && order < 0x400 && extra < 0x100 && option < 0x100 }

    function SetBogus(p: nat): CommandHeader { this.(bogus := p % 16) }
    function SetMission(m: nat): CommandHeader { this.(mission := m % 4) }
    function SetOrder(o: nat): CommandHeader { this.(order := o % 0x400) }
    function SetExtra(e: nat): CommandHeader { this.(extra := e % 0x100) }
    function SetOption(o: nat): CommandHeader { this.(option := o % 0x100) }

    function GetData(): (d: u32)
      requires Valid()
    {
      bogus + mission * 0x10 + order * 0x40 + extra * 0x1_0000 + option * 0x100_0000
    }
  }

  const ZERO_TCP := TcpHeader(0, 0, 0, 0)
  const ZERO_COMMAND := CommandHeader(0, 0, 0, 0, 0)

  /** The constructor with separate fields; `bogus` defaults to 0. */
  function NewCommand(mission: nat, order: nat, extra: nat, option: nat): (c: CommandHeader)
    ensures c.Valid()
  {
    ZERO_COMMAND.SetBogus(0).SetMission(mission).SetOrder(order).SetExtra(extra).SetOption(option)
  }

  function CommandHeaderFrom(d: u32): (c: CommandHeader)
    ensures c.Valid()
  {
    CommandHeader(d % 0x10, (d / 0x10) % 4, (d / 0x40) % 0x400, (d / 0x1_0000) % 0x100, (d / 0x100_0000) % 0x100)
  }

  lemma CommandFieldsBack(c: CommandHeader)
    requires c.Valid()
    ensures CommandHeaderFrom(c.GetData()) == c
  {
    var d := c.GetData();
    FieldBack(d, 0, c.bogus, 1, 0x10, c.mission + c.order * 4 + c.extra * 0x1000 + c.option * 0x10_0000);
    FieldBack(d, c.bogus, c.mission, 0x10, 4, c.order + c.extra * 0x400 + c.option * 0x4_0000);
    FieldBack(d, c.bogus + c.mission * 0x10, c.order, 0x40, 0x400, c.extra + c.option * 0x100);
    FieldBack(d, c.bogus + c.mission * 0x10 + c.order * 0x40, c.extra, 0x1_0000, 0x100, c.option);
    FieldBack(d, c.bogus + c.mission * 0x10 + c.order * 0x40 + c.extra * 0x1_0000, c.option, 0x100_0000, 0x100, 0);
  }

  lemma CommandWordBack(d: u32)
    ensures CommandHeaderFrom(d).GetData() == d
  {
    Regroup(d, 1, 0x10, 0x10);
    Regroup(d, 0x10, 4, 0x40);
    Regroup(d, 0x40, 0x400, 0x1_0000);
    Regroup(d, 0x1_0000, 0x100, 0x100_0000);
    Regroup(d, 0x100_0000, 0x100, 0x1_0000_0000);
  }

  lemma CommandHeaderRoundTrip(c: CommandHeader, d: u32)
    requires c.Valid()
    ensures CommandHeaderFrom(c.GetData()) == c
    ensures CommandHeaderFrom(d).GetData() == d
  {
    hide *;
    CommandFieldsBack(c);
    CommandWordBack(d);
  }

  // ---------------------------------------------------------------- headers as memory

  function TcpBytes(h: TcpHeader): (b: seq<byte>)
    requires h.Valid()
    ensures |b| == 4
  {
    LeBytes(4, h.GetData())
  }

  function TcpOf(b: seq<byte>): (h: TcpHeader)
    requires |b| == 4
    ensures h.Valid()
  {
    Pow2Widths();
    TcpHeaderFrom(LeWord(b))
  }

  function CommandBytes(c: CommandHeader): (b: seq<byte>)
    requires c.Valid()
    ensures |b| == 4
  {
    LeBytes(4, c.GetData())
  }

  function CommandOf(b: seq<byte>): (c: CommandHeader)
    requires |b| == 4
    ensures c.Valid()
  {
    Pow2Widths();
    CommandHeaderFrom(LeWord(b))
  }

  /**
    The eight header bytes one by one: where the bits of each field stand. The session id begins in the upper half of
    byte 0, the size in bit 2 of byte 2, the type in bit 5 of byte 3, the order in bit 6 of byte 4.
   */
  lemma TcpLayout(h: TcpHeader)
    requires h.Valid()
    ensures TcpBytes(h) == [h.bogus + 0x10 * (h.sessionId % 0x10), h.sessionId / 0x10 % 0x100,
                            h.sessionId / 0x1000 + 4 * (h.size % 0x40), h.size / 0x40 + 0x20 * h.crypt]
  {
    hide LeBytes, LeWord;
    SplitThree(h.sessionId, h.size);
    FourBytes(h.bogus + 0x10 * (h.sessionId % 0x10), h.sessionId / 0x10 % 0x100,
              h.sessionId / 0x1000 + 4 * (h.size % 0x40), h.size / 0x40 + 0x20 * h.crypt);
  }

  lemma SplitThree(s: nat, n: nat)
    ensures s == s % 0x10 + 0x10 * (s / 0x10 % 0x100) + 0x1000 * (s / 0x1000) && n == n % 0x40 + 0x40 * (n / 0x40)
  {
  }

  lemma CommandLayout(c: CommandHeader)
    requires c.Valid()
    ensures CommandBytes(c) == [c.bogus + 0x10 * c.mission + 0x40 * (c.order % 4), c.order / 4, c.extra, c.option]
  {
    hide LeBytes, LeWord;
    FourBytes(c.bogus + 0x10 * c.mission + 0x40 * (c.order % 4), c.order / 4, c.extra, c.option);
  }

  lemma HeaderBytesRoundTrip(h: TcpHeader, c: CommandHeader)
    requires h.Valid() && c.Valid()
    ensures TcpOf(TcpBytes(h)) == h
    ensures CommandOf(CommandBytes(c)) == c
  {
    hide Pow2, LeBytes, LeWord;
    Pow2Widths();
    WordOfBytes(4, h.GetData());
    WordOfBytes(4, c.GetData());
    TcpHeaderRoundTrip(h, 0);
    CommandHeaderRoundTrip(c, 0);
  }
}
