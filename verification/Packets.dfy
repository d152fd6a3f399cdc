/**
  Packets: a TCP header, a command header and data. `generateOutgoingPacket` lays them out and encrypts them,
  `processIncomingPacket` decrypts a frame and takes it apart again.
 */
module Packets {
  import opened Words
  import opened Cipher
  import opened Headers
  import C = Crypt

  const HEADER := 4
  const COMMAND := 4

  const NO_ENCRYPTION := 0
  const DEFAULT_ENCRYPTION := 1
  const USER_ENCRYPTION := 2
  const DEFAULT_LARGE_ENCRYPTION := 3
  const USER_LARGE_ENCRYPTION := 4

  /** What a packet holds. */
  datatype Message = Message(header: TcpHeader, command: CommandHeader, data: seq<byte>) {
    predicate Valid() { header.Valid() && command.Valid() }

    /** The header announces the true size, as `setData` and `setTcpHeader` leave it for up to 2039 data bytes. */
    predicate Sized() { Valid() && header.size == HEADER + COMMAND + |data| }

    /** Types above 4 are sent in the clear and dropped by the receiver. */
    predicate Readable() { header.crypt <= USER_LARGE_ENCRYPTION }

    function Body(): (b: seq<byte>)
      requires Valid()
      ensures |b| == COMMAND + |data|
    {
      CommandBytes(command) + data
    }
  }

  const EMPTY_MESSAGE := Message(ZERO_TCP, ZERO_COMMAND, [])

  /** The first four bytes on the wire; encrypted with key 0 when the session uses its cipher. */
  function WireHeader(d: Direction, used: bool, h: seq<byte>): (r: seq<byte>)
    requires |h| == HEADER
    ensures |r| == HEADER
  {
    if used then Cascade(d, Rc5Half, C.KeysFor(0), h) else h
  }

  /** The body under encryption type `crypt`, with `key` as the user key. */
  function WireBody(d: Direction, crypt: nat, key: u32, b: seq<byte>): (r: seq<byte>)
    ensures |r| == |b|
  {
    if crypt == DEFAULT_ENCRYPTION then Cascade(d, Rc5Full, C.KeysFor(0), b)
    else if crypt == DEFAULT_LARGE_ENCRYPTION then Cascade(d, Rc6, C.KeysFor(0), b)
    else if crypt == USER_ENCRYPTION then Cascade(d, Rc5Full, C.KeysFor(key), b)
    else if crypt == USER_LARGE_ENCRYPTION then Cascade(d, Rc6, C.KeysFor(key), b)
    else b
  }

  lemma WireCancels(used: bool, crypt: nat, key: u32, h: seq<byte>, b: seq<byte>)
    requires |h| == HEADER
    ensures WireHeader(Decrypt, used, WireHeader(Encrypt, used, h)) == h
    ensures WireBody(Decrypt, crypt, key, WireBody(Encrypt, crypt, key, b)) == b
  {
    hide Cascade, C.KeysFor;
    CascadeCancels(Encrypt, Rc5Half, C.KeysFor(0), h);
    CascadeCancels(Encrypt, Rc5Full, C.KeysFor(0), b);
    CascadeCancels(Encrypt, Rc6, C.KeysFor(0), b);
    CascadeCancels(Encrypt, Rc5Full, C.KeysFor(key), b);
    CascadeCancels(Encrypt, Rc6, C.KeysFor(key), b);
  }

  /** The bytes of a packet on an encrypted connection. */
  function Wire(m: Message, key: u32, used: bool): (w: seq<byte>)
    requires m.Valid()
    ensures |w| == HEADER + COMMAND + |m.data|
  {
    WireHeader(Encrypt, used, TcpBytes(m.header)) + WireBody(Encrypt, m.header.crypt, key, m.Body())
  }

  /** The bytes of a packet on an unencrypted connection. */
  function PlainWire(m: Message): (w: seq<byte>)
    requires m.Valid()
    ensures |w| == HEADER + COMMAND + |m.data|
  {
    TcpBytes(m.header) + m.Body()
  }

  /** The size a frame announces in its header. */
  function Announced(used: bool, frame: seq<byte>): (n: nat)
    requires |frame| >= HEADER
    ensures n < 2048
  {
    TcpOf(WireHeader(Decrypt, used, frame[..HEADER])).size
  }

  /**
    Frames `processIncomingPacket` reads within bounds: too short to hold a header, a bare header, or a header
    and a whole command. With 1 to 3 announced body bytes it would read past its own buffer.
   */
  predicate InBounds(used: bool, frame: seq<byte>)
  {
    |frame| < HEADER ||
    (var n := Announced(used, frame); n == HEADER || HEADER + COMMAND <= n <= |frame|)
  }

  /** What `processIncomingPacket` makes of a frame in a packet that held `before`. */
  function Process(frame: seq<byte>, key: u32, before: Message): (m: Message)
    requires InBounds(true, frame)
  {
    if |frame| < HEADER then before
    else
      var h := TcpOf(WireHeader(Decrypt, true, frame[..HEADER]));
      if h.size == HEADER || h.crypt > USER_LARGE_ENCRYPTION then before.(header := h)
      else
        var b := WireBody(Decrypt, h.crypt, key, frame[HEADER..h.size]);
        Message(h, CommandOf(b[..COMMAND]), b[COMMAND..])
  }

  function ProcessPlain(frame: seq<byte>, before: Message): (m: Message)
    requires InBounds(false, frame)
  {
    if |frame| < HEADER then before
    else
      var h := TcpOf(frame[..HEADER]);
      if h.size == HEADER || h.size - HEADER > 1450 then before.(header := h)
      else
        Message(h, CommandOf(frame[HEADER..HEADER + COMMAND]), frame[HEADER + COMMAND..h.size])
  }

  // ---------------------------------------------------------------- one packet there and back

  lemma WireShape(m: Message, key: u32, used: bool)
    requires m.Sized()
    ensures var w := Wire(m, key, used);
            && Announced(used, w) == |w|
            && WireHeader(Decrypt, used, w[..HEADER]) == TcpBytes(m.header)
            && w[HEADER..] == WireBody(Encrypt, m.header.crypt, key, m.Body())
            && InBounds(used, w)
  {
    hide WireHeader, WireBody, TcpBytes, TcpOf, CommandBytes, CommandOf;
    var w := Wire(m, key, used);
    assert w[..HEADER] == WireHeader(Encrypt, used, TcpBytes(m.header));
    WireCancels(used, m.header.crypt, key, TcpBytes(m.header), m.Body());
    HeaderBytesRoundTrip(m.header, m.command);
  }

  /**
    A packet sent with one user key and read with another arrives as sent, or, when its type is above 4, as a
    bare header. The keys have to agree only for the two user-key types.
   */
  lemma Delivered(m: Message, key: u32, key': u32, before: Message)
    requires m.Sized()
    requires key == key' || m.header.crypt !in {USER_ENCRYPTION, USER_LARGE_ENCRYPTION}
    ensures InBounds(true, Wire(m, key, true))
    ensures Process(Wire(m, key, true), key', before) == if m.Readable() then m else before.(header := m.header)
  {
    hide WireHeader, Cascade, TcpBytes, TcpOf, CommandBytes, CommandOf, C.KeysFor;
    var w := Wire(m, key, true);
    WireShape(m, key, true);
    HeaderBytesRoundTrip(m.header, m.command);
    WireCancels(true, m.header.crypt, key, TcpBytes(m.header), m.Body());
    assert w[HEADER..|w|] == w[HEADER..];
    assert m.Body()[..COMMAND] == CommandBytes(m.command) && m.Body()[COMMAND..] == m.data;
  }

  /** With a shared key a correctly sized packet is read back exactly when its type is one of the five known ones
      or it carries nothing beyond its header. */
  lemma ReadBackIff(m: Message, key: u32)
    requires m.Sized()
    ensures InBounds(true, Wire(m, key, true))
    ensures Process(Wire(m, key, true), key, EMPTY_MESSAGE) == m
       <==> m.Readable() || (m.command == ZERO_COMMAND && m.data == [])
  {
    Delivered(m, key, key, EMPTY_MESSAGE);
  }

  /** An unencrypted packet arrives as sent, or, when its body is longer than 1450 bytes, as a bare header. */
  lemma PlainDelivered(m: Message, before: Message)
    requires m.Sized()
    ensures InBounds(false, PlainWire(m)) && Announced(false, PlainWire(m)) == |PlainWire(m)|
    ensures ProcessPlain(PlainWire(m), before) == if |m.data| + COMMAND <= 1450 then m else before.(header := m.header)
  {
    hide TcpBytes, TcpOf, CommandBytes, CommandOf;
    var w := PlainWire(m);
    HeaderBytesRoundTrip(m.header, m.command);
    assert w[..HEADER] == TcpBytes(m.header);
    assert w[HEADER..HEADER + COMMAND] == CommandBytes(m.command) && w[HEADER + COMMAND..|w|] == m.data;
  }

  /** The bytes of an unencrypted packet: where each header field stands, and the data behind the eighth byte. */
  lemma PlainLayout(m: Message)
    requires m.Valid()
    ensures var h, c := m.header, m.command;
            PlainWire(m) == [h.bogus + 0x10 * (h.sessionId % 0x10), h.sessionId / 0x10 % 0x100,
                             h.sessionId / 0x1000 + 4 * (h.size % 0x40), h.size / 0x40 + 0x20 * h.crypt,
                             c.bogus + 0x10 * c.mission + 0x40 * (c.order % 4), c.order / 4, c.extra, c.option]
                            + m.data
  {
    hide TcpBytes, CommandBytes;
    TcpLayout(m.header);
    CommandLayout(m.command);
  }

  /** Which cipher and which key each encryption type stands for, seen in the first block of a body. */
  lemma TypeIsCipher(crypt: nat, key: u32, b: seq<byte>)
    ensures crypt in {1, 2} && |b| >= 8 ==>
              WireBody(Encrypt, crypt, key, b)[..8]
              == Block(Encrypt, Rc5Full, C.KeysFor(if crypt == 1 then 0 else key), b[..8])
    ensures crypt in {3, 4} && |b| >= 16 ==>
              WireBody(Encrypt, crypt, key, b)[..16]
              == Block(Encrypt, Rc6, C.KeysFor(if crypt == 3 then 0 else key), b[..16])
    ensures crypt == 0 || crypt > 4 ==> WireBody(Encrypt, crypt, key, b) == b
  {
    hide Cascade, C.KeysFor, Block;
    var k := C.KeysFor(if crypt in {1, 3} then 0 else key);
    if crypt in {1, 2} && |b| >= 8 {
      CascadeStep(Encrypt, Rc5Full, k, b);
    } else if crypt in {3, 4} && |b| >= 16 {
      CascadeStep(Encrypt, Rc6, k, b);
    }
  }

  /** The header is one RC5 block of two 16-bit words under key 0, or left as it is. */
  lemma HeaderIsBlock(h: seq<byte>)
    requires |h| == HEADER
    ensures WireHeader(Encrypt, true, h) == Block(Encrypt, Rc5Half, C.KeysFor(0), h)
    ensures WireHeader(Encrypt, false, h) == h
  {
    hide Cascade, C.KeysFor, Block;
    CascadeStep(Encrypt, Rc5Half, C.KeysFor(0), h);
    CascadeRest(Encrypt, Rc5Half, C.KeysFor(0), []);
    assert h[..HEADER] == h && h[HEADER..] == [];
    assert Block(Encrypt, Rc5Half, C.KeysFor(0), h) + [] == Block(Encrypt, Rc5Half, C.KeysFor(0), h);
  }

  /**
    What a frame does not change: one too short for a header changes nothing, and one that announces its header alone
    only the header. Bytes behind the announced size are ignored.
   */
  lemma OnlyAnnounced(frame: seq<byte>, more: seq<byte>, key: u32, before: Message)
    requires InBounds(true, frame)
    ensures |frame| < HEADER ==> Process(frame, key, before) == before
    ensures |frame| >= HEADER ==>
              var h := TcpOf(WireHeader(Decrypt, true, frame[..HEADER]));
              && (h.size == 4 ==> Process(frame, key, before) == before.(header := h))
              && (h.size <= |frame| ==>
                    InBounds(true, frame + more) && Process(frame + more, key, before) == Process(frame, key, before))
  {
    hide WireHeader, WireBody, TcpOf, CommandOf;
    if |frame| >= HEADER {
      var n := TcpOf(WireHeader(Decrypt, true, frame[..HEADER])).size;
      assert (frame + more)[..HEADER] == frame[..HEADER];
      if HEADER <= n <= |frame| {
        assert (frame + more)[HEADER..n] == frame[HEADER..n];
      }
    }
  }

  lemma Overwrite(a: seq<byte>, b: seq<byte>, c: seq<byte>)
    requires |a| == |c|
    ensures C.Splice(a + b, 0, c) == c + b
  {
  }

  lemma OverwriteTail(a: seq<byte>, b: seq<byte>, c: seq<byte>)
    requires |b| == |c|
    ensures C.Splice(a + b, |a|, c) == a + c
  {
  }

  // ---------------------------------------------------------------- the packet object

  lemma ThreeParts(s: seq<byte>, a: seq<byte>, b: seq<byte>, c: seq<byte>)
    requires |s| == |a| + |b| + |c|
    ensures C.Splice(C.Splice(C.Splice(s, 0, a), |a|, b), |a| + |b|, c) == a + (b + c)
  {
  }

  class Packet {
    var m_header: TcpHeader
    var m_command: CommandHeader
    var m_data: seq<byte>

    ghost predicate Valid()
      reads this
    {
      m_header.Valid() && m_command.Valid()
    }

    function Value(): Message
      reads this
    {
      Message(m_header, m_command, m_data)
    }

    constructor ()
      ensures Valid() && Value() == EMPTY_MESSAGE
    {
      m_header, m_command, m_data := ZERO_TCP, ZERO_COMMAND, [];
    }

    method SetCommand(order: nat, mission: nat, extra: nat, option: nat)
      requires Valid()
      modifies this
      ensures Valid() && Value() == old(Value()).(command := m_command)
      ensures m_command == CommandHeader(0, mission % 4, order % 0x400, extra % 0x100, option % 0x100)
    {
      m_command := NewCommand(mission, order, extra, option);
    }

    method SetTcpHeader(sessionId: nat, crypt: nat)
      requires Valid()
      modifies this
      ensures Valid() && Value() == old(Value()).(header := m_header)
      ensures m_header == TcpHeader(0, sessionId % 0x4000, (8 + |m_data|) % 0x800, crypt % 8)
      ensures |m_data| < 0x800 - 8 ==> Value().Sized()
    {
      m_header := m_header.Initialize(sessionId, crypt, HEADER + COMMAND + |m_data|);
    }

    method SetData(data: seq<byte>)
      requires Valid() && |data| < 0x1_0000
      modifies this
      ensures Valid() && m_data == data && m_command == old(m_command)
      ensures m_header == old(m_header).(size := (8 + |data|) % 0x800)
      ensures |data| < 0x800 - 8 ==> Value().Sized()
    {
      m_data := data;
      m_header := m_header.SetSize(8 + |data|);
    }

    /**
      Without `isCryptUsed` the two default-key types would run on tables that were never set up, so they are
      excluded then.
     */
    method GenerateOutgoingPacket(key: u32, isCryptUsed: bool) returns (out: seq<byte>)
      requires Valid()
      requires isCryptUsed || m_header.crypt !in {DEFAULT_ENCRYPTION, DEFAULT_LARGE_ENCRYPTION}
      ensures out == Wire(Value(), key, isCryptUsed)
    {
      hide Cascade, TcpBytes, CommandBytes, C.KeysFor, WireBody, C.Splice;
      var completeData := Assemble();
      ghost var plain, plainHead, plainBody := completeData[..], TcpBytes(m_header), Value().Body();
      var crypt := new C.Crypt();
      if isCryptUsed {
        crypt.KeySetup(0);
        assert plain[0..HEADER] == plainHead;
        crypt.RC5Encrypt32(completeData, 0, completeData, 0, HEADER);
        Overwrite(plainHead, plainBody, Cascade(Encrypt, Rc5Half, C.KeysFor(0), plainHead));
      }
      ghost var head := WireHeader(Encrypt, isCryptUsed, plainHead);
      assert completeData[..] == head + plainBody;
      assert completeData[HEADER..HEADER + COMMAND + |m_data|] == plainBody;
      EncryptBody(crypt, completeData, COMMAND + |m_data|, key, isCryptUsed);
      OverwriteTail(head, plainBody, WireBody(Encrypt, m_header.crypt, key, plainBody));
      out := completeData[..];
    }

    /** The switch over the encryption type; `crypt` holds the default key when the session uses its cipher. */
    method EncryptBody(crypt: C.Crypt, a: array<byte>, size: nat, key: u32, ghost keyed: bool)
      requires crypt.Valid() && crypt.Apart(a) && a.Length == HEADER + size
      requires keyed ==> crypt.Tables() == C.KeysFor(0)
      requires keyed || m_header.crypt !in {DEFAULT_ENCRYPTION, DEFAULT_LARGE_ENCRYPTION}
      requires crypt as object != this
      modifies a, crypt, crypt.rc5S, crypt.rc6S
      ensures a[..]
           == C.Splice(old(a[..]), HEADER, WireBody(Encrypt, m_header.crypt, key, old(a[HEADER..HEADER + size])))
    {
      hide Cascade, C.KeysFor;
      match m_header.crypt {
        case 1 =>
          crypt.RC5Encrypt64(a, HEADER, a, HEADER, size);
        case 3 =>
          crypt.RC6Encrypt128(a, HEADER, a, HEADER, size);
        case 2 =>
          crypt.KeySetup(key);
          crypt.RC5Encrypt64(a, HEADER, a, HEADER, size);
        case 4 =>
          crypt.KeySetup(key);
          crypt.RC6Encrypt128(a, HEADER, a, HEADER, size);
        case _ =>
      }
    }

    /** Header, command and data copied one behind the other into a fresh buffer. */
    method Assemble() returns (completeData: array<byte>)
      requires Valid()
      ensures fresh(completeData) && completeData[..] == PlainWire(Value())
    {
      hide TcpBytes, CommandBytes, C.Splice;
      completeData := new byte[HEADER + COMMAND + |m_data|](_ => 0);
      ghost var empty := completeData[..];
      C.StoreBytes(completeData, 0, TcpBytes(m_header));
      C.StoreBytes(completeData, HEADER, CommandBytes(m_command));
      C.StoreBytes(completeData, HEADER + COMMAND, m_data);
      ThreeParts(empty, TcpBytes(m_header), CommandBytes(m_command), m_data);
    }

    method GeneratePlainPacket() returns (out: seq<byte>)
      requires Valid()
      ensures out == PlainWire(Value())
      ensures var h, c := m_header, m_command;
              out == [h.bogus + 0x10 * (h.sessionId % 0x10), h.sessionId / 0x10 % 0x100,
                      h.sessionId / 0x1000 + 4 * (h.size % 0x40), h.size / 0x40 + 0x20 * h.crypt,
                      c.bogus + 0x10 * c.mission + 0x40 * (c.order % 4), c.order / 4, c.extra, c.option] + m_data
    {
      hide TcpBytes, CommandBytes;
      var completeData := Assemble();
      out := completeData[..];
      PlainLayout(Value());
    }

    method ProcessIncomingPacket(data: array<byte>, size: nat, key: u32)
      requires Valid() && size <= data.Length && InBounds(true, data[..size])
      modifies this
      ensures data[..] == old(data[..])
      ensures Value() == old(Process(data[..size], key, Value()))
    {
      hide Cascade, TcpOf, CommandOf, C.KeysFor, WireBody;
      ghost var source, frame := data[..], data[..size];
      if size < HEADER {
        return;
      }
      var crypt := new C.Crypt();
      crypt.KeySetup(0);
      var raw := new byte[HEADER](_ => 0);
      assert data[0..HEADER] == frame[..HEADER];
      crypt.RC5Decrypt32(data, 0, raw, 0, HEADER);
      assert raw[..] == WireHeader(Decrypt, true, frame[..HEADER]);
      m_header := TcpOf(raw[..]);
      var messageSize := m_header.size - HEADER;
      if messageSize <= 0 {
        return;
      }
      var decrypted := new byte[messageSize](_ => 0);
      ghost var body := frame[HEADER..HEADER + messageSize];
      C.Subslice(source, 0, size, HEADER, HEADER + messageSize);
      assert source[0..size] == frame && data[..] == source;
      C.StoreBytes(decrypted, 0, data[HEADER..HEADER + messageSize]);
      assert decrypted[..] == body;
      var known := DecryptBody(crypt, decrypted, messageSize, key);
      if !known {
        return;
      }
      TakeBody(decrypted[..]);
    }

    /** The switch over the encryption type; false for a type it does not know. */
    method DecryptBody(crypt: C.Crypt, a: array<byte>, size: nat, key: u32) returns (known: bool)
      requires crypt.Valid() && crypt.Apart(a) && a.Length == size && crypt as object != this
      modifies a, crypt, crypt.rc5S, crypt.rc6S
      ensures known == (m_header.crypt <= USER_LARGE_ENCRYPTION)
      ensures a[..] == WireBody(Decrypt, m_header.crypt, key, old(a[..]))
    {
      hide Cascade, C.KeysFor;
      ghost var body := a[..];
      assert a[0..size] == body;
      match m_header.crypt {
        case 0 =>
        case 1 =>
          crypt.KeySetup(0);
          crypt.RC5Decrypt64(a, 0, a, 0, size);
        case 3 =>
          crypt.KeySetup(0);
          crypt.RC6Decrypt128(a, 0, a, 0, size);
        case 2 =>
          crypt.KeySetup(key);
          crypt.RC5Decrypt64(a, 0, a, 0, size);
        case 4 =>
          crypt.KeySetup(key);
          crypt.RC6Decrypt128(a, 0, a, 0, size);
        case _ =>
          return false;
      }
      return true;
    }

    /** The command header off the front of a clear body, the rest as data. */
    method TakeBody(clear: seq<byte>)
      requires Valid() && COMMAND <= |clear| < 0x800 - HEADER
      modifies this
      ensures Valid() && m_header == old(m_header).(size := HEADER + |clear|)
      ensures m_command == CommandOf(clear[..COMMAND]) && m_data == clear[COMMAND..]
    {
      m_command := CommandOf(clear[..COMMAND]);
      if |clear| > COMMAND {
        SetData(clear[COMMAND..]);
      } else {
        SetData([]);
      }
    }

    method ProcessPlainPacket(data: array<byte>, size: nat)
      requires Valid() && size <= data.Length && InBounds(false, data[..size])
      modifies this
      ensures Value() == old(ProcessPlain(data[..size], Value()))
    {
      hide TcpOf, CommandOf;
      ghost var frame := data[..size];
      if size < HEADER {
        return;
      }
      assert data[..HEADER] == frame[..HEADER];
      m_header := TcpOf(data[..HEADER]);
      var messageSize := m_header.size - HEADER;
      if messageSize <= 0 || messageSize > 1450 {
        return;
      }
      assert data[HEADER..HEADER + COMMAND] == frame[HEADER..HEADER + COMMAND];
      m_command := CommandOf(data[HEADER..HEADER + COMMAND]);
      if messageSize > COMMAND {
        SetData(data[HEADER + COMMAND..HEADER + messageSize]);
        assert data[HEADER + COMMAND..HEADER + messageSize] == frame[HEADER + COMMAND..HEADER + messageSize];
      } else {
        SetData([]);
      }
    }
  }
}
