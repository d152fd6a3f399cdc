/**
  The theorem of the wire: a list of packets, encrypted, concatenated, cut into reads anywhere, decrypted and
  cut into packets again is the same list.
 */
module WireTheorem {
  import opened Words
  import opened Packets
  import opened Headers
  import opened Cipher
  import F = Framing
  import S = Session

  /** What the receiver's fresh packet holds after a packet of any type. */
  function Arrived(p: Message): Message
  {
    if p.Readable() then p else EMPTY_MESSAGE.(header := p.header)
  }

  /** A packet whose header announces its true total size, 8 to 1449 bytes. */
  type Outgoing = m: Message | m.Sized() && m.header.size < F.LIMIT
    witness Message(TcpHeader(0, 0, 8, 0), ZERO_COMMAND, [])

  /** Main-server and IPC sessions keep the receive buffer, whatever arrives. */
  function KeepingHandlers(): seq<byte> -> bool { _ => true }

  /**
    An Auth session clears the receive buffer exactly on an order without a callback. Frames that cannot be read as
    packets are left open in `other`.
   */
  function AuthHandlers(callbacks: set<nat>, key: u32, other: seq<byte> -> bool): seq<byte> -> bool
  {
    (f: seq<byte>) => if InBounds(true, f) then Process(f, key, EMPTY_MESSAGE).command.order in callbacks else other(f)
  }

  /** A Cast session does the same on an unencrypted connection. */
  function CastHandlers(callbacks: set<nat>, other: seq<byte> -> bool): seq<byte> -> bool
  {
    (f: seq<byte>) => if InBounds(false, f) then ProcessPlain(f, EMPTY_MESSAGE).command.order in callbacks else other(f)
  }

  function Wires(ps: seq<Outgoing>, key: u32): (ws: seq<seq<byte>>)
    ensures |ws| == |ps| && forall i :: 0 <= i < |ps| ==> ws[i] == Wire(ps[i], key, true)
  {
    seq(|ps|, i requires 0 <= i < |ps| => Wire(ps[i], key, true))
  }

  /**
    What a receiver gets: the frames in order, all of them unless the handler of a delivered one closes the socket,
    which then is closed.
   */
  predicate Arrives(closes: seq<seq<byte>> -> bool, frames: seq<seq<byte>>, run: F.Run)
  {
    && run.frames <= frames && (run.frames != frames ==> F.ClosedIn(closes, [], run.frames))
    && (run.status == F.Open <==> !F.ClosedIn(closes, [], run.frames))
    && (!F.ClosedIn(closes, [], frames) ==> run == F.Run(frames, [], F.Open, []))
  }

  lemma KeptWhole(ps: seq<Outgoing>, key: u32, keeps: seq<byte> -> bool)
    requires forall i :: 0 <= i < |ps| ==> keeps(Wires(ps, key)[i])
    ensures forall f :: f in Wires(ps, key) ==> F.WholeFrame(S.HeaderSize(true), keeps, f)
  {
    hide Wire, WireHeader, WireBody, TcpBytes, CommandBytes, TcpOf, CommandOf;
    var frames := Wires(ps, key);
    forall i | 0 <= i < |ps|
      ensures F.WholeFrame(S.HeaderSize(true), keeps, frames[i])
    {
      WireShape(ps[i], key, true);
    }
  }

  lemma KeptDelivers(ps: seq<Outgoing>, key: u32, keeps: seq<byte> -> bool, closes: seq<seq<byte>> -> bool,
                     chunks: seq<seq<byte>>)
    requires forall i :: 0 <= i < |ps| ==> keeps(Wires(ps, key)[i])
    requires F.Concat(chunks) == F.Concat(Wires(ps, key))
    ensures Arrives(closes, Wires(ps, key), F.Feed(S.HeaderSize(true), keeps, closes, [], [], chunks))
  {
    hide Wires, F.WholeFrame, F.Feed, F.ClosedIn, S.HeaderSize;
    KeptWhole(ps, key, keeps);
    F.FramesDelivered(S.HeaderSize(true), keeps, closes, Wires(ps, key), chunks);
  }

  lemma WiresReadBack(ps: seq<Outgoing>, key: u32)
    ensures forall i :: 0 <= i < |ps| ==>
              && InBounds(true, Wires(ps, key)[i])
              && Process(Wires(ps, key)[i], key, EMPTY_MESSAGE) == Arrived(ps[i])
  {
    hide Wire, Process;
    forall i | 0 <= i < |ps|
      ensures InBounds(true, Wires(ps, key)[i]) && Process(Wires(ps, key)[i], key, EMPTY_MESSAGE) == Arrived(ps[i])
    {
      Delivered(ps[i], key, key, EMPTY_MESSAGE);
    }
  }

  /**
    The theorem of the wire for a main-server session. Every packet of total size 8 to 1449, whatever its type,
    session, command and data; every shared user key; every cut of the bytes into reads. While no handler closes the
    socket, the receiver gets one frame a packet, in order, nothing is left over, the socket stays open, and each frame
    reads back as the packet (as its bare header for types above 4); when one does, the frames up to some place at or
    behind its own.
   */
  lemma WireDelivers(ps: seq<Outgoing>, key: u32, closes: seq<seq<byte>> -> bool, chunks: seq<seq<byte>>)
    requires F.Concat(chunks) == F.Concat(Wires(ps, key))
    ensures Arrives(closes, Wires(ps, key), F.Feed(S.HeaderSize(true), KeepingHandlers(), closes, [], [], chunks))
    ensures forall i :: 0 <= i < |ps| ==>
              && InBounds(true, Wires(ps, key)[i])
              && Process(Wires(ps, key)[i], key, EMPTY_MESSAGE) == Arrived(ps[i])
  {
    hide Wires, Process, InBounds, F.Feed, Arrives, F.ClosedIn;
    KeptDelivers(ps, key, KeepingHandlers(), closes, chunks);
    WiresReadBack(ps, key);
  }

  /** Every cut delivers all the packets of such a list exactly when no handler but the last one's closes the socket. */
  lemma WireDeliversIff(ps: seq<Outgoing>, key: u32, closes: seq<seq<byte>> -> bool)
    ensures (forall chunks :: F.Concat(chunks) == F.Concat(Wires(ps, key)) ==>
               F.Feed(S.HeaderSize(true), KeepingHandlers(), closes, [], [], chunks).frames == Wires(ps, key))
       <==> F.OnlyLastCloses(closes, [], Wires(ps, key))
  {
    hide Wires, F.WholeFrame, F.Feed, F.OnlyLastCloses, S.HeaderSize;
    KeptWhole(ps, key, KeepingHandlers());
    F.WholeListIff(S.HeaderSize(true), KeepingHandlers(), closes, Wires(ps, key));
  }

  /** The same for an Auth session, when every order sent has a callback. */
  lemma AuthDelivers(ps: seq<Outgoing>, key: u32, callbacks: set<nat>, other: seq<byte> -> bool,
                     closes: seq<seq<byte>> -> bool, chunks: seq<seq<byte>>)
    requires forall i :: 0 <= i < |ps| ==> Arrived(ps[i]).command.order in callbacks
    requires F.Concat(chunks) == F.Concat(Wires(ps, key))
    ensures Arrives(closes, Wires(ps, key),
                    F.Feed(S.HeaderSize(true), AuthHandlers(callbacks, key, other), closes, [], [], chunks))
  {
    hide Wires, Process, InBounds, F.Feed, Arrives, F.ClosedIn;
    WiresReadBack(ps, key);
    KeptDelivers(ps, key, AuthHandlers(callbacks, key, other), closes, chunks);
  }

  /** The same on an unencrypted connection (Cast and IPC sessions), for every type. */
  lemma PlainWireDelivers(ps: seq<Outgoing>, keeps: seq<byte> -> bool, closes: seq<seq<byte>> -> bool,
                          frames: seq<seq<byte>>, chunks: seq<seq<byte>>)
    requires forall i :: 0 <= i < |ps| ==> keeps(PlainWire(ps[i]))
    requires |frames| == |ps| && forall i :: 0 <= i < |ps| ==> frames[i] == PlainWire(ps[i])
    requires F.Concat(chunks) == F.Concat(frames)
    ensures Arrives(closes, frames, F.Feed(S.HeaderSize(false), keeps, closes, [], [], chunks))
    ensures forall i :: 0 <= i < |ps| ==>
              InBounds(false, frames[i]) && ProcessPlain(frames[i], EMPTY_MESSAGE) == ps[i]
  {
    hide PlainWire, ProcessPlain, F.Feed, F.ClosedIn;
    forall i | 0 <= i < |ps|
      ensures InBounds(false, frames[i]) && ProcessPlain(frames[i], EMPTY_MESSAGE) == ps[i]
      ensures F.WholeFrame(S.HeaderSize(false), keeps, frames[i])
    {
      PlainDelivered(ps[i], EMPTY_MESSAGE);
    }
    F.FramesDelivered(S.HeaderSize(false), keeps, closes, frames, chunks);
  }

  // ---------------------------------------------------------------- when the cuts matter

  /** The frame of a packet, as the framing loop can deliver it. */
  lemma WireIsFrame(m: Outgoing, key: u32)
    ensures var w := Wire(m, key, true); F.IsFrame(S.HeaderSize(true), w[..HEADER], w)
  {
    hide Wire, WireHeader, WireBody, TcpBytes, TcpOf;
    WireShape(m, key, true);
  }

  /**
    A packet whose order has no callback, sent twice to an Auth session: two reads deliver it twice, one read only
    once.
   */
  lemma AuthCutsDiffer(m: Outgoing, key: u32, callbacks: set<nat>, other: seq<byte> -> bool)
    requires Arrived(m).command.order !in callbacks
    ensures var keeps, w := AuthHandlers(callbacks, key, other), Wire(m, key, true);
            && F.Feed(S.HeaderSize(true), keeps, F.NeverCloses(), [], [], [w, w]).frames == [w, w]
            && F.Drain(S.HeaderSize(true), keeps, w + w) == F.Outcome([w], [], F.Open)
  {
    hide Wire, Process, InBounds, F.Feed, F.Drain, S.HeaderSize;
    var keeps, w := AuthHandlers(callbacks, key, other), Wire(m, key, true);
    WireIsFrame(m, key);
    Delivered(m, key, key, EMPTY_MESSAGE);
    F.UnkeptDependsOnCuts(S.HeaderSize(true), keeps, w[..HEADER], w);
    assert F.Carrier(w[..HEADER], w) == w;
  }

  /** The handler keeps the buffer on every frame that cannot be read as a packet. */
  ghost predicate KeepsUnreadable(used: bool, other: seq<byte> -> bool)
  {
    forall h, f :: F.IsFrame(S.HeaderSize(used), h, f) && !InBounds(used, f) ==> other(f)
  }

  /** A packet with the given order and nothing else. */
  function Bare(order: nat): (m: Outgoing)
    requires order < 0x400
  {
    Message(TcpHeader(0, 0, 8, 0), CommandHeader(0, 0, order, 0, 0), [])
  }

  /**
    Exactly when the cuts do not matter to an Auth session: every one of the 1024 orders has a callback, and the
    frames that cannot be read as packets are kept.
   */
  lemma AuthCutsIff(key: u32, callbacks: set<nat>, other: seq<byte> -> bool)
    ensures F.AllReadsAgree(S.HeaderSize(true), AuthHandlers(callbacks, key, other))
       <==> (forall o: nat :: o < 0x400 ==> o in callbacks) && KeepsUnreadable(true, other)
  {
    hide Wire, Process, InBounds, F.AllReadsAgree, F.TwoReadsAgree, F.IsFrame, S.HeaderSize;
    var size, keeps := S.HeaderSize(true), AuthHandlers(callbacks, key, other);
    F.CutsAgreeIff(size, keeps);
    if F.AlwaysKept(size, keeps) {
      forall o: nat | o < 0x400 ensures o in callbacks {
        WireIsFrame(Bare(o), key);
        Delivered(Bare(o), key, key, EMPTY_MESSAGE);
        assert keeps(Wire(Bare(o), key, true));
      }
      forall h, f | F.IsFrame(size, h, f) && !InBounds(true, f) ensures other(f) {
        assert keeps(f);
      }
    }
    if (forall o: nat :: o < 0x400 ==> o in callbacks) && KeepsUnreadable(true, other) {
      forall h, f | F.IsFrame(size, h, f) ensures keeps(f) {
        if InBounds(true, f) {
          ProcessedOrder(f, key);
        }
      }
    }
  }

  lemma ProcessedOrder(f: seq<byte>, key: u32)
    requires InBounds(true, f)
    ensures Process(f, key, EMPTY_MESSAGE).command.order < 0x400
  {
    hide WireHeader, WireBody, TcpOf;
  }

  /** The frame of a packet on an unencrypted connection. */
  lemma PlainIsFrame(m: Outgoing)
    ensures var w := PlainWire(m); F.IsFrame(S.HeaderSize(false), w[..HEADER], w)
  {
    hide PlainWire, ProcessPlain;
    PlainDelivered(m, EMPTY_MESSAGE);
  }

  /** The same condition for a Cast session. */
  lemma CastCutsIff(callbacks: set<nat>, other: seq<byte> -> bool)
    ensures F.AllReadsAgree(S.HeaderSize(false), CastHandlers(callbacks, other))
       <==> (forall o: nat :: o < 0x400 ==> o in callbacks) && KeepsUnreadable(false, other)
  {
    hide PlainWire, ProcessPlain, InBounds, F.AllReadsAgree, F.TwoReadsAgree, F.IsFrame, S.HeaderSize;
    var size, keeps := S.HeaderSize(false), CastHandlers(callbacks, other);
    F.CutsAgreeIff(size, keeps);
    if F.AlwaysKept(size, keeps) {
      forall o: nat | o < 0x400 ensures o in callbacks {
        PlainIsFrame(Bare(o));
        PlainDelivered(Bare(o), EMPTY_MESSAGE);
        assert keeps(PlainWire(Bare(o)));
      }
      forall h, f | F.IsFrame(size, h, f) && !InBounds(false, f) ensures other(f) {
        assert keeps(f);
      }
    }
    if (forall o: nat :: o < 0x400 ==> o in callbacks) && KeepsUnreadable(false, other) {
      forall h, f | F.IsFrame(size, h, f) ensures keeps(f) {
        if InBounds(false, f) {
          PlainProcessedOrder(f);
        }
      }
    }
  }

  lemma PlainProcessedOrder(f: seq<byte>)
    requires InBounds(false, f)
    ensures ProcessPlain(f, EMPTY_MESSAGE).command.order < 0x400
  {
    hide TcpOf;
  }

  /** While no handler closes the socket, the cuts never matter to a main-server and to an IPC session. */
  lemma KeepingCutsAgree(used: bool)
    ensures F.AllReadsAgree(S.HeaderSize(used), KeepingHandlers())
  {
    hide F.AllReadsAgree, F.TwoReadsAgree, S.HeaderSize;
    F.CutsAgreeIff(S.HeaderSize(used), KeepingHandlers());
  }

  /**
    With handlers that close the socket, for every stream to such a session: every cut agrees with one read exactly
    when no handler closes it while another frame is still to come.
   */
  lemma KeepingStreamIff(used: bool, closes: seq<seq<byte>> -> bool, s: seq<byte>)
    ensures (forall chunks :: F.Concat(chunks) == s ==>
               F.ReadsAgree(S.HeaderSize(used), KeepingHandlers(), closes, chunks))
       <==> F.OnlyLastCloses(closes, [], F.Drain(S.HeaderSize(used), KeepingHandlers(), s).frames)
  {
    hide S.HeaderSize, F.Drain, F.ReadsAgree, F.OnlyLastCloses;
    F.StreamAgreesIff(S.HeaderSize(used), KeepingHandlers(), closes, s);
  }

  // ---------------------------------------------------------------- when the loop runs forever

  /** Four bytes that announce an empty frame: zeros in the clear, and on an encrypted connection their encryption. */
  function EmptyAnnouncement(used: bool): (h: seq<byte>)
    ensures |h| == HEADER
  {
    if used then WireHeader(Encrypt, true, TcpBytes(ZERO_TCP)) else [0, 0, 0, 0]
  }

  lemma AnnouncesNothing(used: bool)
    ensures S.HeaderSize(used)(EmptyAnnouncement(used)) == 0
  {
    hide WireHeader, TcpBytes, S.HeaderSize;
    if used {
      EncryptedSize(ZERO_TCP);
    } else {
      PlainZeros();
    }
  }

  lemma EncryptedSize(h: TcpHeader)
    requires h.Valid()
    ensures S.HeaderSize(true)(WireHeader(Encrypt, true, TcpBytes(h))) == h.size
  {
    hide WireHeader, WireBody, TcpBytes, TcpOf;
    WireCancels(true, 0, 0, TcpBytes(h), []);
    HeaderBytesRoundTrip(h, ZERO_COMMAND);
  }

  lemma PlainZeros()
    ensures S.HeaderSize(false)([0, 0, 0, 0]) == 0
  {
    hide WireHeader, LeWord;
    ZeroWord();
    assert WireHeader(Decrypt, false, [0, 0, 0, 0]) == [0, 0, 0, 0] by { PlainHeader([0, 0, 0, 0]); }
  }

  lemma PlainHeader(h: seq<byte>)
    requires |h| == HEADER
    ensures WireHeader(Decrypt, false, h) == h
  {
  }

  lemma ZeroWord()
    ensures LeWord([0, 0, 0, 0]) == 0
  {
  }

  /**
    Exactly which sessions some peer can keep in the loop forever: those whose handlers keep the buffer on an
    empty frame, encrypted or not.
   */
  lemma HangsIff(used: bool, keeps: seq<byte> -> bool)
    ensures (exists buf :: F.Drain(S.HeaderSize(used), keeps, buf).status == F.Stuck) <==> keeps([])
    ensures keeps([]) ==> F.Drain(S.HeaderSize(used), keeps, EmptyAnnouncement(used)).status == F.Stuck
  {
    hide S.HeaderSize, EmptyAnnouncement, F.Drain;
    AnnouncesNothing(used);
    F.StuckIff(S.HeaderSize(used), keeps);
    if keeps([]) {
      F.EmptyFrameSticks(S.HeaderSize(used), keeps, EmptyAnnouncement(used));
    }
  }

  /** A main-server session (encrypted) and an IPC session (in the clear) hang on four bytes. */
  lemma KeepingSessionsHang(used: bool)
    ensures F.Drain(S.HeaderSize(used), KeepingHandlers(), EmptyAnnouncement(used)).status == F.Stuck
  {
    hide S.HeaderSize, F.Drain, EmptyAnnouncement;
    HangsIff(used, KeepingHandlers());
  }

  /**
    Exactly the streams that keep a main-server session (encrypted) or an IPC session (in the clear) in the loop
    forever, however they are cut: those whose frames lead to a header that announces no bytes.
   */
  lemma KeepingHangsIff(used: bool, chunks: seq<seq<byte>>)
    ensures F.Feed(S.HeaderSize(used), KeepingHandlers(), F.NeverCloses(), [], [], chunks).status == F.Stuck
       <==> exists at :: F.HangsAt(S.HeaderSize(used), KeepingHandlers(), F.Concat(chunks), at)
  {
    hide S.HeaderSize, F.Feed, F.HangsAt;
    F.FeedHangsIff(S.HeaderSize(used), KeepingHandlers(), chunks);
  }

  /** So it ends on every stream whose frames announce at least one byte each. */
  lemma SizedStreamEnds(used: bool, chunks: seq<seq<byte>>)
    requires F.AnnouncesBytes(S.HeaderSize(used), KeepingHandlers(), F.Concat(chunks))
    ensures F.Feed(S.HeaderSize(used), KeepingHandlers(), F.NeverCloses(), [], [], chunks).status != F.Stuck
  {
    hide S.HeaderSize, F.Feed, F.AnnouncesBytes;
    F.SizedFeedEnds(S.HeaderSize(used), KeepingHandlers(), chunks);
  }

  lemma EmptyFrameUnread(key: u32)
    ensures InBounds(true, []) && Process([], key, EMPTY_MESSAGE) == EMPTY_MESSAGE
    ensures InBounds(false, []) && ProcessPlain([], EMPTY_MESSAGE) == EMPTY_MESSAGE
  {
  }

  /** An Auth session can be kept in the loop forever exactly when there is a callback for order 0. */
  lemma AuthHangsIff(key: u32, callbacks: set<nat>, other: seq<byte> -> bool)
    ensures (exists buf :: F.Drain(S.HeaderSize(true), AuthHandlers(callbacks, key, other), buf).status == F.Stuck)
       <==> 0 in callbacks
  {
    hide S.HeaderSize, F.Drain, Process, InBounds, EmptyAnnouncement;
    HangsIff(true, AuthHandlers(callbacks, key, other));
    EmptyFrameUnread(key);
  }

  /** So can a Cast session. */
  lemma CastHangsIff(callbacks: set<nat>, other: seq<byte> -> bool)
    ensures (exists buf :: F.Drain(S.HeaderSize(false), CastHandlers(callbacks, other), buf).status == F.Stuck)
       <==> 0 in callbacks
  {
    hide S.HeaderSize, F.Drain, ProcessPlain, InBounds, EmptyAnnouncement;
    HangsIff(false, CastHandlers(callbacks, other));
    EmptyFrameUnread(0);
  }

  /** The key hand-off: whatever user key the client holds, the greeting tells it the server's. */
  lemma GreetingCarriesKey(id: nat, key: u32, more: seq<byte>, extra: nat, option: nat, clientKey: u32)
    requires |more| == 4 && extra < 0x100 && option < 0x100
    ensures var w := Wire(S.Greeting(id, key, more, extra, option), key, true);
            && InBounds(true, w)
            && var m := Process(w, clientKey, EMPTY_MESSAGE);
               && |m.data| == 8 && LeWord(m.data[..4]) == key && m.data[4..] == more
               && m.command == CommandHeader(0, 0, 401, extra, option)
               && m.header.sessionId == id % 0x4000 && m.header.crypt == 0
  {
    hide Wire, Process, LeBytes, LeWord, Pow2;
    var m := S.Greeting(id, key, more, extra, option);
    Delivered(m, key, clientKey, EMPTY_MESSAGE);
    assert m.data[..4] == LeBytes(4, key);
    Pow2Widths();
    WordOfBytes(4, key);
  }
}
