/**
  The receiving and sending side of Common/src/Network/Session.cpp: `onRead` appends what was read and delivers
  every complete frame, `asyncWrite` encrypts and sends, `sendConnectionACK` hands the key over.
 */
module Session {
  import opened Words
  import opened Headers
  import opened Cipher
  import opened Packets
  import F = Framing
  import C = Crypt

  /** The size the session reads off four header bytes. */
  function HeaderSize(used: bool): (f: seq<byte> -> nat)
  {
    (h: seq<byte>) => if |h| == 4 then TcpOf(WireHeader(Decrypt, used, h)).size else 0
  }

  function Greeting(id: nat, key: u32, more: seq<byte>, extra: nat, option: nat): (m: Message)
    requires |more| == 4 && extra < 0x100 && option < 0x100
    ensures m.Sized()
  {
    Message(TcpHeader(0, id % 0x4000, 16, NO_ENCRYPTION), CommandHeader(0, 0, 401, extra, option),
            LeBytes(4, key) + more)
  }

  class Session {
    var crypt: C.Crypt
    var isUsed: bool
    var m_id: nat
    var reader: seq<byte>
    var open: bool
    /** The frames handed to `onPacket` so far. */
    var delivered: seq<seq<byte>>
    /** The packets written to the socket so far, as bytes. */
    var written: seq<seq<byte>>
    /** Whether the handler of a frame leaves the receive buffer alone. */
    const keeps: seq<byte> -> bool
    /** Whether the handler of the last frame delivered so far closes the socket. */
    const closes: seq<seq<byte>> -> bool

    ghost predicate Valid()
      reads this, crypt
    {
      crypt.Valid()
    }

    constructor (id: nat, keeps: seq<byte> -> bool, closes: seq<seq<byte>> -> bool)
      ensures Valid() && fresh(crypt) && fresh(crypt.rc5S) && fresh(crypt.rc6S)
      ensures open && isUsed && reader == [] && delivered == [] && written == [] && m_id == id
      ensures this.keeps == keeps && this.closes == closes
    {
      crypt := new C.Crypt();
      isUsed, m_id, reader, open, delivered, written := true, id, [], true, [], [];
      this.keeps, this.closes := keeps, closes;
    }

    method OnPacket(data: seq<byte>)
      modifies this`delivered, this`reader, this`open
      ensures delivered == old(delivered) + [data]
      ensures reader == if keeps(data) then old(reader) else []
      ensures open == (old(open) && !closes(delivered))
    {
      delivered := delivered + [data];
      if !keeps(data) {
        reader := [];
      }
      if closes(delivered) {
        CloseSocket();
      }
    }

    method CloseSocket()
      modifies this`open
      ensures !open
    {
      open := false;
    }

    /** The header of the first frame, decrypted or copied into `header`. */
    method ReadSize(cryptography: C.Crypt, header: array<byte>) returns (n: nat)
      requires |reader| >= HEADER && cryptography.Valid() && cryptography.Tables() == C.KeysFor(0)
      requires header.Length == HEADER && cryptography.Apart(header)
      modifies header
      ensures n == HeaderSize(isUsed)(reader[..HEADER])
    {
      hide Cascade, C.KeysFor, TcpOf;
      var first := reader[..HEADER];
      if isUsed {
        var raw := new byte[HEADER](i requires 0 <= i < HEADER => first[i]);
        assert raw[0..HEADER] == first;
        cryptography.RC5Decrypt32(raw, 0, header, 0, HEADER);
      } else {
        C.StoreBytes(header, 0, first);
      }
      assert header[..] == WireHeader(Decrypt, isUsed, first);
      n := TcpOf(header[..]).size;
    }

    /** What the loop still has to deliver: the buffer's frames, or nothing once it has ended. */
    ghost function Remaining(more: bool, ended: F.Status): F.Outcome
      reads this
    {
      if more then F.Drain(HeaderSize(isUsed), keeps, reader) else F.Outcome([], reader, ended)
    }

    /**
      One turn of the loop; `more` is false when the source breaks or returns. The loop does not ask whether the
      socket is still open. After a frame of no bytes whose handler kept the buffer it is where it was before: `hangs`
      reports that, instead of going on forever.
     */
    method Turn(cryptography: C.Crypt, header: array<byte>)
      returns (more: bool, hangs: bool, ghost ended: F.Status, ghost got: seq<seq<byte>>)
      requires |reader| >= HEADER
      requires cryptography.Valid() && cryptography.Tables() == C.KeysFor(0)
      requires header.Length == HEADER && cryptography.Apart(header)
      modifies header, this`reader, this`open, this`delivered
      ensures var was, now := old(Remaining(true, F.Open)), Remaining(more, ended);
              was.rest == now.rest && was.status == now.status && was.frames == got + now.frames
      ensures delivered == old(delivered) + got
      ensures open == (old(open) && (more || ended != F.Closed) && !F.ClosedIn(closes, old(delivered), got))
      ensures more ==> |reader| < |old(reader)|
      ensures hangs == (!more && ended == F.Stuck) && (hangs ==> reader == old(reader) && got == [[]])
    {
      hide Cascade, C.KeysFor, TcpOf, HeaderSize, F.Drain, F.ClosedIn;
      F.DrainTurn(HeaderSize(isUsed), keeps, reader);
      F.NothingClosed(closes, delivered);
      got := [];
      var n := ReadSize(cryptography, header);
      if n >= F.LIMIT {
        CloseSocket();
        return false, false, F.Closed, [];
      }
      if |reader| >= n {
        var data := reader[..n];
        F.OneClosed(closes, delivered, data);
        got := [data];
        OnPacket(data);
        if |reader| == 0 {
          return false, false, F.Open, got;
        }
        reader := reader[n..];
        if n == 0 {
          return false, true, F.Stuck, got;
        }
        return true, false, F.Open, got;
      }
      return false, false, F.Open, got;
    }

    /** The loop: it ends, with the buffer length as its measure, unless it is reported to hang. */
    method DeliverAll(cryptography: C.Crypt, header: array<byte>) returns (hangs: bool)
      requires cryptography.Valid() && cryptography.Tables() == C.KeysFor(0)
      requires header.Length == HEADER && cryptography.Apart(header)
      modifies header, this`reader, this`open, this`delivered
      ensures var o := F.Drain(HeaderSize(isUsed), keeps, old(reader));
              && delivered == old(delivered) + o.frames
              && reader == o.rest && hangs == (o.status == F.Stuck)
              && open == (old(open) && o.status != F.Closed && !F.ClosedIn(closes, old(delivered), o.frames))
    {
      hide Cascade, C.KeysFor, TcpOf, HeaderSize, F.Drain, F.ClosedIn;
      ghost var all := Remaining(true, F.Open);
      F.NothingClosed(closes, delivered);
      var more := true;
      hangs := false;
      ghost var ended, done: seq<seq<byte>> := F.Open, [];
      while more && |reader| >= HEADER
        invariant hangs == (!more && ended == F.Stuck)
        invariant cryptography.Valid() && cryptography.Tables() == C.KeysFor(0)
        invariant delivered == old(delivered) + done
        invariant var left := Remaining(more, ended);
                  all.rest == left.rest && all.status == left.status && all.frames == done + left.frames
        invariant open == (old(open) && (more || ended != F.Closed) && !F.ClosedIn(closes, old(delivered), done))
        decreases more, |reader|
      {
        ghost var got;
        more, hangs, ended, got := Turn(cryptography, header);
        F.ClosedInAppend(closes, old(delivered), done, got);
        done := done + got;
      }
      if more {
        F.DrainTurn(HeaderSize(isUsed), keeps, reader);
      }
      assert done == all.frames;
    }

    /**
      One successful read, for every buffer and every peer. Handlers may close the socket; the frames behind theirs
      are delivered all the same. `hangs` says that the source's loop would deliver an empty frame without end.
     */
    method OnRead(bytes: seq<byte>) returns (hangs: bool)
      requires Valid() && open
      modifies this`reader, this`open, this`delivered
      ensures var o := F.Drain(HeaderSize(isUsed), keeps, old(reader) + bytes);
              && delivered == old(delivered) + o.frames
              && reader == o.rest && hangs == (o.status == F.Stuck)
              && open == (o.status != F.Closed && !F.ClosedIn(closes, old(delivered), o.frames))
      ensures open && !hangs ==> |reader| < F.LIMIT
      ensures hangs <==> keeps([]) && exists at :: F.HangsAt(HeaderSize(isUsed), keeps, old(reader) + bytes, at)
    {
      hide Cascade, C.KeysFor, TcpOf, HeaderSize, F.Drain, F.HangsAt, F.ClosedIn;
      reader := reader + bytes;
      F.LeftoverBounded(HeaderSize(isUsed), keeps, reader);
      F.HangsAtIff(HeaderSize(isUsed), keeps, reader);
      var cryptography := new C.Crypt();
      cryptography.KeySetup(0);
      var header := new byte[HEADER](_ => 0);
      hangs := DeliverAll(cryptography, header);
    }

    /** The chain of asynchronous reads: each read goes to `onRead` while the socket is open. */
    method ReadAll(chunks: seq<seq<byte>>) returns (unread: seq<seq<byte>>, hangs: bool)
      requires Valid() && open
      modifies this`reader, this`open, this`delivered
      ensures var r := F.Feed(HeaderSize(isUsed), keeps, closes, old(delivered), old(reader), chunks);
              && delivered == old(delivered) + r.frames
              && reader == r.rest && unread == r.unread
              && hangs == (r.status == F.Stuck) && (!hangs ==> open == (r.status == F.Open))
    {
      hide Cascade, C.KeysFor, TcpOf, HeaderSize, F.Drain, F.Feed, F.ClosedIn, F.HangsAt;
      unread, hangs := chunks, false;
      ghost var all := Pending(chunks, false);
      while open && !hangs && unread != []
        invariant var left := Pending(unread, hangs);
                  && all.rest == left.rest && all.status == left.status && all.unread == left.unread
                  && old(delivered) + all.frames == delivered + left.frames
        decreases |unread|
      {
        F.FeedTurn(HeaderSize(isUsed), keeps, closes, delivered, reader, unread);
        ghost var o := F.Drain(HeaderSize(isUsed), keeps, reader + unread[0]);
        ghost var before := delivered;
        hangs := OnRead(unread[0]);
        unread := unread[1..];
        assert before + (o.frames + Pending(unread, hangs).frames) == delivered + Pending(unread, hangs).frames;
      }
      F.FeedTurn(HeaderSize(isUsed), keeps, closes, delivered, reader, unread);
    }

    method AsyncWrite(message: Packet) returns (sent: bool)
      requires Valid() && message.Valid()
      requires isUsed || message.m_header.crypt !in {DEFAULT_ENCRYPTION, DEFAULT_LARGE_ENCRYPTION}
      modifies this`written
      ensures sent == open
      ensures written == old(written) + if open then [Wire(message.Value(), crypt.userKey, isUsed)] else []
    {
      hide Wire, C.KeysFor;
      if !open {
        return false;
      }
      var bytes := message.GenerateOutgoingPacket(crypt.userKey, isUsed);
      written := written + [bytes];
      return true;
    }

    /**
      The greeting of an Auth or Main session: the freshly drawn `key` becomes the user key and is sent, together
      with four more bytes, in a packet whose body is not encrypted.
     */
    method SendConnectionAck(key: u32, more: seq<byte>, extra: nat, option: nat)
      requires Valid() && open && isUsed && |more| == 4 && extra < 0x100 && option < 0x100
      modifies this`written, crypt, crypt.rc5S, crypt.rc6S
      ensures Valid() && crypt.userKey == key && crypt.Tables() == C.KeysFor(key)
      ensures written == old(written) + [Wire(Greeting(m_id, key, more, extra, option), key, true)]
    {
      hide Wire, C.KeysFor, LeBytes;
      var connectionAck := new Packet();
      connectionAck.SetTcpHeader(m_id, NO_ENCRYPTION);
      crypt.KeySetup(key);
      connectionAck.SetData(LeBytes(4, key) + more);
      connectionAck.SetCommand(401, 0, extra, option);
      var sent := AsyncWrite(connectionAck);
    }

    /** What the connection still delivers when `chunks` are still to be read. */
    ghost function Pending(chunks: seq<seq<byte>>, hangs: bool): F.Run
      reads this
    {
      if open && !hangs then F.Feed(HeaderSize(isUsed), keeps, closes, delivered, reader, chunks)
      else F.Run([], reader, if hangs then F.Stuck else F.Closed, chunks)
    }
  }
}
