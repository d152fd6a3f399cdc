/**
  MainServer's `sendSeparatePackets` (MainSession.h): a list of equally sized items too long for one packet goes out
  in several, each as full as the 1440-byte limit allows.
 */
module PacketSplitter {
  import opened Collections
  import opened Words
  import opened Headers
  import opened Packets
  import W = WireTheorem
  import F = Framing
  import S = Session

  const MAX_PAYLOAD := 1440 - 8

  /** An item as the bytes of its memory. */
  predicate Items(data: seq<seq<byte>>, itemSize: nat)
  {
    1 <= itemSize <= MAX_PAYLOAD && forall i :: 0 <= i < |data| ==> |data[i]| == itemSize
  }

  function PerPacket(itemSize: nat): (n: nat)
    requires 1 <= itemSize <= MAX_PAYLOAD
    ensures n >= 1
  {
    MAX_PAYLOAD / itemSize
  }

  // ---------------------------------------------------------------- the packets

  function Piece(base: Message, extra: nat, items: seq<seq<byte>>): Message
  {
    var data := F.Concat(items);
    Message(base.header.SetSize(8 + |data|), base.command.SetExtra(extra).SetOption(|items|), data)
  }

  function Split(base: Message, extra: nat, data: seq<seq<byte>>, n: nat): (ps: seq<Message>)
    requires n >= 1
    decreases |data|
  {
    if |data| <= n then (if data == [] then [] else [Piece(base, extra, data)])
    else [Piece(base, extra, data[..n])] + Split(base, 0, data[n..], n)
  }

  function Payloads(ps: seq<Message>): seq<byte>
  {
    if ps == [] then [] else ps[0].data + Payloads(ps[1..])
  }

  lemma {:induction false} ConcatAppend(a: seq<seq<byte>>, b: seq<seq<byte>>)
    ensures F.Concat(a + b) == F.Concat(a) + F.Concat(b)
    decreases |a|
  {
    if a == [] {
      assert a + b == b;
    } else {
      assert (a + b)[1..] == a[1..] + b;
      ConcatAppend(a[1..], b);
    }
  }

  lemma {:induction false} ConcatLength(data: seq<seq<byte>>, itemSize: nat)
    requires Items(data, itemSize)
    ensures |F.Concat(data)| == |data| * itemSize
    decreases |data|
  {
    if data == [] {
    } else {
      ConcatLength(data[1..], itemSize);
    }
  }

  /** The payloads, in order, are the items' bytes. */
  lemma {:induction false} SplitTiles(base: Message, extra: nat, data: seq<seq<byte>>, n: nat)
    requires n >= 1
    ensures Payloads(Split(base, extra, data, n)) == F.Concat(data)
    decreases |data|
  {
    hide F.Concat;
    ConcatNothing();
    if |data| > n {
      SplitTiles(base, 0, data[n..], n);
      ConcatAppend(data[..n], data[n..]);
      assert data[..n] + data[n..] == data;
    } else {
      assert F.Concat(data) + [] == F.Concat(data);
    }
  }

  lemma ConcatNothing()
    ensures F.Concat([]) == []
  {
  }

  /** `(len + n - 1) / n`. */
  function CeilDiv(len: nat, n: nat): nat
    requires n >= 1
  {
    (len + n - 1) / n
  }

  function StartOf(k: nat, n: nat): nat { k * n }

  /** The rounded-up quotient is the least number of packets that hold everything. */
  lemma Ceiling(len: nat, n: nat, k: nat)
    requires n >= 1
    ensures k < CeilDiv(len, n) <==> StartOf(k, n) < len
    ensures StartOf(0, n) == 0 && StartOf(k + 1, n) == StartOf(k, n) + n
  {
    var q := CeilDiv(len, n);
    assert q * n <= len + n - 1 < q * n + n;
    if k < q {
      MulMonotone(k + 1, q, n);
    } else {
      MulMonotone(q, k, n);
    }
  }

  lemma {:induction false} SplitCount(base: Message, extra: nat, data: seq<seq<byte>>, n: nat)
    requires n >= 1
    ensures |Split(base, extra, data, n)| == CeilDiv(|data|, n)
    decreases |data|
  {
    hide Piece;
    if |data| > n {
      SplitCount(base, 0, data[n..], n);
      CeilingStep(|data|, n);
    } else if data != [] {
      Quotient(|data| + n - 1, n, 1);
    } else {
      Quotient(n - 1, n, 0);
    }
  }

  lemma Quotient(a: nat, n: nat, q: nat)
    requires n >= 1 && q * n <= a < q * n + n
    ensures a / n == q
  {
    ModOf(a - q * n, q, n);
  }

  lemma CeilingStep(len: nat, n: nat)
    requires 1 <= n < len
    ensures (len + n - 1) / n == (len - n + n - 1) / n + 1
  {
    var q := (len - 1) / n;
    assert q * n <= len - 1 < q * n + n;
    assert (q + 1) * n == q * n + n;
    Quotient(len + n - 1, n, q + 1);
  }

  /** A packet of at least one whole item within the limits, stamped with its own size. */
  predicate Stamped(base: Message, extra: nat, p: Message)
  {
    && p.Sized() && 1 <= |p.data| <= MAX_PAYLOAD && p.header.size < F.LIMIT
    && p.header.(size := base.header.size) == base.header
    && p.command.(extra := base.command.extra, option := base.command.option) == base.command
    && p.command.extra == extra
  }

  lemma PieceStamped(base: Message, extra: nat, items: seq<seq<byte>>, itemSize: nat)
    requires base.Valid() && extra < 0x100 && Items(items, itemSize) && 1 <= |items| <= PerPacket(itemSize)
    ensures Stamped(base, extra, Piece(base, extra, items))
  {
    hide F.Concat;
    ConcatLength(items, itemSize);
    MulMonotone(1, |items|, itemSize);
    MulMonotone(|items|, PerPacket(itemSize), itemSize);
    assert PerPacket(itemSize) * itemSize <= MAX_PAYLOAD;
    StampSized(base, extra, items);
  }

  lemma StampSized(base: Message, extra: nat, items: seq<seq<byte>>)
    requires base.Valid() && extra < 0x100 && 1 <= |F.Concat(items)| <= MAX_PAYLOAD
    ensures Stamped(base, extra, Piece(base, extra, items))
  {
    hide F.Concat;
  }

  function ExtraOf(first: nat, k: nat): nat { if k == 0 then first else 0 }

  /** Every packet is within the limits and not empty; only the first carries the first packet's extra. */
  lemma {:induction false} SplitStamped(base: Message, extra: nat, data: seq<seq<byte>>, itemSize: nat)
    requires base.Valid() && extra < 0x100 && Items(data, itemSize)
    ensures var ps := Split(base, extra, data, PerPacket(itemSize));
            forall k :: 0 <= k < |ps| ==> Stamped(base, ExtraOf(extra, k), ps[k])
    decreases |data|
  {
    hide Piece, Stamped;
    var n := PerPacket(itemSize);
    if data == [] {
    } else if |data| <= n {
      PieceStamped(base, extra, data, itemSize);
    } else {
      PieceStamped(base, extra, data[..n], itemSize);
      SplitStamped(base, 0, data[n..], itemSize);
      var ps, rest := Split(base, extra, data, n), Split(base, 0, data[n..], n);
      forall k | 0 <= k < |ps| ensures Stamped(base, ExtraOf(extra, k), ps[k]) {
        if k > 0 {
          assert ps[k] == rest[k - 1] && Stamped(base, ExtraOf(0, k - 1), rest[k - 1]);
        }
      }
    }
  }

  /** A packet of that many whole items, as its eight-bit option tells; only the last one may have room for another. */
  predicate Carries(p: Message, itemSize: nat, count: nat, last: bool)
  {
    && count >= 1 && |p.data| == count * itemSize && p.command.option == count % 256
    && (!last ==> |p.data| + itemSize > 1432)
  }

  ghost predicate Filled(p: Message, itemSize: nat, last: bool)
  {
    exists count: nat :: Carries(p, itemSize, count, last)
  }

  ghost predicate AllFilled(ps: seq<Message>, itemSize: nat)
  {
    forall k :: 0 <= k < |ps| ==> Filled(ps[k], itemSize, k == |ps| - 1)
  }

  /** Every packet carries whole items, and none but the last could take another one. */
  lemma {:induction false} SplitFilled(base: Message, extra: nat, data: seq<seq<byte>>, itemSize: nat)
    requires Items(data, itemSize)
    ensures AllFilled(Split(base, extra, data, PerPacket(itemSize)), itemSize)
    decreases |data|
  {
    hide Piece, Filled;
    var n := PerPacket(itemSize);
    if data == [] {
    } else if |data| <= n {
      PieceFilled(base, extra, data, itemSize, true);
    } else {
      PieceFilled(base, extra, data[..n], itemSize, false);
      SplitFilled(base, 0, data[n..], itemSize);
      FilledBefore(Piece(base, extra, data[..n]), Split(base, 0, data[n..], n), itemSize);
    }
  }

  lemma FilledBefore(p: Message, ps: seq<Message>, itemSize: nat)
    requires Filled(p, itemSize, false) && AllFilled(ps, itemSize) && ps != []
    ensures AllFilled([p] + ps, itemSize)
  {
    hide Filled;
    var all := [p] + ps;
    forall k | 0 <= k < |all| ensures Filled(all[k], itemSize, k == |all| - 1) {
      if k > 0 {
        assert Filled(ps[k - 1], itemSize, k - 1 == |ps| - 1);
        assert all[k] == ps[k - 1];
      }
    }
  }

  lemma PieceFilled(base: Message, extra: nat, items: seq<seq<byte>>, itemSize: nat, last: bool)
    requires Items(items, itemSize) && items != [] && (!last ==> |items| == PerPacket(itemSize))
    ensures Filled(Piece(base, extra, items), itemSize, last)
  {
    hide F.Concat;
    ConcatLength(items, itemSize);
    DivMod(1432, itemSize);
    assert Carries(Piece(base, extra, items), itemSize, |items|, last);
  }

  /** The option of the packet is the number of items it carries. */
  predicate CountsItems(p: Message, itemSize: nat) { |p.data| == p.command.option * itemSize }

  lemma PieceCountsIff(base: Message, extra: nat, items: seq<seq<byte>>, itemSize: nat)
    requires Items(items, itemSize)
    ensures CountsItems(Piece(base, extra, items), itemSize) <==> |items| < 256
  {
    hide F.Concat;
    ConcatLength(items, itemSize);
    CutCountIff(|items|, |items| % 0x100, itemSize);
  }

  lemma CutCountIff(n: nat, cut: nat, itemSize: nat)
    requires itemSize >= 1 && cut == n % 0x100
    ensures n * itemSize == cut * itemSize <==> n < 256
  {
    if n >= 256 {
      MulMonotone(cut + 1, n, itemSize);
    }
  }

  predicate AllCount(ps: seq<Message>, itemSize: nat)
  {
    forall k :: 0 <= k < |ps| ==> CountsItems(ps[k], itemSize)
  }

  lemma {:induction false} SmallPiecesCount(base: Message, extra: nat, data: seq<seq<byte>>, itemSize: nat)
    requires Items(data, itemSize) && (|data| < 256 || PerPacket(itemSize) < 256)
    ensures AllCount(Split(base, extra, data, PerPacket(itemSize)), itemSize)
    decreases |data|
  {
    hide Piece, CountsItems;
    var n := PerPacket(itemSize);
    if data == [] {
    } else if |data| > n {
      PieceCountsIff(base, extra, data[..n], itemSize);
      SmallPiecesCount(base, 0, data[n..], itemSize);
    } else {
      PieceCountsIff(base, extra, data, itemSize);
    }
  }

  /**
    The option field has eight bits. Every packet of a split list tells its item count exactly when the list or a
    full packet has fewer than 256 items.
   */
  lemma OptionCountsIff(base: Message, extra: nat, data: seq<seq<byte>>, itemSize: nat)
    requires Items(data, itemSize)
    ensures AllCount(Split(base, extra, data, PerPacket(itemSize)), itemSize)
       <==> |data| < 256 || PerPacket(itemSize) < 256
  {
    hide Piece, CountsItems, PerPacket;
    var n := PerPacket(itemSize);
    if |data| < 256 || n < 256 {
      SmallPiecesCount(base, extra, data, itemSize);
    } else {
      var first := if |data| <= n then data else data[..n];
      PieceCountsIff(base, extra, first, itemSize);
      assert Split(base, extra, data, n)[0] == Piece(base, extra, first);
    }
  }

  /** Items of at least 6 bytes, as all the server's records are, are always counted. */
  lemma RecordsCount(base: Message, extra: nat, data: seq<seq<byte>>, itemSize: nat)
    requires Items(data, itemSize) && itemSize >= 6
    ensures AllCount(Split(base, extra, data, PerPacket(itemSize)), itemSize)
  {
    hide AllCount;
    OptionCountsIff(base, extra, data, itemSize);
    FewPerPacket(PerPacket(itemSize), itemSize);
  }

  lemma FewPerPacket(n: nat, itemSize: nat)
    requires 6 <= itemSize <= MAX_PAYLOAD && n == PerPacket(itemSize)
    ensures n < 256
  {
    MulMonotone(6, itemSize, n);
    assert n * itemSize <= MAX_PAYLOAD;
  }

  // ---------------------------------------------------------------- to the other end and back

  /** What a receiver collects: the data of each frame, in order. */
  function Collected(frames: seq<seq<byte>>, key: u32): seq<byte>
    requires forall i :: 0 <= i < |frames| ==> InBounds(true, frames[i])
  {
    if frames == [] then [] else Process(frames[0], key, EMPTY_MESSAGE).data + Collected(frames[1..], key)
  }

  lemma {:induction false} CollectedPayloads(frames: seq<seq<byte>>, ps: seq<Message>, key: u32)
    requires |frames| == |ps|
    requires forall i :: 0 <= i < |frames| ==>
               InBounds(true, frames[i]) && Process(frames[i], key, EMPTY_MESSAGE) == ps[i]
    ensures Collected(frames, key) == Payloads(ps)
    decreases |frames|
  {
    hide Process, InBounds;
    if frames == [] {
    } else {
      CollectedPayloads(frames[1..], ps[1..], key);
    }
  }

  /**
    A split list arrives: for every list of items, every encryption type the receiver reads and every cut of the
    bytes into reads, a receiver that does not close the socket gets one frame for each packet and their data, joined,
    is the list's bytes.
   */
  lemma SplitArrives(base: Message, data: seq<seq<byte>>, itemSize: nat, key: u32,
                     chunks: seq<seq<byte>>, ps: seq<W.Outgoing>)
    requires base.Valid() && base.Readable() && Items(data, itemSize)
    requires ps == Split(base, 37, data, PerPacket(itemSize))
    requires F.Concat(chunks) == F.Concat(W.Wires(ps, key))
    ensures var r := F.Feed(S.HeaderSize(true), W.KeepingHandlers(), F.NeverCloses(), [], [], chunks);
            && r == F.Run(W.Wires(ps, key), [], F.Open, [])
            && |r.frames| == CeilDiv(|data|, PerPacket(itemSize))
            && (forall i :: 0 <= i < |r.frames| ==> InBounds(true, r.frames[i]))
            && Collected(r.frames, key) == F.Concat(data)
  {
    hide Process, InBounds, Split, F.Feed, F.Concat, F.ClosedIn, Payloads, Collected, S.HeaderSize;
    SplitStamped(base, 37, data, itemSize);
    forall i | 0 <= i < |ps| ensures W.Arrived(ps[i]) == ps[i] {
      assert Stamped(base, ExtraOf(37, i), ps[i]);
    }
    W.WireDelivers(ps, key, F.NeverCloses(), chunks);
    F.NeverClosed(W.Wires(ps, key));
    CollectedPayloads(W.Wires(ps, key), ps, key);
    SplitTiles(base, 37, data, PerPacket(itemSize));
    SplitCount(base, 37, data, PerPacket(itemSize));
  }

  // ---------------------------------------------------------------- the session

  class Session {
    var packet: Message
    var sent: seq<Message>

    /** The packets go out in order; the session's packet is overwritten each time. */
    method SendSeparatePackets(data: seq<seq<byte>>, itemSize: nat)
      requires packet.Valid() && Items(data, itemSize)
      modifies this
      ensures sent == old(sent) + Split(old(packet), 37, data, PerPacket(itemSize))
      ensures packet == if data == [] then old(packet) else sent[|sent| - 1]
    {
      hide Split, F.Concat, Restamped, From, PerPacket, CeilDiv, StartOf, Piece;
      var n := PerPacket(itemSize);
      var totalPackets := CeilDiv(|data|, n);
      var packetIndex := 0;
      ghost var base, start := packet, 0;
      Ceiling(|data|, n, 0);
      FromEnds(data, 0);
      RestampedSelf(base);
      while packetIndex < totalPackets
        invariant packetIndex <= totalPackets && start == StartOf(packetIndex, n)
        invariant sent + Split(base, ExtraOf(37, packetIndex), From(data, start), n)
               == old(sent) + Split(base, 37, data, n)
        invariant Restamped(base, packet)
        invariant packetIndex == 0 ==> packet == base
        invariant packetIndex > 0 ==> |sent| > 0 && packet == sent[|sent| - 1]
      {
        Ceiling(|data|, n, packetIndex);
        var startIndex := StartOf(packetIndex, n);
        var currentSize := if n < |data| - startIndex then n else |data| - startIndex;
        var currentData := data[startIndex..startIndex + currentSize];
        FromTurn(data, startIndex, n);
        SplitTurn(base, ExtraOf(37, packetIndex), From(data, startIndex), n);
        var bytes := ItemBytes(currentData);
        RestampedPiece(base, packet, ExtraOf(37, packetIndex), currentData);
        packet := Message(packet.header.SetSize(8 + |bytes|),
                          packet.command.SetExtra(if packetIndex == 0 then 37 else 0).SetOption(currentSize), bytes);
        Associate(sent, [packet], Split(base, 0, From(data, startIndex + n), n));
        sent := sent + [packet];
        packetIndex := packetIndex + 1;
        start := start + n;
      }
      Ceiling(|data|, n, packetIndex);
      FromEnds(data, start);
      SplitNothing(base, ExtraOf(37, packetIndex), n);
      assert data == [] <==> packetIndex == 0;
      assert sent + [] == sent;
    }

    static method ItemBytes(items: seq<seq<byte>>) returns (b: seq<byte>)
      ensures b == F.Concat(items)
    {
      b := [];
      var k := 0;
      assert items[0..] == items;
      while k < |items|
        invariant k <= |items| && b + F.Concat(items[k..]) == F.Concat(items)
      {
        assert items[k..][1..] == items[k + 1..];
        b := b + items[k];
        k := k + 1;
      }
    }
  }

  /** Equal but for size, extra, option and data. */
  predicate Restamped(base: Message, p: Message)
  {
    && p.Valid() && p.header.(size := base.header.size) == base.header
    && p.command.(extra := base.command.extra, option := base.command.option) == base.command
  }

  /** The items from position `start` on. */
  function From(data: seq<seq<byte>>, start: nat): seq<seq<byte>> { if start <= |data| then data[start..] else [] }

  lemma FromEnds(data: seq<seq<byte>>, start: nat)
    ensures From(data, 0) == data && (start >= |data| ==> From(data, start) == [])
  {
  }

  lemma FromTurn(data: seq<seq<byte>>, start: nat, n: nat)
    requires start < |data| && n >= 1
    ensures var left, k := From(data, start), if n < |data| - start then n else |data| - start;
            && |left| == |data| - start && left[..k] == data[start..start + k] && left[k..] == From(data, start + n)
  {
  }

  lemma SplitTurn(base: Message, extra: nat, left: seq<seq<byte>>, n: nat)
    requires n >= 1 && left != []
    ensures var k := if n < |left| then n else |left|;
            Split(base, extra, left, n) == [Piece(base, extra, left[..k])] + Split(base, 0, left[k..], n)
  {
    assert left[..|left|] == left;
  }

  lemma RestampedSelf(base: Message)
    requires base.Valid()
    ensures Restamped(base, base)
  {
  }

  lemma RestampedPiece(base: Message, p: Message, extra: nat, items: seq<seq<byte>>)
    requires Restamped(base, p) && base.Valid()
    ensures var b := F.Concat(items);
            var q := Message(p.header.SetSize(8 + |b|), p.command.SetExtra(extra).SetOption(|items|), b);
            q == Piece(base, extra, items) && Restamped(base, q)
  {
    hide F.Concat;
  }

  lemma SplitNothing(base: Message, extra: nat, n: nat)
    requires n >= 1
    ensures Split(base, extra, [], n) == []
  {
  }
}
