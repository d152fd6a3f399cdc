/**
  Cutting a byte stream into frames (Session::onRead), and why it does not matter how the stream was cut into
  reads.

  `size` reads the announced size off a frame's first four bytes; `keeps` says whether the handler of a frame
  leaves the receive buffer alone (the Auth and Cast sessions clear it on an order without a callback); `closes` is
  asked with the frames delivered so far and says whether the handler of the last of them closes the socket.
 */
module Framing {
  import opened Words

  const HEADER := 4
  const LIMIT := 1450

  /**
    Open: waiting for more bytes. Closed: a frame announced `LIMIT` bytes or more. Stuck: a frame announced no
    bytes at all and its handler left the buffer alone, so the loop of onRead delivers it again and again.
   */
  datatype Status = Open | Closed | Stuck

  /** What one run of the loop delivers, and what it leaves in the buffer. */
  datatype Outcome = Outcome(frames: seq<seq<byte>>, rest: seq<byte>, status: Status)

  function Drain(size: seq<byte> -> nat, keeps: seq<byte> -> bool, buf: seq<byte>): (o: Outcome)
    decreases |buf|
  {
    if |buf| < HEADER then Outcome([], buf, Open)
    else
      var n := size(buf[..HEADER]);
      if n >= LIMIT then Outcome([], buf, Closed)
      else if |buf| < n then Outcome([], buf, Open)
      else if !keeps(buf[..n]) then Outcome([buf[..n]], [], Open)
      else if n == 0 then Outcome([buf[..n]], buf, Stuck)
      else
        var o := Drain(size, keeps, buf[n..]);
        o.(frames := [buf[..n]] + o.frames)
  }

  /** One turn of the loop. */
  lemma DrainTurn(size: seq<byte> -> nat, keeps: seq<byte> -> bool, buf: seq<byte>)
    ensures Drain(size, keeps, buf)
         == if |buf| < HEADER then Outcome([], buf, Open)
            else
              var n := size(buf[..HEADER]);
              if n >= LIMIT then Outcome([], buf, Closed)
              else if |buf| < n then Outcome([], buf, Open)
              else if !keeps(buf[..n]) then Outcome([buf[..n]], [], Open)
              else if n == 0 then Outcome([buf[..n]], buf, Stuck)
              else
                var o := Drain(size, keeps, buf[n..]);
                o.(frames := [buf[..n]] + o.frames)
  {
  }

  /** Some handler of the frames delivered behind `past` closes the socket. */
  predicate ClosedIn(closes: seq<seq<byte>> -> bool, past: seq<seq<byte>>, frames: seq<seq<byte>>)
  {
    exists k :: 1 <= k <= |frames| && closes(past + frames[..k])
  }

  function NeverCloses(): seq<seq<byte>> -> bool { _ => false }

  /** How one read leaves the socket: a handler that closes it does not stop the loop. */
  function After(o: Outcome, closed: bool): Status { if o.status == Open && closed then Closed else o.status }

  /** What a whole connection delivers: reads are appended until one of them leaves the socket closed. */
  datatype Run = Run(frames: seq<seq<byte>>, rest: seq<byte>, status: Status, unread: seq<seq<byte>>)

  function Feed(size: seq<byte> -> nat, keeps: seq<byte> -> bool, closes: seq<seq<byte>> -> bool,
                past: seq<seq<byte>>, buf: seq<byte>, chunks: seq<seq<byte>>): (r: Run)
    ensures |r.unread| <= |chunks|
    decreases |chunks|
  {
    if chunks == [] then Run([], buf, Open, [])
    else
      var o := Drain(size, keeps, buf + chunks[0]);
      var after := After(o, ClosedIn(closes, past, o.frames));
      if after != Open then Run(o.frames, o.rest, after, chunks[1..])
      else
        var r := Feed(size, keeps, closes, past + o.frames, o.rest, chunks[1..]);
        r.(frames := o.frames + r.frames)
  }

  /** One read of the connection. */
  lemma FeedTurn(size: seq<byte> -> nat, keeps: seq<byte> -> bool, closes: seq<seq<byte>> -> bool,
                 past: seq<seq<byte>>, buf: seq<byte>, chunks: seq<seq<byte>>)
    ensures Feed(size, keeps, closes, past, buf, chunks)
         == if chunks == [] then Run([], buf, Open, [])
            else
              var o := Drain(size, keeps, buf + chunks[0]);
              var after := After(o, ClosedIn(closes, past, o.frames));
              if after != Open then Run(o.frames, o.rest, after, chunks[1..])
              else
                var r := Feed(size, keeps, closes, past + o.frames, o.rest, chunks[1..]);
                r.(frames := o.frames + r.frames)
  {
    hide Drain, ClosedIn, After;
  }

  /** The reads that were taken before the socket was closed or the loop ran forever. */
  function Taken(chunks: seq<seq<byte>>, run: Run): seq<seq<byte>>
    requires |run.unread| <= |chunks|
  {
    chunks[..|chunks| - |run.unread|]
  }

  function Concat(parts: seq<seq<byte>>): (s: seq<byte>)
  {
    if parts == [] then [] else parts[0] + Concat(parts[1..])
  }

  /** No delivered frame makes its handler clear the buffer. */
  predicate AllKept(keeps: seq<byte> -> bool, frames: seq<seq<byte>>)
  {
    forall f :: f in frames ==> keeps(f)
  }

  /** Whatever the peer sent, a connection that stays open holds fewer than `LIMIT` bytes. */
  lemma {:induction false} LeftoverBounded(size: seq<byte> -> nat, keeps: seq<byte> -> bool, buf: seq<byte>)
    ensures var o := Drain(size, keeps, buf);
            o.status == Open ==> |o.rest| < LIMIT && Drain(size, keeps, o.rest) == Outcome([], o.rest, Open)
    decreases |buf|
  {
    if |buf| < HEADER {
    } else {
      var n := size(buf[..HEADER]);
      if 0 < n < LIMIT && n <= |buf| && keeps(buf[..n]) {
        LeftoverBounded(size, keeps, buf[n..]);
      }
    }
  }

  /** The first complete frame of a buffer is delivered first, whatever follows the buffer. */
  lemma DrainFirst(size: seq<byte> -> nat, keeps: seq<byte> -> bool, a: seq<byte>, b: seq<byte>)
    requires |a| >= HEADER && 0 < size(a[..HEADER]) < LIMIT && size(a[..HEADER]) <= |a|
    requires keeps(a[..size(a[..HEADER])])
    ensures var n := size(a[..HEADER]);
            var tail, later := Drain(size, keeps, a[n..]), Drain(size, keeps, a[n..] + b);
            && Drain(size, keeps, a) == tail.(frames := [a[..n]] + tail.frames)
            && Drain(size, keeps, a + b) == later.(frames := [a[..n]] + later.frames)
  {
    var n := size(a[..HEADER]);
    assert (a + b)[..HEADER] == a[..HEADER] && (a + b)[..n] == a[..n] && (a + b)[n..] == a[n..] + b;
  }

  /** Draining `a` first and the leftover with `b` behind it later is draining both at once. */
  lemma {:induction false} DrainAppend(size: seq<byte> -> nat, keeps: seq<byte> -> bool, a: seq<byte>, b: seq<byte>)
    requires AllKept(keeps, Drain(size, keeps, a).frames)
    ensures var first, all := Drain(size, keeps, a), Drain(size, keeps, a + b);
            if first.status == Open then
              var then_ := Drain(size, keeps, first.rest + b);
              all == then_.(frames := first.frames + then_.frames)
            else
              all == first.(rest := first.rest + b)
    decreases |a|, 1
  {
    if |a| < HEADER {
    } else {
      assert (a + b)[..HEADER] == a[..HEADER];
      var n := size(a[..HEADER]);
      if n < LIMIT && n <= |a| {
        assert (a + b)[..n] == a[..n];
        assert Drain(size, keeps, a).frames[0] == a[..n];
        if n > 0 {
          DrainFirst(size, keeps, a, b);
          KeptSuffix(keeps, [a[..n]], Drain(size, keeps, a[n..]).frames);
          AppendAfter(size, keeps, a, b);
        }
      }
    }
  }

  lemma {:induction false} AppendAfter(size: seq<byte> -> nat, keeps: seq<byte> -> bool, a: seq<byte>, b: seq<byte>)
    requires |a| >= HEADER && 0 < size(a[..HEADER]) <= |a|
    requires var n := size(a[..HEADER]);
             var tail, later := Drain(size, keeps, a[n..]), Drain(size, keeps, a[n..] + b);
             && AllKept(keeps, tail.frames)
             && Drain(size, keeps, a) == tail.(frames := [a[..n]] + tail.frames)
             && Drain(size, keeps, a + b) == later.(frames := [a[..n]] + later.frames)
    ensures var first, all := Drain(size, keeps, a), Drain(size, keeps, a + b);
            if first.status == Open then
              var then_ := Drain(size, keeps, first.rest + b);
              all == then_.(frames := first.frames + then_.frames)
            else
              all == first.(rest := first.rest + b)
    decreases |a|, 0
  {
    hide Drain;
    DrainAppend(size, keeps, a[size(a[..HEADER])..], b);
  }

  lemma KeptSuffix(keeps: seq<byte> -> bool, first: seq<seq<byte>>, later: seq<seq<byte>>)
    requires AllKept(keeps, first + later)
    ensures AllKept(keeps, later)
  {
    forall f | f in later ensures keeps(f) {
      assert f in first + later;
    }
  }

  /** When all frames of a buffer are kept, so are those of its beginning. */
  lemma {:induction false} KeptPrefix(size: seq<byte> -> nat, keeps: seq<byte> -> bool, a: seq<byte>, b: seq<byte>)
    requires AllKept(keeps, Drain(size, keeps, a + b).frames)
    ensures AllKept(keeps, Drain(size, keeps, a).frames)
    decreases |a|
  {
    if |a| < HEADER {
    } else {
      assert (a + b)[..HEADER] == a[..HEADER];
      var n := size(a[..HEADER]);
      if n < LIMIT && n <= |a| {
        assert (a + b)[..n] == a[..n] && (a + b)[n..] == a[n..] + b;
        assert Drain(size, keeps, a + b).frames[0] == a[..n];
        if n > 0 {
          DrainFirst(size, keeps, a, b);
          KeptSuffix(keeps, [a[..n]], Drain(size, keeps, a[n..] + b).frames);
          KeptPrefix(size, keeps, a[n..], b);
        }
      }
    }
  }

  lemma {:induction false} ConcatAppend(a: seq<seq<byte>>, b: seq<seq<byte>>)
    ensures Concat(a + b) == Concat(a) + Concat(b)
    decreases |a|
  {
    if a == [] {
      assert a + b == b;
    } else {
      assert (a + b)[1..] == a[1..] + b;
      ConcatAppend(a[1..], b);
    }
  }

  lemma ClosedInAppend(closes: seq<seq<byte>> -> bool, past: seq<seq<byte>>, a: seq<seq<byte>>, b: seq<seq<byte>>)
    ensures ClosedIn(closes, past, a + b) <==> ClosedIn(closes, past, a) || ClosedIn(closes, past + a, b)
  {
    forall k | 1 <= k <= |a| ensures (a + b)[..k] == a[..k] {
    }
    forall k | 1 <= k <= |b| ensures past + (a + b)[..|a| + k] == past + a + b[..k] {
    }
    if ClosedIn(closes, past, a + b) {
      var k :| 1 <= k <= |a + b| && closes(past + (a + b)[..k]);
      assert k > |a| ==> past + (a + b)[..|a| + (k - |a|)] == past + a + b[..k - |a|];
    }
    if ClosedIn(closes, past, a) {
      var k :| 1 <= k <= |a| && closes(past + a[..k]);
      assert closes(past + (a + b)[..k]);
    }
    if ClosedIn(closes, past + a, b) {
      var k :| 1 <= k <= |b| && closes(past + a + b[..k]);
      assert closes(past + (a + b)[..|a| + k]);
    }
  }

  /** The run did what one read with that outcome does. */
  predicate ActsAs(run: Run, o: Outcome, closed: bool)
  {
    && run.frames == o.frames && run.rest == o.rest && run.status == After(o, closed)
    && (run.status == Open ==> run.unread == [])
  }

  lemma ActsBehind(first: seq<seq<byte>>, run: Run, o: Outcome, closed: bool)
    requires ActsAs(run, o, closed)
    ensures ActsAs(run.(frames := first + run.frames), o.(frames := first + o.frames), closed)
  {
  }

  /** The reads that were taken act as one read of their bytes, whatever the handlers close. */
  lemma {:induction false} TakenAsOne(size: seq<byte> -> nat, keeps: seq<byte> -> bool, closes: seq<seq<byte>> -> bool,
                                      past: seq<seq<byte>>, buf: seq<byte>, chunks: seq<seq<byte>>)
    requires Drain(size, keeps, buf) == Outcome([], buf, Open)
    requires var run := Feed(size, keeps, closes, past, buf, chunks);
             AllKept(keeps, Drain(size, keeps, buf + Concat(Taken(chunks, run))).frames)
    ensures var run := Feed(size, keeps, closes, past, buf, chunks);
            var o := Drain(size, keeps, buf + Concat(Taken(chunks, run)));
            ActsAs(run, o, ClosedIn(closes, past, o.frames))
    decreases |chunks|
  {
    FeedTurn(size, keeps, closes, past, buf, chunks);
    if chunks == [] {
      hide Drain, ClosedIn;
      assert buf + Concat([]) == buf;
      NothingClosed(closes, past);
    } else {
      hide Drain, ClosedIn, Feed, ActsAs, AllKept;
      var first := Drain(size, keeps, buf + chunks[0]);
      if After(first, ClosedIn(closes, past, first.frames)) != Open {
        ConcatOne(chunks[0]);
        assert chunks[..1] == [chunks[0]];
        ActsAsItself(first, ClosedIn(closes, past, first.frames), chunks[1..]);
      } else {
        var r := Feed(size, keeps, closes, past + first.frames, first.rest, chunks[1..]);
        var later := Taken(chunks[1..], r);
        assert chunks[..|chunks| - |r.unread|] == [chunks[0]] + later;
        FirstTaken(buf, chunks[0], later);
        KeptPrefix(size, keeps, buf + chunks[0], Concat(later));
        DrainAppend(size, keeps, buf + chunks[0], Concat(later));
        LeftoverBounded(size, keeps, buf + chunks[0]);
        var o := Drain(size, keeps, first.rest + Concat(later));
        KeptSuffix(keeps, first.frames, o.frames);
        TakenAsOne(size, keeps, closes, past + first.frames, first.rest, chunks[1..]);
        ClosedInAppend(closes, past, first.frames, o.frames);
        ActsBehind(first.frames, r, o, ClosedIn(closes, past + first.frames, o.frames));
      }
    }
  }

  lemma ActsAsItself(o: Outcome, closed: bool, unread: seq<seq<byte>>)
    requires After(o, closed) != Open
    ensures ActsAs(Run(o.frames, o.rest, After(o, closed), unread), o, closed)
  {
  }

  lemma ConcatOne(s: seq<byte>)
    ensures Concat([s]) == s
  {
    assert [s][1..] == [] && s + Concat([]) == s;
  }

  lemma FirstTaken(buf: seq<byte>, s: seq<byte>, later: seq<seq<byte>>)
    ensures buf + Concat([s] + later) == (buf + s) + Concat(later)
  {
    assert ([s] + later)[1..] == later;
  }

  lemma NothingClosed(closes: seq<seq<byte>> -> bool, past: seq<seq<byte>>)
    ensures !ClosedIn(closes, past, [])
  {
  }

  lemma OneClosed(closes: seq<seq<byte>> -> bool, past: seq<seq<byte>>, f: seq<byte>)
    ensures ClosedIn(closes, past, [f]) <==> closes(past + [f])
  {
    assert [f][..1] == [f];
  }

  /** No handler closes the socket while another frame is still to come. */
  predicate OnlyLastCloses(closes: seq<seq<byte>> -> bool, past: seq<seq<byte>>, frames: seq<seq<byte>>)
  {
    frames == [] || !ClosedIn(closes, past, frames[..|frames| - 1])
  }

  /**
    Chunking independence. However a stream is cut into reads, the connection delivers the same frames and ends
    in the same status as one read of the whole stream, a loop without end included, while no handler but that of the
    last frame closes the socket. Bytes that arrive after a close or behind an endless loop are never read: they are
    missing from the leftover exactly as `unread`.
   */
  lemma ChunkingIrrelevant(size: seq<byte> -> nat, keeps: seq<byte> -> bool, closes: seq<seq<byte>> -> bool,
                           past: seq<seq<byte>>, buf: seq<byte>, chunks: seq<seq<byte>>)
    requires Drain(size, keeps, buf) == Outcome([], buf, Open)
    requires var all := Drain(size, keeps, buf + Concat(chunks));
             AllKept(keeps, all.frames) && OnlyLastCloses(closes, past, all.frames)
    ensures var run := Feed(size, keeps, closes, past, buf, chunks);
            var all := Drain(size, keeps, buf + Concat(chunks));
            && run.frames == all.frames && run.status == After(all, ClosedIn(closes, past, all.frames))
            && run.rest + Concat(run.unread) == all.rest
            && (run.status == Open ==> run.unread == [])
  {
    hide Drain, Feed, ClosedIn, OnlyLastCloses;
    var run := Feed(size, keeps, closes, past, buf, chunks);
    var a, b := buf + Concat(Taken(chunks, run)), Concat(run.unread);
    TakenSplit(size, keeps, closes, past, buf, chunks);
    assert buf + Concat(chunks) == a + b;
    KeptPrefix(size, keeps, a, b);
    TakenAsOne(size, keeps, closes, past, buf, chunks);
    DrainAppend(size, keeps, a, b);
    var o := Drain(size, keeps, a);
    if o.status == Open && run.status == Open {
      assert b == [] && a + b == a by { assert Concat([]) == []; }
    } else if o.status == Open {
      var later := Drain(size, keeps, o.rest + b);
      LastClosed(closes, past, o.frames, later.frames);
      NoFrames(size, keeps, o.rest + b);
      assert o.frames + [] == o.frames;
    }
  }

  lemma {:induction false} TakenSplit(size: seq<byte> -> nat, keeps: seq<byte> -> bool, closes: seq<seq<byte>> -> bool,
                                      past: seq<seq<byte>>, buf: seq<byte>, chunks: seq<seq<byte>>)
    ensures var run := Feed(size, keeps, closes, past, buf, chunks);
            && Taken(chunks, run) + run.unread == chunks
            && Concat(chunks) == Concat(Taken(chunks, run)) + Concat(run.unread)
    decreases |chunks|
  {
    hide Drain, ClosedIn, After, Concat;
    var run := Feed(size, keeps, closes, past, buf, chunks);
    FeedTurn(size, keeps, closes, past, buf, chunks);
    if chunks == [] {
    } else {
      var o := Drain(size, keeps, buf + chunks[0]);
      if After(o, ClosedIn(closes, past, o.frames)) == Open {
        TakenSplit(size, keeps, closes, past + o.frames, o.rest, chunks[1..]);
        var r := Feed(size, keeps, closes, past + o.frames, o.rest, chunks[1..]);
        assert Taken(chunks, run) == [chunks[0]] + Taken(chunks[1..], r);
        assert [chunks[0]] + chunks[1..] == chunks;
      }
    }
    ConcatAppend(Taken(chunks, run), run.unread);
  }

  /** When only the last frame closes and what was delivered is closed, nothing is left to deliver. */
  lemma LastClosed(closes: seq<seq<byte>> -> bool, past: seq<seq<byte>>, a: seq<seq<byte>>, b: seq<seq<byte>>)
    requires OnlyLastCloses(closes, past, a + b) && ClosedIn(closes, past, a)
    ensures b == []
  {
    if b != [] {
      var most := b[..|b| - 1];
      assert (a + b)[..|a + b| - 1] == a + most;
      ClosedInAppend(closes, past, a, most);
      assert false;
    }
  }

  lemma NoFrames(size: seq<byte> -> nat, keeps: seq<byte> -> bool, buf: seq<byte>)
    ensures Drain(size, keeps, buf).frames == [] ==> Drain(size, keeps, buf).rest == buf
    ensures Drain(size, keeps, buf).frames == [] ==> Drain(size, keeps, buf).status != Stuck
  {
  }

  /** A frame as the sender makes it: the header announces its true size, and the handler keeps the buffer. */
  predicate WholeFrame(size: seq<byte> -> nat, keeps: seq<byte> -> bool, f: seq<byte>)
  {
    HEADER <= |f| < LIMIT && size(f[..HEADER]) == |f| && keeps(f)
  }

  lemma {:induction false} DrainFrames(size: seq<byte> -> nat, keeps: seq<byte> -> bool, frames: seq<seq<byte>>)
    requires forall f :: f in frames ==> WholeFrame(size, keeps, f)
    ensures Drain(size, keeps, Concat(frames)) == Outcome(frames, [], Open)
    decreases |frames|
  {
    if frames == [] {
    } else {
      var f, s := frames[0], Concat(frames);
      assert WholeFrame(size, keeps, f);
      assert s[..HEADER] == f[..HEADER] && s[..|f|] == f && s[|f|..] == Concat(frames[1..]);
      DrainFrames(size, keeps, frames[1..]);
    }
  }

  /**
    A list of whole frames is delivered in order by every way of cutting its bytes into reads, up to some frame at or
    behind the first whose handler closes the socket; if none does, as that list.
   */
  lemma FramesDelivered(size: seq<byte> -> nat, keeps: seq<byte> -> bool, closes: seq<seq<byte>> -> bool,
                        frames: seq<seq<byte>>, chunks: seq<seq<byte>>)
    requires forall f :: f in frames ==> WholeFrame(size, keeps, f)
    requires Concat(chunks) == Concat(frames)
    ensures var run := Feed(size, keeps, closes, [], [], chunks);
            && run.frames <= frames && (run.frames != frames ==> ClosedIn(closes, [], run.frames))
            && (run.status == Open <==> !ClosedIn(closes, [], run.frames))
    ensures !ClosedIn(closes, [], frames) ==> Feed(size, keeps, closes, [], [], chunks) == Run(frames, [], Open, [])
  {
    hide Drain, Feed, ClosedIn, WholeFrame;
    var run := Feed(size, keeps, closes, [], [], chunks);
    var read := Concat(Taken(chunks, run));
    DrainFrames(size, keeps, frames);
    FramesKept(size, keeps, frames);
    NothingYet(size, keeps);
    TakenSplit(size, keeps, closes, [], [], chunks);
    KeptPrefix(size, keeps, read, Concat(run.unread));
    assert [] + read == read;
    TakenAsOne(size, keeps, closes, [], [], chunks);
    DrainAppend(size, keeps, read, Concat(run.unread));
    var o := Drain(size, keeps, read);
    assert o.status == Open;
    var later := Drain(size, keeps, o.rest + Concat(run.unread));
    assert frames == o.frames + later.frames;
    ClosedInAppend(closes, [], o.frames, later.frames);
    if run.status == Open {
      assert run.unread == [] && Concat(run.unread) == [] && Concat(chunks) == read;
    }
  }

  lemma FramesKept(size: seq<byte> -> nat, keeps: seq<byte> -> bool, frames: seq<seq<byte>>)
    requires forall f :: f in frames ==> WholeFrame(size, keeps, f)
    ensures AllKept(keeps, frames)
  {
  }

  lemma NothingYet(size: seq<byte> -> nat, keeps: seq<byte> -> bool)
    ensures Drain(size, keeps, []) == Outcome([], [], Open)
  {
  }

  // ---------------------------------------------------------------- exactly when the cuts do not matter

  /** A frame the loop can deliver: its size is announced by four bytes that it agrees with as far as it goes. */
  predicate IsFrame(size: seq<byte> -> nat, h: seq<byte>, f: seq<byte>)
  {
    && |h| == HEADER && size(h) < LIMIT && |f| == size(h)
    && forall i :: 0 <= i < HEADER && i < |f| ==> f[i] == h[i]
  }

  /** No handler clears the receive buffer, whatever frame can reach it. */
  ghost predicate AlwaysKept(size: seq<byte> -> nat, keeps: seq<byte> -> bool)
  {
    forall h, f :: IsFrame(size, h, f) ==> keeps(f)
  }

  /** Two reads deliver what one read of the same bytes delivers, when no handler closes the socket. */
  ghost predicate TwoReadsAgree(size: seq<byte> -> nat, keeps: seq<byte> -> bool)
  {
    forall s, t :: Feed(size, keeps, NeverCloses(), [], [], [s, t]).frames == Drain(size, keeps, s + t).frames
  }

  /** So does any number of reads, and it ends in the same status and with the same bytes. */
  ghost predicate AllReadsAgree(size: seq<byte> -> nat, keeps: seq<byte> -> bool)
  {
    forall chunks :: ReadsAgree(size, keeps, NeverCloses(), chunks)
  }

  predicate ReadsAgree(size: seq<byte> -> nat, keeps: seq<byte> -> bool, closes: seq<seq<byte>> -> bool,
                       chunks: seq<seq<byte>>)
  {
    var run, all := Feed(size, keeps, closes, [], [], chunks), Drain(size, keeps, Concat(chunks));
    && run.frames == all.frames && run.status == After(all, ClosedIn(closes, [], all.frames))
    && run.rest + Concat(run.unread) == all.rest
  }

  lemma {:induction false} DrainedAreFrames(size: seq<byte> -> nat, keeps: seq<byte> -> bool, buf: seq<byte>)
    requires AlwaysKept(size, keeps)
    ensures AllKept(keeps, Drain(size, keeps, buf).frames)
    decreases |buf|
  {
    if |buf| < HEADER {
    } else {
      var n := size(buf[..HEADER]);
      if n < LIMIT && n <= |buf| {
        assert IsFrame(size, buf[..HEADER], buf[..n]);
        if n > 0 {
          DrainedAreFrames(size, keeps, buf[n..]);
        }
      }
    }
  }

  lemma KeptReadsAgree(size: seq<byte> -> nat, keeps: seq<byte> -> bool, closes: seq<seq<byte>> -> bool,
                       chunks: seq<seq<byte>>)
    requires AllKept(keeps, Drain(size, keeps, Concat(chunks)).frames)
    requires OnlyLastCloses(closes, [], Drain(size, keeps, Concat(chunks)).frames)
    ensures ReadsAgree(size, keeps, closes, chunks)
  {
    hide Drain, Feed, ClosedIn, OnlyLastCloses;
    NothingYet(size, keeps);
    assert [] + Concat(chunks) == Concat(chunks);
    ChunkingIrrelevant(size, keeps, closes, [], [], chunks);
  }

  lemma NeverClosed(frames: seq<seq<byte>>)
    ensures !ClosedIn(NeverCloses(), [], frames) && OnlyLastCloses(NeverCloses(), [], frames)
  {
  }

  /** The shortest buffer that delivers the frame. */
  function Carrier(h: seq<byte>, f: seq<byte>): seq<byte> { if |f| >= HEADER then f else h }

  /** A frame whose handler clears the buffer, sent twice: two reads deliver it twice, one read only once. */
  lemma UnkeptDependsOnCuts(size: seq<byte> -> nat, keeps: seq<byte> -> bool, h: seq<byte>, f: seq<byte>)
    requires IsFrame(size, h, f) && !keeps(f)
    ensures var s := Carrier(h, f);
            && Drain(size, keeps, s + s) == Outcome([f], [], Open)
            && Feed(size, keeps, NeverCloses(), [], [], [s, s]).frames == [f, f]
  {
    var s: seq<byte> := Carrier(h, f);
    UnkeptDrained(size, keeps, h, f, []);
    UnkeptDrained(size, keeps, h, f, s);
    assert s + [] == s && [] + s == s;
    var last: seq<seq<byte>> := [s];
    assert [s, s][1..] == last && last[1..] == [];
    NeverClosed([f]);
    FeedTurn(size, keeps, NeverCloses(), [], [], [s, s]);
    FeedTurn(size, keeps, NeverCloses(), [f], [], [s]);
    FeedTurn(size, keeps, NeverCloses(), [f] + [f], [], []);
  }

  lemma UnkeptDrained(size: seq<byte> -> nat, keeps: seq<byte> -> bool, h: seq<byte>, f: seq<byte>, t: seq<byte>)
    requires IsFrame(size, h, f) && !keeps(f)
    ensures Drain(size, keeps, Carrier(h, f) + t) == Outcome([f], [], Open)
  {
    var s := Carrier(h, f) + t;
    assert s[..HEADER] == h && s[..|f|] == f;
  }

  lemma ConcatPair(s: seq<byte>, t: seq<byte>)
    ensures Concat([s, t]) == s + t
  {
    assert [s, t][1..] == [t] && [t][1..] == [];
    assert t + [] == t && Concat([]) == [];
  }

  /**
    Exactly when the cuts do not matter: two reads agree with one for every stream, and then any number of reads,
    if and only if no frame that can be delivered makes its handler clear the buffer.
   */
  lemma CutsAgreeIff(size: seq<byte> -> nat, keeps: seq<byte> -> bool)
    ensures TwoReadsAgree(size, keeps) <==> AlwaysKept(size, keeps)
    ensures AllReadsAgree(size, keeps) <==> AlwaysKept(size, keeps)
  {
    hide Drain, Feed, IsFrame;
    if AlwaysKept(size, keeps) {
      forall chunks ensures ReadsAgree(size, keeps, NeverCloses(), chunks) {
        AlwaysKeptAgrees(size, keeps, chunks);
      }
      forall s, t ensures Feed(size, keeps, NeverCloses(), [], [], [s, t]).frames == Drain(size, keeps, s + t).frames {
        ConcatPair(s, t);
        AlwaysKeptAgrees(size, keeps, [s, t]);
      }
    } else {
      var h, f :| IsFrame(size, h, f) && !keeps(f);
      var s := Carrier(h, f);
      UnkeptDependsOnCuts(size, keeps, h, f);
      ConcatPair(s, s);
      assert !ReadsAgree(size, keeps, NeverCloses(), [s, s]);
    }
  }

  lemma AlwaysKeptAgrees(size: seq<byte> -> nat, keeps: seq<byte> -> bool, chunks: seq<seq<byte>>)
    requires AlwaysKept(size, keeps)
    ensures ReadsAgree(size, keeps, NeverCloses(), chunks)
  {
    hide Drain, Feed, AlwaysKept;
    DrainedAreFrames(size, keeps, Concat(chunks));
    NeverClosed(Drain(size, keeps, Concat(chunks)).frames);
    KeptReadsAgree(size, keeps, NeverCloses(), chunks);
  }

  lemma Cut(buf: seq<byte>, n: nat, p: nat)
    requires n <= p <= |buf|
    ensures buf[..p][..n] == buf[..n] && buf[..p][n..] == buf[n..][..p - n]
  {
  }

  /** A first frame with frames behind it is complete, kept and not empty. */
  lemma FirstOfMany(size: seq<byte> -> nat, keeps: seq<byte> -> bool, buf: seq<byte>)
    requires |Drain(size, keeps, buf).frames| > 1
    ensures |buf| >= HEADER
    ensures var n := size(buf[..HEADER]);
            && 0 < n < LIMIT && n <= |buf| && keeps(buf[..n])
            && Drain(size, keeps, buf).frames == [buf[..n]] + Drain(size, keeps, buf[n..]).frames
  {
  }

  /** The first `k` frames, when more follow, are what some beginning of the buffer delivers. */
  lemma {:induction false} CutBehind(size: seq<byte> -> nat, keeps: seq<byte> -> bool, buf: seq<byte>, k: nat)
    returns (p: nat)
    requires 1 <= k < |Drain(size, keeps, buf).frames|
    ensures HEADER <= p <= |buf| && Drain(size, keeps, buf[..p]).frames == Drain(size, keeps, buf).frames[..k]
    decreases k
  {
    hide Drain;
    FirstOfMany(size, keeps, buf);
    var n := size(buf[..HEADER]);
    if k == 1 {
      p := if n < HEADER then HEADER else n;
    } else {
      var q := CutBehind(size, keeps, buf[n..], k - 1);
      p := n + q;
    }
    Cut(buf, HEADER, p);
    Cut(buf, n, p);
    DrainTurn(size, keeps, buf[..p]);
    if k == 1 {
      DrainTurn(size, keeps, buf[n..][..p - n]);
    }
  }

  /**
    With handlers that close the socket, stream by stream: every cut agrees with one read if and only if no handler
    closes it while another frame is still to come.
   */
  lemma StreamAgreesIff(size: seq<byte> -> nat, keeps: seq<byte> -> bool, closes: seq<seq<byte>> -> bool, s: seq<byte>)
    requires AllKept(keeps, Drain(size, keeps, s).frames)
    ensures (forall chunks :: Concat(chunks) == s ==> ReadsAgree(size, keeps, closes, chunks))
       <==> OnlyLastCloses(closes, [], Drain(size, keeps, s).frames)
  {
    hide Drain, Feed, ClosedIn, OnlyLastCloses, ReadsAgree;
    var frames := Drain(size, keeps, s).frames;
    if OnlyLastCloses(closes, [], frames) {
      forall chunks | Concat(chunks) == s ensures ReadsAgree(size, keeps, closes, chunks) {
        KeptReadsAgree(size, keeps, closes, chunks);
      }
    } else {
      OpenBeforeLast(closes, [], frames);
      var k := |frames| - 1;
      SomeClosed(closes, [], frames[..k]);
      var p := CutBehind(size, keeps, s, k);
      ClosedCutDiffers(size, keeps, closes, s, p, k);
    }
  }

  /** A list of whole frames arrives whole by every cut exactly when no handler but the last one's closes the socket. */
  lemma WholeListIff(size: seq<byte> -> nat, keeps: seq<byte> -> bool, closes: seq<seq<byte>> -> bool,
                     frames: seq<seq<byte>>)
    requires forall f :: f in frames ==> WholeFrame(size, keeps, f)
    ensures (forall chunks :: Concat(chunks) == Concat(frames) ==>
               Feed(size, keeps, closes, [], [], chunks).frames == frames)
       <==> OnlyLastCloses(closes, [], frames)
  {
    hide Drain, Feed, ClosedIn, WholeFrame, OnlyLastCloses;
    DrainFrames(size, keeps, frames);
    FramesKept(size, keeps, frames);
    if OnlyLastCloses(closes, [], frames) {
      forall chunks | Concat(chunks) == Concat(frames)
        ensures Feed(size, keeps, closes, [], [], chunks).frames == frames
      {
        KeptReadsAgree(size, keeps, closes, chunks);
      }
    } else {
      OpenBeforeLast(closes, [], frames);
      var k, s := |frames| - 1, Concat(frames);
      SomeClosed(closes, [], frames[..k]);
      var p := CutBehind(size, keeps, s, k);
      ClosedCutDiffers(size, keeps, closes, s, p, k);
    }
  }

  lemma OpenBeforeLast(closes: seq<seq<byte>> -> bool, past: seq<seq<byte>>, frames: seq<seq<byte>>)
    requires !OnlyLastCloses(closes, past, frames)
    ensures frames != [] && ClosedIn(closes, past, frames[..|frames| - 1])
  {
  }

  lemma SomeClosed(closes: seq<seq<byte>> -> bool, past: seq<seq<byte>>, frames: seq<seq<byte>>)
    requires ClosedIn(closes, past, frames)
    ensures frames != []
  {
  }

  lemma ClosedCutDiffers(size: seq<byte> -> nat, keeps: seq<byte> -> bool, closes: seq<seq<byte>> -> bool,
                         s: seq<byte>, p: nat, k: nat)
    requires p <= |s| && k < |Drain(size, keeps, s).frames|
    requires Drain(size, keeps, s[..p]).frames == Drain(size, keeps, s).frames[..k]
    requires ClosedIn(closes, [], Drain(size, keeps, s).frames[..k])
    ensures var chunks := [s[..p], s[p..]];
            && Concat(chunks) == s && !ReadsAgree(size, keeps, closes, chunks)
            && |Feed(size, keeps, closes, [], [], chunks).frames| == k
  {
    hide Drain, ClosedIn;
    var chunks := [s[..p], s[p..]];
    ConcatPair(s[..p], s[p..]);
    assert s[..p] + s[p..] == s && [] + s[..p] == s[..p];
    FeedTurn(size, keeps, closes, [], [], chunks);
    assert |Feed(size, keeps, closes, [], [], chunks).frames| == k;
  }

  // ---------------------------------------------------------------- exactly when the loop can run forever

  /** Frames that are not empty, below the limit and kept lead from the start of the buffer exactly to `at`. */
  predicate Reaches(size: seq<byte> -> nat, keeps: seq<byte> -> bool, buf: seq<byte>, at: nat)
    decreases at
  {
    at == 0 || (|buf| >= HEADER &&
                var n := size(buf[..HEADER]);
                0 < n < LIMIT && n <= at && n <= |buf| && keeps(buf[..n]) && Reaches(size, keeps, buf[n..], at - n))
  }

  /** The four bytes at `at`, where the frames before them lead, announce an empty frame. */
  predicate HangsAt(size: seq<byte> -> nat, keeps: seq<byte> -> bool, buf: seq<byte>, at: nat)
  {
    at + HEADER <= |buf| && size(buf[at..at + HEADER]) == 0 && Reaches(size, keeps, buf, at)
  }

  /** Every frame the loop comes to announces at least one byte. */
  ghost predicate AnnouncesBytes(size: seq<byte> -> nat, keeps: seq<byte> -> bool, buf: seq<byte>)
  {
    forall at: nat :: Reaches(size, keeps, buf, at) && at + HEADER <= |buf| ==> size(buf[at..at + HEADER]) > 0
  }

  /**
    Exactly the buffers on which the loop runs forever: the handler of the empty frame keeps the buffer, and the
    frames before it lead to a header that announces no bytes.
   */
  lemma HangsAtIff(size: seq<byte> -> nat, keeps: seq<byte> -> bool, buf: seq<byte>)
    ensures Drain(size, keeps, buf).status == Stuck <==> keeps([]) && exists at :: HangsAt(size, keeps, buf, at)
  {
    hide Drain, HangsAt;
    if Drain(size, keeps, buf).status == Stuck {
      StuckHangs(size, keeps, buf);
    }
    if at :| keeps([]) && HangsAt(size, keeps, buf, at) {
      HangsStuck(size, keeps, buf, at);
    }
  }

  lemma {:induction false} StuckHangs(size: seq<byte> -> nat, keeps: seq<byte> -> bool, buf: seq<byte>)
    requires Drain(size, keeps, buf).status == Stuck
    ensures keeps([]) && exists at :: HangsAt(size, keeps, buf, at)
    decreases |buf|
  {
    var n := size(buf[..HEADER]);
    if n == 0 {
      assert buf[..n] == [] && buf[0..HEADER] == buf[..HEADER];
      assert HangsAt(size, keeps, buf, 0);
    } else {
      StuckHangs(size, keeps, buf[n..]);
      var later :| HangsAt(size, keeps, buf[n..], later);
      HangsLater(size, keeps, buf, n, later);
    }
  }

  lemma HangsLater(size: seq<byte> -> nat, keeps: seq<byte> -> bool, buf: seq<byte>, n: nat, later: nat)
    requires |buf| >= HEADER && n == size(buf[..HEADER]) && 0 < n < LIMIT && n <= |buf| && keeps(buf[..n])
    requires HangsAt(size, keeps, buf[n..], later)
    ensures HangsAt(size, keeps, buf, n + later)
  {
    assert buf[n..][later..later + HEADER] == buf[n + later..n + later + HEADER];
    assert Reaches(size, keeps, buf[n..], n + later - n);
  }

  lemma {:induction false} HangsStuck(size: seq<byte> -> nat, keeps: seq<byte> -> bool, buf: seq<byte>, at: nat)
    requires keeps([]) && HangsAt(size, keeps, buf, at)
    ensures Drain(size, keeps, buf).status == Stuck
    decreases at
  {
    var n := size(buf[..HEADER]);
    if at == 0 {
      assert buf[..n] == [] && buf[0..HEADER] == buf[..HEADER];
    } else {
      assert buf[n..][at - n..at - n + HEADER] == buf[at..at + HEADER];
      HangsStuck(size, keeps, buf[n..], at - n);
    }
  }

  /** The four bytes at `at`, where the frames before them lead, announce 1450 bytes or more. */
  predicate OversizedAt(size: seq<byte> -> nat, keeps: seq<byte> -> bool, buf: seq<byte>, at: nat)
  {
    at + 4 <= |buf| && size(buf[at..at + 4]) >= 1450 && Reaches(size, keeps, buf, at)
  }

  /**
    Exactly the buffers for which the loop itself closes the socket: the frames before it lead to a header that
    announces too much.
   */
  lemma ClosesAtIff(size: seq<byte> -> nat, keeps: seq<byte> -> bool, buf: seq<byte>)
    ensures Drain(size, keeps, buf).status == Closed <==> exists at: nat :: OversizedAt(size, keeps, buf, at)
  {
    hide Drain, OversizedAt;
    if Drain(size, keeps, buf).status == Closed {
      ClosedOversized(size, keeps, buf);
    }
    if at: nat :| OversizedAt(size, keeps, buf, at) {
      OversizedCloses(size, keeps, buf, at);
    }
  }

  lemma {:induction false} ClosedOversized(size: seq<byte> -> nat, keeps: seq<byte> -> bool, buf: seq<byte>)
    requires Drain(size, keeps, buf).status == Closed
    ensures exists at: nat :: OversizedAt(size, keeps, buf, at)
    decreases |buf|
  {
    var n := size(buf[..HEADER]);
    if n >= LIMIT {
      assert buf[0..HEADER] == buf[..HEADER];
      assert OversizedAt(size, keeps, buf, 0);
    } else {
      ClosedOversized(size, keeps, buf[n..]);
      var later: nat :| OversizedAt(size, keeps, buf[n..], later);
      assert buf[n..][later..later + HEADER] == buf[n + later..n + later + HEADER];
      assert Reaches(size, keeps, buf[n..], n + later - n);
      assert OversizedAt(size, keeps, buf, n + later);
    }
  }

  lemma {:induction false} OversizedCloses(size: seq<byte> -> nat, keeps: seq<byte> -> bool, buf: seq<byte>, at: nat)
    requires OversizedAt(size, keeps, buf, at)
    ensures Drain(size, keeps, buf).status == Closed
    decreases at
  {
    if at == 0 {
      assert buf[0..HEADER] == buf[..HEADER];
    } else {
      var n := size(buf[..HEADER]);
      assert buf[n..][at - n..at - n + HEADER] == buf[at..at + HEADER];
      OversizedCloses(size, keeps, buf[n..], at - n);
    }
  }

  /** A whole connection whose handlers keep the buffer runs forever exactly on such a stream, however it is cut. */
  lemma FeedHangsIff(size: seq<byte> -> nat, keeps: seq<byte> -> bool, chunks: seq<seq<byte>>)
    requires AlwaysKept(size, keeps)
    ensures Feed(size, keeps, NeverCloses(), [], [], chunks).status == Stuck
       <==> keeps([]) && exists at :: HangsAt(size, keeps, Concat(chunks), at)
  {
    hide HangsAt, Drain, Feed, AlwaysKept;
    AlwaysKeptAgrees(size, keeps, chunks);
    NeverClosed(Drain(size, keeps, Concat(chunks)).frames);
    HangsAtIff(size, keeps, Concat(chunks));
    if at :| keeps([]) && HangsAt(size, keeps, Concat(chunks), at) {
      assert Drain(size, keeps, Concat(chunks)).status == Stuck;
    }
    if Feed(size, keeps, NeverCloses(), [], [], chunks).status == Stuck {
      var at: nat :| HangsAt(size, keeps, Concat(chunks), at);
    }
  }

  /** So it ends on every stream whose frames announce at least one byte each. */
  lemma SizedFeedEnds(size: seq<byte> -> nat, keeps: seq<byte> -> bool, chunks: seq<seq<byte>>)
    requires AlwaysKept(size, keeps) && AnnouncesBytes(size, keeps, Concat(chunks))
    ensures Feed(size, keeps, NeverCloses(), [], [], chunks).status != Stuck
  {
    hide Feed, Reaches;
    FeedHangsIff(size, keeps, chunks);
  }

  /**
    Some buffer makes the loop run forever if and only if some header announces no bytes and the handler of the
    empty frame keeps the buffer.
   */
  lemma StuckIff(size: seq<byte> -> nat, keeps: seq<byte> -> bool)
    ensures (exists buf :: Drain(size, keeps, buf).status == Stuck)
       <==> keeps([]) && exists h :: |h| == HEADER && size(h) == 0
  {
    forall buf | Drain(size, keeps, buf).status == Stuck
      ensures keeps([]) && exists h :: |h| == HEADER && size(h) == 0
    {
      StuckHangs(size, keeps, buf);
      var at: nat :| HangsAt(size, keeps, buf, at);
      assert |buf[at..at + HEADER]| == HEADER;
    }
    if h :| |h| == HEADER && size(h) == 0 && keeps([]) {
      EmptyFrameSticks(size, keeps, h);
    }
  }

  lemma EmptyFrameSticks(size: seq<byte> -> nat, keeps: seq<byte> -> bool, h: seq<byte>)
    requires |h| == HEADER && size(h) == 0 && keeps([])
    ensures Drain(size, keeps, h) == Outcome([[]], h, Stuck)
  {
    assert h[..HEADER] == h && h[..0] == [];
  }
}
