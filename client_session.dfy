/**
 * The client's session with the frame server (client.c): sending the format
 * name, collecting the answer into a receive buffer that grows in steps of
 * `BUFSIZE` (`capture_frame`), and asking for `N` frames in a row
 * (`capture_frames`).
 *
 * The socket is modelled by what it will deliver: a sequence of events, each
 * an arrival of bytes, a pause longer than the 100 ms `select` timeout, the
 * peer closing the connection, or a read error; and by what each `write` on
 * it will do: send the whole request, send only part of it, or fail.
 */
module ClientSession {
  import opened Common
  import opened ClientFrame

  /** The receive buffer grows by this many bytes at a time. */
  const BUFSIZE: nat := 20480

  datatype Event =
    | Arrive(bytes: seq<byte>)  // bytes become available on the socket
    | Pause                     // nothing arrives before `select` times out
    | Close                     // the peer closed the connection: `read` returns 0
    | Fail                      // `read` returns -1

  /** `waittoread`: `select` reports the socket readable, unless the next thing is a pause or nothing more ever comes. */
  predicate Readable(ev: seq<Event>)
  {
    ev != [] && !ev[0].Pause?
  }

  /** The events left after `waittoread`: a pause it waited out is gone. */
  function AfterWait(ev: seq<Event>): (r: seq<Event>)
    ensures Readable(ev) ==> r == ev
    ensures ev != [] && ev[0].Pause? ==> r == ev[1..]
  {
    if ev != [] && ev[0].Pause? then ev[1..] else ev
  }

  /**
   * One `read(fd, buf, space)` on a readable socket: how many bytes it returns,
   * which bytes, and the events left. An arrival larger than `space` is read
   * in part and its remainder stays first in line.
   */
  function ReadStep(ev: seq<Event>, space: nat): (r: (int, seq<byte>, seq<Event>))
    requires Readable(ev) && space > 0
    ensures |r.1| <= space
    ensures r.0 == |r.1| || (r.0 == -1 && r.1 == [])
    ensures r.0 == 0 ==> ev[0].Close? || ev[0] == Arrive([])
    ensures r.0 < 0 <==> ev[0].Fail?
  {
    match ev[0]
    case Close => (0, [], ev)
    case Fail => (-1, [], ev[1..])
    case Arrive(b) =>
      var k := if |b| <= space then |b| else space;
      (k, b[..k], if k == |b| then ev[1..] else [Arrive(b[k..])] + ev[1..])
  }

  /** What one `write` on the socket does. */
  datatype WriteResult =
    | Whole             // every byte is sent
    | Short(count: nat) // at most `count` bytes are sent
    | WriteError        // `write` returns -1

  /** What `write(sockfd, msg, len)` returns. */
  function WriteCount(w: WriteResult, len: nat): (n: int)
    ensures -1 <= n <= len
    ensures n == -1 <==> w.WriteError?
    ensures n == len <==> w.Whole? || (w.Short? && w.count >= len)
  {
    match w
    case Whole => len
    case Short(c) => if c < len then c else len
    case WriteError => -1
  }

  /** The bytes of `msg` that reach the peer. */
  function SentBytes(w: WriteResult, msg: seq<byte>): (r: seq<byte>)
    ensures WriteCount(w, |msg|) >= 0 ==> r == msg[..WriteCount(w, |msg|)]
    ensures w.WriteError? ==> r == []
  {
    var n := WriteCount(w, |msg|);
    if n < 0 then [] else msg[..n]
  }

  /** The outcome of the next `write` and of those after it; past the outcomes given, a write sends everything. */
  function NextWrite(writes: seq<WriteResult>): (WriteResult, seq<WriteResult>)
  {
    if writes == [] then (Whole, []) else (writes[0], writes[1..])
  }

  /** The connected socket `sockfd`. */
  class Socket {
    /** What the coming `write` calls will do, in order. */
    var writes: seq<WriteResult>
    /** Everything written to the socket so far. */
    var sent: seq<byte>
    /** What the socket will deliver from now on. */
    var incoming: seq<Event>

    constructor (writes: seq<WriteResult>, incoming: seq<Event>)
      ensures this.writes == writes && this.incoming == incoming && sent == []
    {
      this.writes := writes;
      this.incoming := incoming;
      sent := [];
    }

    /** `write(sockfd, msg, |msg|)`: the number of bytes sent, or -1. */
    method Write(msg: seq<byte>) returns (n: int)
      modifies this`sent, this`writes
      ensures var (w, rest) := NextWrite(old(writes));
        && n == WriteCount(w, |msg|)
        && writes == rest
        && sent == old(sent) + SentBytes(w, msg)
    {
      var (w, rest) := NextWrite(writes);
      n := WriteCount(w, |msg|);
      sent, writes := sent + SentBytes(w, msg), rest;
    }

    /** `waittoread(sockfd)`. */
    method WaitToRead() returns (ready: bool)
      modifies this`incoming
      ensures ready == Readable(old(incoming))
      ensures incoming == AfterWait(old(incoming))
    {
      ready := Readable(incoming);
      incoming := AfterWait(incoming);
    }

    /** One `read` into `buf` from `off` to its end, filling the buffer in place. */
    method Read(buf: array<byte>, off: nat) returns (n: int)
      requires Readable(incoming) && off < buf.Length
      modifies this`incoming, buf
      ensures var step := ReadStep(old(incoming), buf.Length - off);
        && n == step.0
        && incoming == step.2
        && off + |step.1| <= buf.Length
        && buf[..] == old(buf[..off]) + step.1 + old(buf[off + |step.1|..])
    {
      var step := ReadStep(incoming, buf.Length - off);
      var chunk := step.1;
      forall i | 0 <= i < |chunk| {
        buf[off + i] := chunk[i];
      }
      assert buf[..] == old(buf[..off]) + chunk + old(buf[off + |chunk|..]);
      n, incoming := step.0, step.2;
    }
  }

  /** The receive buffer `recvBuff`: `bufsz` bytes allocated, the first `offset` of them filled. */
  class RecvBuf {
    var data: array<byte>
    var offset: nat

    /** `offset <= bufsz`, and `bufsz` is a positive multiple of `BUFSIZE`. */
    ghost predicate Valid()
      reads this
    {
      offset <= data.Length && data.Length > 0 && data.Length % BUFSIZE == 0
    }

    ghost function Contents(): seq<byte>
      reads this, data
      requires Valid()
    {
      data[..offset]
    }

    constructor ()
      ensures Valid() && fresh(data)
      ensures data.Length == BUFSIZE && offset == 0
    {
      data := new byte[BUFSIZE];
      offset := 0;
    }

    /** Before each read: a full buffer is reallocated `BUFSIZE` bytes larger. */
    method MakeRoom()
      requires Valid()
      modifies this
      ensures Valid() && offset == old(offset)
      ensures old(offset) >= old(data.Length) ==> fresh(data) && data.Length == old(data.Length) + BUFSIZE
      ensures old(offset) < old(data.Length) ==> data == old(data)
      ensures offset < data.Length
      ensures Contents() == old(Contents())
    {
      if offset >= data.Length {
        var bigger := new byte[data.Length + BUFSIZE];
        forall i | 0 <= i < data.Length {
          bigger[i] := data[i];
        }
        assert bigger[..offset] == data[..offset];
        data := bigger;
      }
    }

    /** One read into the free part of the buffer; `offset` advances by the number of bytes it returns, if positive. */
    method Fill(sock: Socket) returns (n: int)
      requires Valid() && offset < data.Length && Readable(sock.incoming)
      modifies this, data, sock`incoming
      ensures Valid() && data == old(data)
      ensures var step := ReadStep(old(sock.incoming), old(data.Length) - old(offset));
        && n == step.0
        && sock.incoming == step.2
        && Contents() == old(Contents()) + step.1
        && (n <= 0 ==> offset == old(offset))
    {
      ghost var before := data[..offset];
      n := sock.Read(data, offset);
      if n > 0 {
        offset := offset + n;
      }
      assert data[..offset] == before + ReadStep(old(sock.incoming), data.Length - old(offset)).1;
    }
  }

  // ---------------------------------------------------------------------
  // What the receive loop collects

  /** The outcome of the read loop: the bytes collected, or a read error. */
  datatype Reception = Received(data: seq<byte>) | ReadFailed

  /** Bytes read earlier come first. */
  function Prepend(pre: seq<byte>, r: (Reception, seq<Event>)): (Reception, seq<Event>)
  {
    match r.0
    case Received(d) => (Received(pre + d), r.1)
    case ReadFailed => r
  }

  /**
   * The `do { read } while(waittoread)` loop, one event at a time: arrivals
   * are collected in order until a pause, the end of the connection (or an
   * empty read), or a read error.
   */
  function Drain(ev: seq<Event>): (r: (Reception, seq<Event>))
    requires Readable(ev)
    ensures r.0 == Received([]) ==> ev[0].Close? || ev[0] == Arrive([])
    ensures Size(r.1) <= Size(ev)
    decreases |ev|
  {
    match ev[0]
    case Close => (Received([]), ev)
    case Fail => (ReadFailed, ev[1..])
    case Arrive(b) =>
      if b == [] then (Received([]), ev[1..])
      else if Readable(ev[1..]) then Prepend(b, Drain(ev[1..]))
      else (Received(b), AfterWait(ev[1..]))
  }

  /**
   * Client `capture_frame`: the answer to one request and the events left,
   * given what the `write` of the request does. No answer when the request
   * is not sent whole, nothing is readable, a read fails, or no byte at all
   * arrives.
   */
  function Capture(fmt: CString, w: WriteResult, ev: seq<Event>): (r: (Option<seq<byte>>, seq<Event>))
    ensures r.0.Some? ==> |r.0.value| > 0
    ensures r.0.Some? ==> WriteCount(w, |fmt|) == |fmt| && Readable(ev) && Drain(ev) == (Received(r.0.value), r.1)
    ensures WriteCount(w, |fmt|) != |fmt| ==> r == (None, ev)
  {
    if WriteCount(w, |fmt|) != |fmt| then (None, ev) else Answer(ev)
  }

  /**
   * The answer collected after the request was sent: none when nothing is
   * readable, a read fails, or no byte at all arrives.
   */
  function Answer(ev: seq<Event>): (r: (Option<seq<byte>>, seq<Event>))
    ensures r.0.Some? ==> |r.0.value| > 0
    ensures r.0.Some? ==> Readable(ev) && Drain(ev) == (Received(r.0.value), r.1)
  {
    if !Readable(ev) then (None, AfterWait(ev))
    else match Drain(ev).0
      case ReadFailed => (None, Drain(ev).1)
      case Received(d) => (if d == [] then None else Some(d), Drain(ev).1)
  }

  lemma PrependTwice(a: seq<byte>, b: seq<byte>, r: (Reception, seq<Event>))
    ensures Prepend(a, Prepend(b, r)) == Prepend(a + b, r)
  {
    if r.0.Received? {
      assert a + (b + r.0.data) == (a + b) + r.0.data;
    }
  }

  /** Reading an arrival in two parts collects the same bytes as reading it at once. */
  lemma DrainSplit(b: seq<byte>, k: nat, rest: seq<Event>)
    requires 0 < k < |b|
    ensures Drain([Arrive(b)] + rest) == Prepend(b[..k], Drain([Arrive(b[k..])] + rest))
  {
    assert ([Arrive(b)] + rest)[1..] == rest;
    assert ([Arrive(b[k..])] + rest)[1..] == rest;
    assert b[..k] + b[k..] == b;
    if Readable(rest) {
      PrependTwice(b[..k], b[k..], Drain(rest));
    }
  }

  /**
   * One read of the receive loop, with `before` collected so far: a read of
   * 0 bytes ends the loop with `before`, a read error ends it with the error,
   * and a read that returns bytes leaves the rest of the loop to collect what
   * remains of the answer, with less left to come.
   */
  lemma DrainAfterRead(before: seq<byte>, ev: seq<Event>, space: nat)
    requires Readable(ev) && space > 0
    ensures var step := ReadStep(ev, space);
      && (step.0 == 0 ==> Prepend(before, Drain(ev)) == (Received(before + step.1), step.2))
      && (step.0 < 0 ==> Prepend(before, Drain(ev)) == (ReadFailed, step.2))
      && (step.0 > 0 && Readable(step.2) ==> Prepend(before + step.1, Drain(step.2)) == Prepend(before, Drain(ev)))
      && (step.0 > 0 && !Readable(step.2) ==> Prepend(before, Drain(ev)) == (Received(before + step.1), AfterWait(step.2)))
      && (step.0 > 0 ==> Size(step.2) < Size(ev))
  {
    var n := ReadStep(ev, space).0;
    if n <= 0 {
      assert before + [] == before;
      return;
    }
    var b := ev[0].bytes;
    assert ev == [Arrive(b)] + ev[1..];
    if n < |b| {
      DrainSplit(b, n, ev[1..]);
      PrependTwice(before, b[..n], Drain([Arrive(b[n..])] + ev[1..]));
      SizeSplit(b, n, ev[1..]);
    } else {
      assert b[..n] == b;
      if Readable(ev[1..]) {
        PrependTwice(before, b, Drain(ev[1..]));
      }
      SizeCons(Arrive(b), ev[1..]);
    }
  }

  /** Client `capture_frame`: send the format name, then collect the answer. */
  method CaptureFrame(sock: Socket, fmt: CString) returns (r: Option<seq<byte>>)
    modifies sock
    ensures var (w, rest) := NextWrite(old(sock.writes));
      && (r, sock.incoming) == Capture(fmt, w, old(sock.incoming))
      && sock.writes == rest
      && sock.sent == old(sock.sent) + SentBytes(w, fmt)
  {
    var wrote := sock.Write(fmt);
    if wrote != |fmt| {
      return None;
    }
    r := ReceiveAnswer(sock);
  }

  /** The part of client `capture_frame` after the send: wait for data, then read until the answer ends. */
  method ReceiveAnswer(sock: Socket) returns (r: Option<seq<byte>>)
    modifies sock`incoming
    ensures (r, sock.incoming) == Answer(old(sock.incoming))
  {
    var rb := new RecvBuf();
    var ready := sock.WaitToRead();
    if !ready {
      return None;
    }
    ghost var start := sock.incoming;
    var going, failed := true, false;
    assert Prepend(rb.Contents(), Drain(start)) == Drain(start) by {
      assert rb.Contents() == [];
      if Drain(start).0.Received? {
        assert [] + Drain(start).0.data == Drain(start).0.data;
      }
    }
    while going
      invariant fresh(rb) && fresh(rb.data) && rb.Valid()
      invariant going ==> !failed && Readable(sock.incoming)
      invariant going ==> Prepend(rb.Contents(), Drain(sock.incoming)) == Drain(start)
      invariant !going ==> Drain(start) == (if failed then ReadFailed else Received(rb.Contents()), sock.incoming)
      decreases going, Size(sock.incoming)
    {
      rb.MakeRoom();
      ghost var ev := sock.incoming;
      ghost var before := rb.Contents();
      ghost var space := rb.data.Length - rb.offset;
      var n := rb.Fill(sock);
      ghost var step := ReadStep(ev, space);
      ghost var got := rb.Contents();
      assert got == before + step.1 && sock.incoming == step.2;
      DrainAfterRead(before, ev, space);
      if n == 0 {
        going := false;
      } else if n < 0 {
        going, failed := false, true;
      } else {
        going := sock.WaitToRead();
        assert rb.Contents() == got;
      }
    }
    if failed || rb.offset == 0 {
      return None;
    }
    r := Some(rb.data[..rb.offset]);
  }

  /** The bytes and events still to come: shrinks with every read that returns bytes. */
  function Size(ev: seq<Event>): nat
  {
    if ev == [] then 0 else 1 + (if ev[0].Arrive? then |ev[0].bytes| else 0) + Size(ev[1..])
  }

  lemma SizeCons(e: Event, rest: seq<Event>)
    ensures Size([e] + rest) == 1 + (if e.Arrive? then |e.bytes| else 0) + Size(rest)
  {
    assert ([e] + rest)[1..] == rest;
  }

  lemma SizeSplit(b: seq<byte>, k: nat, rest: seq<Event>)
    requires 0 < k < |b|
    ensures Size([Arrive(b[k..])] + rest) < Size([Arrive(b)] + rest)
  {
    SizeCons(Arrive(b[k..]), rest);
    SizeCons(Arrive(b), rest);
  }

  // ---------------------------------------------------------------------
  // Properties of the receive loop

  /** Each chunk arrives as one event. */
  function Arrivals(cs: seq<seq<byte>>): (ev: seq<Event>)
    ensures |ev| == |cs| && forall i :: 0 <= i < |cs| ==> ev[i] == Arrive(cs[i])
  {
    seq(|cs|, i requires 0 <= i < |cs| => Arrive(cs[i]))
  }

  predicate NonEmptyChunks(cs: seq<seq<byte>>)
  {
    forall i :: 0 <= i < |cs| ==> cs[i] != []
  }

  /** Chunks that end with a pause are received whole and in order, and the pause is used up. */
  lemma {:induction false} DrainUntilPause(cs: seq<seq<byte>>, tail: seq<Event>)
    requires cs != [] && NonEmptyChunks(cs)
    ensures Drain(Arrivals(cs) + [Pause] + tail) == (Received(Flatten(cs)), tail)
    decreases |cs|
  {
    var ev := Arrivals(cs) + [Pause] + tail;
    assert ev[0] == Arrive(cs[0]);
    assert ev[1..] == Arrivals(cs[1..]) + [Pause] + tail;
    assert cs == [cs[0]] + cs[1..];
    FlattenCons(cs[0], cs[1..]);
    if |cs| > 1 {
      DrainUntilPause(cs[1..], tail);
    } else {
      assert Flatten(cs[1..]) == [];
      assert ev[1..] == [Pause] + tail;
      assert ([Pause] + tail)[1..] == tail;
      assert !Readable(ev[1..]);
      assert cs[0] + [] == cs[0];
      assert Drain(ev) == (Received(cs[0]), tail);
    }
  }

  /** Chunks followed by the peer closing are received whole and in order; the close stays. */
  lemma {:induction false} DrainUntilClose(cs: seq<seq<byte>>, tail: seq<Event>)
    requires NonEmptyChunks(cs)
    ensures Drain(Arrivals(cs) + [Close] + tail) == (Received(Flatten(cs)), [Close] + tail)
    decreases |cs|
  {
    var ev := Arrivals(cs) + [Close] + tail;
    if cs == [] {
      assert ev == [Close] + tail;
    } else {
      assert ev[0] == Arrive(cs[0]);
      assert ev[1..] == Arrivals(cs[1..]) + [Close] + tail;
      assert cs == [cs[0]] + cs[1..];
      FlattenCons(cs[0], cs[1..]);
      DrainUntilClose(cs[1..], tail);
    }
  }

  /** A read error after any number of chunks loses the whole answer. */
  lemma {:induction false} DrainUntilFail(cs: seq<seq<byte>>, tail: seq<Event>)
    requires NonEmptyChunks(cs)
    ensures Drain(Arrivals(cs) + [Fail] + tail) == (ReadFailed, tail)
    decreases |cs|
  {
    var ev := Arrivals(cs) + [Fail] + tail;
    if cs == [] {
      assert ev == [Fail] + tail;
    } else {
      assert ev[0] == Arrive(cs[0]);
      assert ev[1..] == Arrivals(cs[1..]) + [Fail] + tail;
      DrainUntilFail(cs[1..], tail);
    }
  }

  /** Client `capture_frame` returns the concatenation of the chunks of one answer. */
  lemma CaptureWholeAnswer(fmt: CString, cs: seq<seq<byte>>, tail: seq<Event>)
    requires cs != [] && NonEmptyChunks(cs)
    ensures Capture(fmt, Whole, Arrivals(cs) + [Pause] + tail) == (Some(Flatten(cs)), tail)
  {
    DrainUntilPause(cs, tail);
    assert cs == cs[..|cs| - 1] + [cs[|cs| - 1]];
    FlattenAppend(cs[..|cs| - 1], cs[|cs| - 1]);
  }

  /** A connection closed before any byte arrived yields no answer. */
  lemma CaptureClosedEmpty(fmt: CString, tail: seq<Event>)
    ensures Capture(fmt, Whole, [Close] + tail) == (None, [Close] + tail)
  {
  }

  /**
   * End to end: a framed answer, however the network splits it into chunks,
   * is saved by the client with exactly the payload the server framed.
   */
  lemma ClientSavesFramedAnswer(fmt: CString, payload: seq<byte>, cs: seq<seq<byte>>, tail: seq<Event>)
    requires forall i :: 0 <= i < |fmt| ==> fmt[i] != LF
    requires |payload| <= LONG_MAX
    requires cs != [] && NonEmptyChunks(cs) && Flatten(cs) == Frame(fmt, payload)
    ensures Capture(fmt, Whole, Arrivals(cs) + [Pause] + tail).0 == Some(Frame(fmt, payload))
    ensures SaveFrame(fmt, Capture(fmt, Whole, Arrivals(cs) + [Pause] + tail).0.value, true) == Saved(payload)
  {
    CaptureWholeAnswer(fmt, cs, tail);
    SaveFrameRoundTrip(fmt, payload);
  }

  // ---------------------------------------------------------------------
  // capture_frames

  /** After some requests: the answers received, in order, the bytes sent, and the write outcomes and events left. */
  datatype Session = Session(answers: seq<seq<byte>>, sent: seq<byte>, writes: seq<WriteResult>, incoming: seq<Event>)

  /** `k` requests in a row, each answered by client `capture_frame`. */
  function Attempts(fmt: CString, writes: seq<WriteResult>, ev: seq<Event>, k: nat): (s: Session)
    ensures |s.answers| <= k
    ensures forall j :: 0 <= j < |s.answers| ==> |s.answers[j]| > 0
  {
    if k == 0 then Session([], [], writes, ev)
    else
      var p := Attempts(fmt, writes, ev, k - 1);
      var (w, more) := NextWrite(p.writes);
      var c := Capture(fmt, w, p.incoming);
      Session(if c.0.Some? then p.answers + [c.0.value] else p.answers, p.sent + SentBytes(w, fmt), more, c.1)
  }

  /** `k` copies of the request. */
  function Repeat(msg: seq<byte>, k: nat): (r: seq<byte>)
    ensures |r| == k * |msg|
  {
    if k == 0 then [] else Repeat(msg, k - 1) + msg
  }

  /**
   * One answer handed to `SaveFrame(pic, S, number)`. Its result is ignored
   * by the caller; what it is for a given answer is `SaveFrame`'s contract.
   */
  datatype Saving = Saving(number: int, answer: seq<byte>)

  /**
   * `capture_frames(istart, N)`: `N` requests; every answer received is
   * counted and handed to `SaveFrame` with the numbers `istart`,
   * `istart + 1`, ... in order, whether or not saving it then succeeds.
   */
  method CaptureFrames(sock: Socket, fmt: CString, istart: int, n: int)
    returns (saved: int, log: seq<Saving>)
    modifies sock
    ensures var k := if n > 0 then n else 0;
      var s := Attempts(fmt, old(sock.writes), old(sock.incoming), k);
      && saved == |s.answers| <= k
      && sock.incoming == s.incoming && sock.writes == s.writes
      && sock.sent == old(sock.sent) + s.sent
      && |log| == saved
      && (forall j :: 0 <= j < saved ==> log[j] == Saving(istart + j, s.answers[j]))
  {
    ghost var start, startWrites := sock.incoming, sock.writes;
    ghost var answers: seq<seq<byte>> := [];
    saved, log := 0, [];
    var i := 0;
    while i < n
      invariant 0 <= i <= (if n > 0 then n else 0)
      invariant var s := Attempts(fmt, startWrites, start, i);
        && answers == s.answers && sock.incoming == s.incoming && sock.writes == s.writes
        && sock.sent == old(sock.sent) + s.sent
      invariant saved == |answers| == |log|
      invariant forall j :: 0 <= j < saved ==> log[j] == Saving(istart + j, answers[j])
    {
      ghost var sentBefore := sock.sent;
      var pic := CaptureFrame(sock, fmt);
      ghost var p := Attempts(fmt, startWrites, start, i);
      assert sock.sent == old(sock.sent) + (p.sent + SentBytes(NextWrite(p.writes).0, fmt));
      if pic.Some? {
        log := log + [Saving(istart + saved, pic.value)];
        answers := answers + [pic.value];
        saved := saved + 1;
      }
      i := i + 1;
    }
  }

  /** When none of the first `k` requests is sent whole, no frame is counted and no event is consumed. */
  lemma {:induction false} AttemptsUnsent(fmt: CString, writes: seq<WriteResult>, ev: seq<Event>, k: nat)
    requires k <= |writes|
    requires forall j :: 0 <= j < k ==> WriteCount(writes[j], |fmt|) != |fmt|
    ensures var s := Attempts(fmt, writes, ev, k);
      s.answers == [] && s.incoming == ev && s.writes == writes[k..]
  {
    if k > 0 {
      AttemptsUnsent(fmt, writes, ev, k - 1);
      assert writes[k - 1..] == [writes[k - 1]] + writes[k..];
    }
  }

  /** When every `write` sends the whole request, the request goes out `k` times. */
  lemma {:induction false} AttemptsAllSent(fmt: CString, ev: seq<Event>, k: nat)
    ensures Attempts(fmt, [], ev, k).sent == Repeat(fmt, k)
    ensures Attempts(fmt, [], ev, k).writes == []
  {
    if k > 0 {
      AttemptsAllSent(fmt, ev, k - 1);
      assert fmt[..|fmt|] == fmt;
    }
  }

  /** A request whose `write` failed does not stop the next one from being answered. */
  lemma SendFailsThenRecovers(fmt: CString, ev: seq<Event>)
    ensures var s := Attempts(fmt, [WriteError], ev, 2);
      && s.answers == (if Capture(fmt, Whole, ev).0.Some? then [Capture(fmt, Whole, ev).0.value] else [])
      && s.sent == fmt
  {
    var first := Attempts(fmt, [WriteError], ev, 1);
    assert Attempts(fmt, [WriteError], ev, 0) == Session([], [], [WriteError], ev);
    assert [WriteError][1..] == [];
    assert first == Session([], [], [], ev);
    assert NextWrite([]) == (Whole, []);
    assert SentBytes(Whole, fmt) == fmt;
  }
}
