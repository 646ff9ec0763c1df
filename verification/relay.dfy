/**
 * The connection pump: a four-state cycle that reads the client's bytes to
 * end of stream, writes them to the backend and half-closes it, reads the
 * backend's answer to end of stream, and writes it back to the client.
 *
 * Sockets are abstracted into the outcomes of the I/O operation the current
 * state performs (`Event`); what the two peers have received so far, and
 * which streams have ended, is kept in a `Wire` so that the relay's effect
 * on them can be stated and the outcomes real sockets can give are fixed.
 */
module Relay {
  import opened ByteSlice

  datatype ConnectionState = ClientReading | ClientWriting | ServerReading | ServerWriting

  /** The fixed cycle order of the states. */
  function Next(s: ConnectionState): (n: ConnectionState)
    ensures n != s
  {
    match s
    case ClientReading => ServerWriting
    case ServerWriting => ServerReading
    case ServerReading => ClientWriting
    case ClientWriting => ClientReading
  }

  /** The relay's own state; the two sockets are left abstract. */
  datatype Pipe = Pipe(state: ConnectionState, sendBuf: Bytes, recvBuf: Bytes)

  /** A socket failure other than would-block. */
  datatype IoError = IoError(code: nat)

  /**
   * The outcome of one I/O operation: a read that returned `data` (empty
   * data is a read of 0 bytes, end of stream), a completed `write_all`, an
   * operation that would block, or a failure.
   */
  datatype Event = Read(data: Bytes) | WriteDone | WouldBlock | Error(err: IoError)

  /** Which streams have ended: the client's, the backend's write half (shut down by the relay), the backend's. */
  datatype Ends = Ends(clientEof: bool, serverShut: bool, serverEof: bool)

  const Open: Ends := Ends(false, false, false)

  /** What the two peers have received, and which streams have ended. */
  datatype Wire = Wire(toServer: Bytes, toClient: Bytes, ends: Ends)

  const Quiet: Wire := Wire([], [], Open)

  /** A pipe as the acceptor builds it for a fresh connection. */
  function NewPipe(): (p: Pipe)
    ensures p.state == ClientReading && p.sendBuf == [] && p.recvBuf == []
  {
    Pipe(ClientReading, [], [])
  }

  predicate IsReading(s: ConnectionState) {
    s == ClientReading || s == ServerReading
  }

  /** An outcome of the operation the state performs: reads in reading states, write completions in writing states. */
  predicate Matches(s: ConnectionState, e: Event) {
    match e
    case Read(_) => IsReading(s)
    case WriteDone => !IsReading(s)
    case _ => true
  }

  /** True if the stream the state reads from has already ended. */
  predicate ReadEnded(s: ConnectionState, k: Ends) {
    (s == ClientReading && k.clientEof) || (s == ServerReading && k.serverEof)
  }

  /** The buffer a writing state writes out: the send buffer to the backend, the receive buffer to the client. */
  function Outgoing(p: Pipe): Bytes {
    if p.state == ServerWriting then p.sendBuf else p.recvBuf
  }

  /** True if the pipe has bytes to write to the backend after the backend's write half was shut down. */
  predicate WriteAfterShutdown(p: Pipe, k: Ends) {
    p.state == ServerWriting && k.serverShut && |p.sendBuf| > 0
  }

  /**
   * An outcome the sockets can give: once a stream has ended every read of
   * it returns 0 bytes at once; `write_all` of an empty buffer makes no
   * system call and completes; and writing bytes to a socket whose write
   * half is shut down fails (broken pipe) rather than completing or blocking.
   */
  predicate Fits(p: Pipe, k: Ends, e: Event) {
    && Matches(p.state, e)
    && (e.Read? && ReadEnded(p.state, k) ==> |e.data| == 0)
    && (e.WouldBlock? ==> !ReadEnded(p.state, k))
    && (!IsReading(p.state) && |Outgoing(p)| == 0 ==> e.WriteDone?)
    && (WriteAfterShutdown(p, k) ==> e.Error?)
  }

  /** The transition table: only a 0-byte read or a completed write leaves a state. */
  function Transition(s: ConnectionState, e: Event): (t: ConnectionState)
    requires Matches(s, e)
    ensures t == s || t == Next(s)
    ensures t == Next(s) <==> (e.Read? && |e.data| == 0) || e.WriteDone?
  {
    match e
    case Read(data) => if |data| == 0 then Next(s) else s
    case WriteDone => Next(s)
    case _ => s
  }

  /** The streams that have ended after an outcome: a 0-byte read ends the stream read, a completed backend write shuts its write half. */
  function NextEnds(s: ConnectionState, k: Ends, e: Event): (k': Ends)
    requires Matches(s, e)
    ensures EndsGrow(k, k')
    ensures k'.clientEof <==> k.clientEof || (s == ClientReading && e == Read([]))
    ensures k'.serverEof <==> k.serverEof || (s == ServerReading && e == Read([]))
    ensures k'.serverShut <==> k.serverShut || (s == ServerWriting && e.WriteDone?)
  {
    match e
    case Read(data) =>
      if |data| > 0 then k
      else if s == ClientReading then k.(clientEof := true)
      else k.(serverEof := true)
    case WriteDone => if s == ServerWriting then k.(serverShut := true) else k
    case _ => k
  }

  /** Every state can be left: no state of the cycle is terminal. */
  lemma NoTerminalState(s: ConnectionState)
    ensures exists e :: Matches(s, e) && Transition(s, e) == Next(s) && Next(s) != s
  {
    var e := if IsReading(s) then Read([]) else WriteDone;
    assert Matches(s, e) && Transition(s, e) == Next(s);
  }

  /** Four transitions bring the cycle back to where it started. */
  lemma CycleHasLengthFour(s: ConnectionState)
    ensures Next(Next(Next(Next(s)))) == s
    ensures Next(Next(s)) != s && Next(Next(Next(s))) != s
  {
  }

  /** `q` holds everything `p` held, plus possibly more at the back. */
  predicate Grows(p: Pipe, q: Pipe) {
    p.sendBuf <= q.sendBuf && p.recvBuf <= q.recvBuf
  }

  /** A stream that has ended stays ended. */
  predicate EndsGrow(k: Ends, k': Ends) {
    (k.clientEof ==> k'.clientEof) && (k.serverShut ==> k'.serverShut) && (k.serverEof ==> k'.serverEof)
  }

  predicate WireGrows(w: Wire, v: Wire) {
    w.toServer <= v.toServer && w.toClient <= v.toClient && EndsGrow(w.ends, v.ends)
  }

  datatype StepResult = Moved(pipe: Pipe, wire: Wire) | Suspended | Dropped(err: IoError)

  /** One I/O outcome processed by the state that performed the operation. */
  function Step(p: Pipe, w: Wire, e: Event): (r: StepResult)
    requires Fits(p, w.ends, e)
    ensures r.Suspended? <==> e.WouldBlock?
    ensures r.Dropped? <==> e.Error?
    ensures r.Dropped? ==> r.err == e.err
    ensures r.Moved? ==>
              && r.pipe.state == Transition(p.state, e)
              && r.wire.ends == NextEnds(p.state, w.ends, e)
              && Grows(p, r.pipe) && WireGrows(w, r.wire)
    // a read appends to the buffer of its direction and delivers nothing
    ensures r.Moved? && e.Read? && p.state == ClientReading ==>
              && r.pipe.sendBuf == p.sendBuf + e.data && r.pipe.recvBuf == p.recvBuf
              && r.wire.toServer == w.toServer && r.wire.toClient == w.toClient
    ensures r.Moved? && e.Read? && p.state == ServerReading ==>
              && r.pipe.recvBuf == p.recvBuf + e.data && r.pipe.sendBuf == p.sendBuf
              && r.wire.toServer == w.toServer && r.wire.toClient == w.toClient
    // a write delivers the whole buffer and leaves both buffers as they were
    ensures r.Moved? && e.WriteDone? ==> r.pipe.sendBuf == p.sendBuf && r.pipe.recvBuf == p.recvBuf
    ensures r.Moved? && e.WriteDone? && p.state == ServerWriting ==>
              r.wire == Wire(w.toServer + p.sendBuf, w.toClient, w.ends.(serverShut := true))
    ensures r.Moved? && e.WriteDone? && p.state == ClientWriting ==>
              r.wire == w.(toClient := w.toClient + p.recvBuf)
  {
    match e
    case WouldBlock => Suspended
    case Error(err) => Dropped(err)
    case Read(data) =>
      var t := Transition(p.state, e);
      var w' := w.(ends := NextEnds(p.state, w.ends, e));
      if p.state == ClientReading then Moved(p.(sendBuf := p.sendBuf + data, state := t), w')
      else Moved(p.(recvBuf := p.recvBuf + data, state := t), w')
    case WriteDone =>
      var t := Transition(p.state, e);
      if p.state == ServerWriting then
        Moved(p.(state := t), Wire(w.toServer + p.sendBuf, w.toClient, w.ends.(serverShut := true)))
      else
        Moved(p.(state := t), w.(toClient := w.toClient + p.recvBuf))
  }

  /** True if an event ends a poll: it would block or it failed. */
  predicate Stops(e: Event) {
    e.WouldBlock? || e.Error?
  }

  /** A script of outcomes the sockets can give, step by step, up to the first failure. */
  predicate Admissible(p: Pipe, w: Wire, events: seq<Event>)
    decreases |events|
  {
    |events| == 0 ||
    (&& Fits(p, w.ends, events[0])
     && match Step(p, w, events[0])
        case Moved(p', w') => Admissible(p', w', events[1..])
        case Suspended => Admissible(p, w, events[1..])
        case Dropped(_) => true)
  }

  /** Index of the first event that ends a poll, or the length of the script if there is none. */
  function FirstStop(events: seq<Event>): (k: nat)
    ensures k <= |events|
    ensures forall i :: 0 <= i < k ==> !Stops(events[i])
    ensures k < |events| ==> Stops(events[k])
  {
    if |events| == 0 then 0
    else if Stops(events[0]) then 0
    else 1 + FirstStop(events[1..])
  }

  /**
   * How a poll ends: suspended at a would-block with the events left for the
   * next poll, failed with an I/O error (the pipe is dropped), still running
   * when the script runs out, or finished (the future completes).
   */
  datatype PollResult =
    | Pending(pipe: Pipe, wire: Wire, rest: seq<Event>)
    | Failed(err: IoError, wire: Wire)
    | Running(pipe: Pipe, wire: Wire)
    | Done(pipe: Pipe, wire: Wire)

  /** The poll loop: steps through the script until an operation would block or fails. It never finishes. */
  function Poll(p: Pipe, w: Wire, events: seq<Event>): (r: PollResult)
    requires Admissible(p, w, events)
    ensures !r.Done?
    ensures r.Running? <==> FirstStop(events) == |events|
    ensures r.Pending? <==> FirstStop(events) < |events| && events[FirstStop(events)].WouldBlock?
    ensures r.Pending? ==> r.rest == events[FirstStop(events) + 1..]
    ensures r.Failed? ==> FirstStop(events) < |events| && events[FirstStop(events)] == Error(r.err)
    ensures !r.Failed? ==> Grows(p, r.pipe)
    ensures WireGrows(w, r.wire)
    decreases |events|
  {
    if |events| == 0 then Running(p, w)
    else
      match Step(p, w, events[0])
      case Suspended => Pending(p, w, events[1..])
      case Dropped(err) => Failed(err, w)
      case Moved(p', w') => Poll(p', w', events[1..])
  }

  /** Reads of the given chunks, in order. */
  function Reads(chunks: seq<Bytes>): (events: seq<Event>)
    ensures |events| == |chunks|
    ensures forall i :: 0 <= i < |chunks| ==> events[i] == Read(chunks[i])
  {
    if |chunks| == 0 then [] else [Read(chunks[0])] + Reads(chunks[1..])
  }

  /** The chunks joined end to end. */
  function Concat(chunks: seq<Bytes>): Bytes {
    if |chunks| == 0 then [] else chunks[0] + Concat(chunks[1..])
  }

  predicate NonEmptyChunks(chunks: seq<Bytes>) {
    forall i :: 0 <= i < |chunks| ==> |chunks[i]| > 0
  }

  /** The reading buffer of state `p.state` extended by `data`. */
  function Absorb(p: Pipe, data: Bytes): Pipe
    requires IsReading(p.state)
  {
    if p.state == ClientReading then p.(sendBuf := p.sendBuf + data)
    else p.(recvBuf := p.recvBuf + data)
  }

  /** A nonzero read in a reading state only extends that state's buffer; the poll carries on. */
  lemma PollAfterRead(p: Pipe, w: Wire, c: Bytes, post: seq<Event>)
    requires IsReading(p.state) && !ReadEnded(p.state, w.ends) && |c| > 0
    requires Admissible(Absorb(p, c), w, post)
    ensures Admissible(p, w, [Read(c)] + post)
    ensures Poll(p, w, [Read(c)] + post) == Poll(Absorb(p, c), w, post)
  {
    var events := [Read(c)] + post;
    assert events[0] == Read(c) && events[1..] == post;
    assert NextEnds(p.state, w.ends, Read(c)) == w.ends;
    assert Step(p, w, Read(c)) == Moved(Absorb(p, c), w);
  }

  lemma AbsorbTwice(p: Pipe, a: Bytes, b: Bytes)
    requires IsReading(p.state)
    ensures Absorb(Absorb(p, a), b) == Absorb(p, a + b)
  {
    if p.state == ClientReading {
      assert p.sendBuf + a + b == p.sendBuf + (a + b);
    } else {
      assert p.recvBuf + a + b == p.recvBuf + (a + b);
    }
  }

  /**
   * In a reading state, nonzero reads only accumulate: a poll over them ends
   * up where a poll over their concatenation, read at once, would.
   */
  lemma {:induction false} ReadsAccumulate(p: Pipe, w: Wire, chunks: seq<Bytes>, post: seq<Event>)
    requires IsReading(p.state) && !ReadEnded(p.state, w.ends) && NonEmptyChunks(chunks)
    requires Admissible(Absorb(p, Concat(chunks)), w, post)
    ensures Admissible(p, w, Reads(chunks) + post)
    ensures Poll(p, w, Reads(chunks) + post) == Poll(Absorb(p, Concat(chunks)), w, post)
    decreases |chunks|
  {
    if |chunks| == 0 {
      assert Reads(chunks) + post == post;
      assert Absorb(p, Concat(chunks)) == p;
    } else {
      var c := chunks[0];
      var p1 := Absorb(p, c);
      AbsorbTwice(p, c, Concat(chunks[1..]));
      ReadsAccumulate(p1, w, chunks[1..], post);
      var tail := Reads(chunks[1..]) + post;
      assert Reads(chunks) + post == [Read(c)] + tail;
      PollAfterRead(p, w, c, tail);
    }
  }

  /** Every stream ended: the client's, the backend's write half, and the backend's. */
  const Closed: Ends := Ends(true, true, true)

  /**
   * One exchange from a fresh pipe: the client's chunks, end of stream, the
   * write to the backend, the backend's chunks, end of stream, the write to
   * the client. The backend receives exactly the client's bytes and is
   * half-closed, the client receives exactly the backend's bytes, and the
   * pipe is back in `ClientReading` still holding both buffers.
   */
  lemma OneExchange(request: seq<Bytes>, response: seq<Bytes>)
    requires NonEmptyChunks(request) && NonEmptyChunks(response)
    ensures var events := Reads(request) + ([Read([]), WriteDone] + (Reads(response) + [Read([]), WriteDone]));
      && Admissible(NewPipe(), Quiet, events)
      && Poll(NewPipe(), Quiet, events) ==
           Running(Pipe(ClientReading, Concat(request), Concat(response)),
                   Wire(Concat(request), Concat(response), Closed))
  {
    var post := Reads(response) + [Read([]), WriteDone];
    ResponseLeg(Concat(request), response);
    RequestLeg(request, post);
  }

  /** The first half of a cycle: the client's bytes, end of stream, and the write to the backend. */
  lemma RequestLeg(request: seq<Bytes>, post: seq<Event>)
    requires NonEmptyChunks(request)
    requires Admissible(Pipe(ServerReading, Concat(request), []), Wire(Concat(request), [], Ends(true, true, false)), post)
    ensures Admissible(NewPipe(), Quiet, Reads(request) + ([Read([]), WriteDone] + post))
    ensures Poll(NewPipe(), Quiet, Reads(request) + ([Read([]), WriteDone] + post)) ==
              Poll(Pipe(ServerReading, Concat(request), []), Wire(Concat(request), [], Ends(true, true, false)), post)
  {
    var req := Concat(request);
    var e1 := [WriteDone] + post;
    var e0 := [Read([])] + e1;
    assert e0 == [Read([]), WriteDone] + post;
    var w1 := Wire([], [], Ends(true, false, false));
    assert w1.toServer + req == req;
    PollAfterWrite(Pipe(ServerWriting, req, []), w1, post);
    PollAfterEof(Pipe(ClientReading, req, []), Quiet, e1);
    assert Absorb(NewPipe(), req) == Pipe(ClientReading, req, []);
    ReadsAccumulate(NewPipe(), Quiet, request, e0);
  }

  /** The second half of a cycle: the backend's bytes, end of stream, and the write to the client. */
  lemma ResponseLeg(req: Bytes, response: seq<Bytes>)
    requires NonEmptyChunks(response)
    ensures Admissible(Pipe(ServerReading, req, []), Wire(req, [], Ends(true, true, false)), Reads(response) + [Read([]), WriteDone])
    ensures Poll(Pipe(ServerReading, req, []), Wire(req, [], Ends(true, true, false)),
                 Reads(response) + [Read([]), WriteDone]) ==
              Running(Pipe(ClientReading, req, Concat(response)), Wire(req, Concat(response), Closed))
  {
    var resp := Concat(response);
    var w0 := Wire(req, [], Ends(true, true, false));
    var w2 := Wire(req, [], Closed);
    var e4: seq<Event> := [WriteDone];
    var e3 := [Read([])] + e4;
    assert e3 == [Read([]), WriteDone];
    PollAfterWrite(Pipe(ClientWriting, req, resp), w2, []);
    assert e4 + [] == e4;
    PollAfterEof(Pipe(ServerReading, req, resp), w0, e4);
    ReadsAccumulate(Pipe(ServerReading, req, []), w0, response, e3);
    assert Absorb(Pipe(ServerReading, req, []), resp) == Pipe(ServerReading, req, resp);
  }

  /** A 0-byte read in a reading state moves to the next state, marks the stream ended, and changes no buffer. */
  lemma PollAfterEof(p: Pipe, w: Wire, post: seq<Event>)
    requires IsReading(p.state)
    requires Admissible(p.(state := Next(p.state)), w.(ends := NextEnds(p.state, w.ends, Read([]))), post)
    ensures Admissible(p, w, [Read([])] + post)
    ensures Poll(p, w, [Read([])] + post) ==
              Poll(p.(state := Next(p.state)), w.(ends := NextEnds(p.state, w.ends, Read([]))), post)
  {
    var events := [Read([])] + post;
    assert events[0] == Read([]) && events[1..] == post;
    assert Step(p, w, Read([])) == Moved(p.(state := Next(p.state)), w.(ends := NextEnds(p.state, w.ends, Read([]))));
  }

  /** A completed write in a writing state moves to the next state, delivering that state's buffer. */
  lemma PollAfterWrite(p: Pipe, w: Wire, post: seq<Event>)
    requires !IsReading(p.state) && !WriteAfterShutdown(p, w.ends)
    requires p.state == ServerWriting ==>
               Admissible(p.(state := ServerReading), Wire(w.toServer + p.sendBuf, w.toClient, w.ends.(serverShut := true)), post)
    requires p.state == ClientWriting ==>
               Admissible(p.(state := ClientReading), w.(toClient := w.toClient + p.recvBuf), post)
    ensures Admissible(p, w, [WriteDone] + post)
    ensures p.state == ServerWriting ==>
              Poll(p, w, [WriteDone] + post) ==
                Poll(p.(state := ServerReading), Wire(w.toServer + p.sendBuf, w.toClient, w.ends.(serverShut := true)), post)
    ensures p.state == ClientWriting ==>
              Poll(p, w, [WriteDone] + post) ==
                Poll(p.(state := ClientReading), w.(toClient := w.toClient + p.recvBuf), post)
  {
    var events := [WriteDone] + post;
    assert events[0] == WriteDone && events[1..] == post;
  }

  /**
   * After an exchange that carried a request, the client's stream has ended
   * and the backend's write half is shut down, so the relay delivers nothing
   * more: a read of the client returns 0 bytes, writing the request bytes to
   * the backend again fails, and the pipe is dropped. Every second poll step
   * from here is a failure.
   */
  lemma NoSecondExchange(p: Pipe, w: Wire, events: seq<Event>)
    requires p.state == ClientReading || p.state == ServerWriting
    requires w.ends.clientEof && w.ends.serverShut && |p.sendBuf| > 0
    requires Admissible(p, w, events)
    ensures Poll(p, w, events).wire == w
    ensures !Poll(p, w, events).Failed? ==>
              Poll(p, w, events).pipe.sendBuf == p.sendBuf && Poll(p, w, events).pipe.recvBuf == p.recvBuf
    ensures |events| >= 2 || (|events| == 1 && p.state == ServerWriting) ==> Poll(p, w, events).Failed?
  {
    if |events| > 0 && !events[0].Error? && p.state == ClientReading {
      assert events[0] == Read([]);
      var p1 := p.(state := ServerWriting);
      assert NextEnds(p.state, w.ends, Read([])) == w.ends;
      assert Step(p, w, Read([])) == Moved(p1, w);
      assert Poll(p, w, events) == Poll(p1, w, events[1..]);
      if |events| >= 2 {
        assert events[1..][0].Error?;
      }
    }
  }

  /**
   * How far one exchange from a fresh pipe has got: before the write to the
   * backend nothing has been delivered or read from the backend; after it,
   * the backend holds exactly the send buffer and the client nothing yet.
   */
  predicate FirstCycle(p: Pipe, w: Wire) {
    if p.state == ClientReading || p.state == ServerWriting then
      w.toServer == [] && w.toClient == [] && p.recvBuf == []
    else
      w.toServer == p.sendBuf && w.toClient == []
  }

  /**
   * The poll loop as it is evidently meant to behave: like `Poll`, except
   * that the future finishes once the response has been written to the
   * client instead of going round the cycle again. Within one exchange the
   * two agree; from a fresh pipe, the backend receives the request once and
   * the client the response once.
   */
  function PollOnce(p: Pipe, w: Wire, events: seq<Event>): (r: PollResult)
    requires Admissible(p, w, events)
    ensures !r.Done? ==> r == Poll(p, w, events)
    ensures FirstCycle(p, w) ==>
              && (r.Done? ==> r.wire.toServer == r.pipe.sendBuf && r.wire.toClient == r.pipe.recvBuf)
              && (r.Running? || r.Pending? ==> FirstCycle(r.pipe, r.wire))
              && (r.Failed? ==> r.wire.toClient == [])
    decreases |events|
  {
    if |events| == 0 then Running(p, w)
    else
      match Step(p, w, events[0])
      case Suspended => Pending(p, w, events[1..])
      case Dropped(err) => Failed(err, w)
      case Moved(p', w') =>
        if p.state == ClientWriting then Done(p', w') else PollOnce(p', w', events[1..])
  }

  /** A step that moves the pipe on: both polls carry on from where it leaves the pipe, `PollOnce` unless it wrote to the client. */
  lemma PollMoves(p: Pipe, w: Wire, e: Event, rest: seq<Event>)
    requires Fits(p, w.ends, e) && Step(p, w, e).Moved?
    requires Admissible(Step(p, w, e).pipe, Step(p, w, e).wire, rest)
    ensures Admissible(p, w, [e] + rest)
    ensures Poll(p, w, [e] + rest) == Poll(Step(p, w, e).pipe, Step(p, w, e).wire, rest)
    ensures PollOnce(p, w, [e] + rest) ==
              if p.state == ClientWriting then Done(Step(p, w, e).pipe, Step(p, w, e).wire)
              else PollOnce(Step(p, w, e).pipe, Step(p, w, e).wire, rest)
  {
    assert ([e] + rest)[0] == e && ([e] + rest)[1..] == rest;
  }

  /**
   * The second round of an empty-request pipe: the client's stream reads 0
   * bytes, the empty send buffer is written without a system call, the
   * backend's stream reads 0 bytes, and the response is written to the
   * client again.
   */
  lemma EmptyRequestSecondRound(resp: Bytes)
    ensures var events := [Read([]), WriteDone, Read([]), WriteDone];
      && Admissible(Pipe(ClientReading, [], resp), Wire([], resp, Closed), events)
      && Poll(Pipe(ClientReading, [], resp), Wire([], resp, Closed), events) ==
           Running(Pipe(ClientReading, [], resp), Wire([], resp + resp, Closed))
  {
    var w := Wire([], resp, Closed);
    var e3: seq<Event> := [WriteDone];
    var e2 := [Read([])] + e3;
    var e1 := [WriteDone] + e2;
    var e0 := [Read([])] + e1;
    assert e3 == [WriteDone] + [];
    PollMoves(Pipe(ClientWriting, [], resp), w, WriteDone, []);
    PollMoves(Pipe(ServerReading, [], resp), w, Read([]), e3);
    assert w.toServer + [] == w.toServer;
    PollMoves(Pipe(ServerWriting, [], resp), w, WriteDone, e2);
    PollMoves(Pipe(ClientReading, [], resp), w, Read([]), e1);
    assert e0 == [Read([]), WriteDone, Read([]), WriteDone];
  }

  /**
   * A client that connects and closes without sending anything: writing the
   * empty send buffer completes without touching the socket, so after the
   * exchange the pipe goes round again and writes the backend's response to
   * the client a second time. `PollOnce` finishes after the first write to
   * the client and delivers the response once.
   */
  lemma EmptyRequestResendsResponse(resp: Bytes)
    requires |resp| > 0
    ensures var events := [Read([]), WriteDone, Read(resp), Read([]), WriteDone, Read([]), WriteDone, Read([]), WriteDone];
      && Admissible(NewPipe(), Quiet, events)
      && Poll(NewPipe(), Quiet, events) == Running(Pipe(ClientReading, [], resp), Wire([], resp + resp, Closed))
      && PollOnce(NewPipe(), Quiet, events) == Done(Pipe(ClientReading, [], resp), Wire([], resp, Closed))
  {
    var w1 := Wire([], [], Ends(true, false, false));
    var w2 := Wire([], [], Ends(true, true, false));
    var w4 := Wire([], [], Closed);
    var second := [Read([]), WriteDone, Read([]), WriteDone];
    EmptyRequestSecondRound(resp);
    var e3 := [WriteDone] + second;
    var e2 := [Read([])] + e3;
    var e1 := [Read(resp)] + e2;
    var e0 := [WriteDone] + e1;
    PollMoves(Pipe(ClientWriting, [], resp), w4, WriteDone, second);
    PollMoves(Pipe(ServerReading, [], resp), w2, Read([]), e3);
    PollMoves(Pipe(ServerReading, [], []), w2, Read(resp), e2);
    assert w1.toServer + [] == w1.toServer;
    PollMoves(Pipe(ServerWriting, [], []), w1, WriteDone, e1);
    PollMoves(NewPipe(), Quiet, Read([]), e0);
    assert [Read([])] + e0 == [Read([]), WriteDone, Read(resp), Read([]), WriteDone, Read([]), WriteDone, Read([]), WriteDone];
  }

  /**
   * A poll that suspends keeps the pipe exactly as the events before the
   * would-block left it, so the next poll resumes from there.
   */
  lemma {:induction false} SuspendKeepsProgress(p: Pipe, w: Wire, events: seq<Event>)
    requires Admissible(p, w, events)
    requires Poll(p, w, events).Pending?
    ensures Admissible(p, w, events[..FirstStop(events)])
    ensures Poll(p, w, events[..FirstStop(events)]) ==
              Running(Poll(p, w, events).pipe, Poll(p, w, events).wire)
    ensures Admissible(Poll(p, w, events).pipe, Poll(p, w, events).wire, Poll(p, w, events).rest)
    decreases |events|
  {
    var k := FirstStop(events);
    if k == 0 {
      assert events[..k] == [];
    } else {
      var r := Step(p, w, events[0]);
      assert FirstStop(events[1..]) == k - 1;
      SuspendKeepsProgress(r.pipe, r.wire, events[1..]);
      assert events[1..][..k - 1] == events[..k][1..];
    }
  }

  /**
   * A would-block on a read, or on a write before any of its bytes were
   * sent, is invisible to the relay: a poll that stops there, followed by the
   * poll that resumes with the remaining events, ends exactly where one poll
   * over the events without the would-block ends.
   */
  lemma {:induction false} ResumeIsSeamless(p: Pipe, w: Wire, pre: seq<Event>, post: seq<Event>)
    requires FirstStop(pre) == |pre|
    requires Admissible(p, w, pre + ([WouldBlock] + post))
    ensures Admissible(p, w, pre + post)
    ensures Poll(p, w, pre + ([WouldBlock] + post)).Pending?
    ensures var r := Poll(p, w, pre + ([WouldBlock] + post));
      && Admissible(r.pipe, r.wire, r.rest)
      && Poll(r.pipe, r.wire, r.rest) == Poll(p, w, pre + post)
    decreases |pre|
  {
    var events := pre + ([WouldBlock] + post);
    if |pre| == 0 {
      assert events == [WouldBlock] + post && pre + post == post;
      assert events[1..] == post;
    } else {
      assert !Stops(pre[0]);
      assert FirstStop(pre[1..]) == |pre| - 1;
      assert events[0] == pre[0] && events[1..] == pre[1..] + ([WouldBlock] + post);
      assert (pre + post)[0] == pre[0] && (pre + post)[1..] == pre[1..] + post;
      var r := Step(p, w, pre[0]);
      ResumeIsSeamless(r.pipe, r.wire, pre[1..], post);
    }
  }
}
