/**
 One connection of the edge-triggered echo server: an output buffer that compacts and grows,
 a drain loop over `read`, a flush loop over `write`, and EPOLLOUT only on demand.

 The kernel is a script: whatever results `read`, `write` and `realloc` give, in any order.
 When a script is used up, `read` and `write` report EAGAIN and `realloc` succeeds.
 */
module EchoConnection {
  import opened Bytes

  const READ_BUFFER_SIZE := 8192
  const INITIAL_OUTPUT_CAPACITY := 4096
  const MAX_OUTPUT_CAPACITY := 1024 * 1024

  type Chunk = b: seq<byte> | 1 <= |b| <= READ_BUFFER_SIZE witness [0]

  datatype ReadResult = Data(bytes: Chunk) | Eof | ReadInterrupted | ReadAgain | ReadFailed

  /** `Wrote(n)` transfers at most `n` bytes; `Wrote(0)` is a zero return. */
  datatype WriteResult = Wrote(n: nat) | WriteInterrupted | WriteAgain | WriteFailed

  datatype AppendResult = Appended | NoBufferSpace | NoMemory

  /** What epoll reports for the connection. */
  datatype Ready = Ready(err: bool, input: bool, rdhup: bool, hup: bool, output: bool)

  /** What epoll is asked to watch, beside EPOLLET; `input` covers EPOLLIN and EPOLLRDHUP. */
  datatype Interest = Interest(input: bool, output: bool)

  datatype Outcome =
    | StaysOpen
    | ClosedOnError             // EPOLLERR was reported
    | ClosedOnFailure           // reading, buffering or writing failed
    | ClosedWhenDone            // the peer finished and nothing is pending
    | ClosedOnModify            // epoll_ctl failed

  /** Reading, buffering and writing all succeeded. */
  predicate WentWell(r: Outcome) {
    r != ClosedOnError && r != ClosedOnFailure
  }

  /** The kernel side of the connection, with the history of what crossed it. */
  class Socket {
    var inputs: seq<ReadResult>
    var outputs: seq<WriteResult>
    var allocs: seq<bool>
    var received: seq<byte>
    var sent: seq<byte>
    var lastRead: ReadResult
    var lastWrite: WriteResult
    var refused: bool           // the last allocation was refused

    constructor (inputs: seq<ReadResult>, outputs: seq<WriteResult>, allocs: seq<bool>)
      ensures this.inputs == inputs && this.outputs == outputs && this.allocs == allocs
      ensures received == [] && sent == []
    {
      this.inputs, this.outputs, this.allocs := inputs, outputs, allocs;
      received, sent, lastRead, lastWrite, refused := [], [], ReadAgain, WriteAgain, false;
    }

    /** What will have been read, and what will be left, when a drain from here succeeds. */
    ghost function Drained(): (seq<byte>, seq<ReadResult>)
      reads this
    {
      (received + Payload(inputs), AfterDrain(inputs))
    }

    method Read() returns (r: ReadResult)
      modifies `inputs, `received, `lastRead
      ensures r == (if old(inputs) == [] then ReadAgain else old(inputs)[0])
      ensures inputs == if old(inputs) == [] then [] else old(inputs)[1..]
      ensures received == old(received) + if r.Data? then r.bytes else []
      ensures lastRead == r
      ensures old(Drained()) == if Stops(r) then (received, inputs) else Drained()
      ensures old(Sound()) ==> Sound() && r != ReadFailed
    {
      if inputs == [] {
        r := ReadAgain;
      } else {
        if !Stops(inputs[0]) { PayloadStep(received, inputs); }
        r, inputs := inputs[0], inputs[1..];
      }
      if r.Data? {
        received := received + r.bytes;
      }
      lastRead := r;
    }

    /** Returns what the kernel reported; a count never exceeds what was offered. */
    method Write(data: seq<byte>) returns (r: WriteResult)
      modifies `outputs, `sent, `lastWrite
      ensures old(outputs) == [] ==> r == WriteAgain && outputs == []
      ensures old(outputs) != [] ==> outputs == old(outputs)[1..]
      ensures old(outputs) != [] ==>
        r == if old(outputs)[0].Wrote? then Wrote(Min(old(outputs)[0].n, |data|)) else old(outputs)[0]
      ensures old(Sound()) && data != [] ==> Sound() && r != Wrote(0) && r != WriteFailed
      ensures r.Wrote? ==> r.n <= |data| && sent == old(sent) + data[..r.n]
      ensures !r.Wrote? ==> sent == old(sent)
      ensures lastWrite == r
    {
      if outputs == [] {
        r := WriteAgain;
      } else {
        r, outputs := outputs[0], outputs[1..];
      }
      if r.Wrote? {
        r := Wrote(Min(r.n, |data|));
        sent := sent + data[..r.n];
      }
      lastWrite := r;
    }

    method Allocate() returns (ok: bool)
      modifies `allocs, `refused
      ensures ok == (old(allocs) == [] || old(allocs)[0]) && refused == !ok
      ensures old(Sound()) ==> Sound() && ok
    {
      ok := true;
      if allocs != [] {
        ok, allocs := allocs[0], allocs[1..];
      }
      refused := !ok;
    }

    /** Nothing that the kernel has still to answer is a failure. */
    ghost predicate Sound()
      reads this
    {
      && (forall i | 0 <= i < |inputs| :: inputs[i] != ReadFailed)
      && (forall i | 0 <= i < |outputs| :: outputs[i] != Wrote(0) && outputs[i] != WriteFailed)
      && (forall i | 0 <= i < |allocs| :: allocs[i])
    }
  }

  /** A result that ends the drain loop. */
  predicate Stops(r: ReadResult) {
    !r.Data? && !r.ReadInterrupted?
  }

  /** The bytes that a drain of the scripted results reads, and the results behind it. */
  function Payload(inputs: seq<ReadResult>): seq<byte> {
    if inputs == [] || Stops(inputs[0]) then []
    else (if inputs[0].Data? then inputs[0].bytes else []) + Payload(inputs[1..])
  }

  function AfterDrain(inputs: seq<ReadResult>): seq<ReadResult> {
    if inputs == [] then [] else if Stops(inputs[0]) then inputs[1..] else AfterDrain(inputs[1..])
  }

  predicate ReadSide(ready: Ready) {
    ready.input || ready.rdhup || ready.hup
  }

  /** The same for one event, and for a run of events. */
  function EventPayload(inputs: seq<ReadResult>, ready: Ready): seq<byte> {
    if ReadSide(ready) then Payload(inputs) else []
  }

  function AfterEvent(inputs: seq<ReadResult>, ready: Ready): seq<ReadResult> {
    if ReadSide(ready) then AfterDrain(inputs) else inputs
  }

  function AllAfter(inputs: seq<ReadResult>, events: seq<(Ready, bool)>): seq<ReadResult>
    decreases |events|
  {
    if events == [] then inputs
    else AfterEvent(AllAfter(inputs, events[..|events| - 1]), events[|events| - 1].0)
  }

  function AllPayload(inputs: seq<ReadResult>, events: seq<(Ready, bool)>): seq<byte>
    decreases |events|
  {
    if events == [] then []
    else
      var before := events[..|events| - 1];
      AllPayload(inputs, before) + EventPayload(AllAfter(inputs, before), events[|events| - 1].0)
  }

  ghost predicate AnyReadSide(events: seq<(Ready, bool)>) {
    exists i :: 0 <= i < |events| && ReadSide(events[i].0)
  }

  lemma OneMoreEvent(received: seq<byte>, inputs: seq<ReadResult>, events: seq<(Ready, bool)>, i: nat)
    requires i < |events|
    ensures var before, ready := AllAfter(inputs, events[..i]), events[i].0;
      && (AnyReadSide(events[..i + 1]) <==> AnyReadSide(events[..i]) || ReadSide(ready))
      && AllAfter(inputs, events[..i + 1]) == AfterEvent(before, ready)
      && received + AllPayload(inputs, events[..i + 1]) ==
         (received + AllPayload(inputs, events[..i])) + EventPayload(before, ready)
  {
    assert events[..i + 1] == events[..i] + [events[i]];
    assert events[..i + 1][..i] == events[..i];
    Regroup(received, AllPayload(inputs, events[..i]),
            EventPayload(AllAfter(inputs, events[..i]), events[i].0));
  }

  /** With nothing written twice, what the next event may buffer is bounded by what all may. */
  lemma NextFits(received: seq<byte>, inputs: seq<ReadResult>, events: seq<(Ready, bool)>, i: nat,
                 now: seq<byte>, pending: nat, pending': nat)
    requires i < |events| && now == received + AllPayload(inputs, events[..i])
    requires pending <= |received| && |now| - pending' >= |received| - pending
    ensures pending' + |EventPayload(AllAfter(inputs, events[..i]), events[i].0)| <= pending + |AllPayload(inputs, events)|
  {
    OneMoreEvent([], inputs, events, i);
    PayloadGrows(inputs, events, i + 1);
  }

  lemma {:induction false} PayloadGrows(inputs: seq<ReadResult>, events: seq<(Ready, bool)>, i: nat)
    requires i <= |events|
    ensures |AllPayload(inputs, events[..i])| <= |AllPayload(inputs, events)|
    decreases |events|
  {
    if i < |events| {
      PayloadGrows(inputs, events[..|events| - 1], i);
      assert events[..|events| - 1][..i] == events[..i];
    } else {
      assert events[..i] == events;
    }
  }

  lemma PayloadStep(received: seq<byte>, inputs: seq<ReadResult>)
    requires inputs != [] && !Stops(inputs[0])
    ensures received + Payload(inputs) ==
      (received + if inputs[0].Data? then inputs[0].bytes else []) + Payload(inputs[1..])
  {
    Regroup(received, if inputs[0].Data? then inputs[0].bytes else [], Payload(inputs[1..]));
  }

  function Doubled(n: nat, k: nat): nat {
    if k == 0 then n else 2 * Doubled(n, k - 1)
  }

  /** The growth loop: doubles, or saturates at the cap, until the request fits. */
  method GrowCapacity(current: nat, required: nat) returns (capacity: nat)
    requires current < required <= MAX_OUTPUT_CAPACITY
    ensures current <= required <= capacity <= MAX_OUTPUT_CAPACITY
    ensures capacity <= INITIAL_OUTPUT_CAPACITY || capacity < 2 * required
    ensures var start := if current == 0 then INITIAL_OUTPUT_CAPACITY else current;
      capacity == MAX_OUTPUT_CAPACITY || exists k: nat :: capacity == Doubled(start, k)
  {
    capacity := current;
    if capacity == 0 {
      capacity := INITIAL_OUTPUT_CAPACITY;
    }
    ghost var start, k: nat := capacity, 0;
    while capacity < required
      invariant 0 < capacity <= MAX_OUTPUT_CAPACITY
      invariant capacity == MAX_OUTPUT_CAPACITY || capacity == Doubled(start, k)
      invariant capacity <= INITIAL_OUTPUT_CAPACITY || capacity < 2 * required
      decreases MAX_OUTPUT_CAPACITY - capacity
    {
      if capacity > MAX_OUTPUT_CAPACITY / 2 {
        capacity := MAX_OUTPUT_CAPACITY;
      } else {
        capacity, k := capacity * 2, k + 1;
      }
    }
  }

  lemma MoveAcross(sent: seq<byte>, pending: seq<byte>, n: nat)
    requires n <= |pending|
    ensures (sent + pending[..n]) + pending[n..] == sent + pending
  {
  }

  class Connection {
    const socket: Socket
    var output: array<byte>
    var begin: nat
    var end: nat
    var peerEof: bool
    var registered: Interest

    ghost predicate Valid()
      reads this
    {
      begin <= end <= output.Length <= MAX_OUTPUT_CAPACITY
    }

    /** The bytes accepted and not yet written. */
    ghost function Pending(): seq<byte>
      requires Valid()
      reads this, output
    {
      output[begin..end]
    }

    function PendingOutput(): nat
      requires begin <= end
      reads this
    {
      end - begin
    }

    function ConnectionEvents(): Interest
      requires begin <= end
      reads this
    {
      Interest(!peerEof, PendingOutput() > 0)
    }

    /** Nothing lost, duplicated or reordered: written bytes, then pending ones, are the input. */
    ghost predicate Conserved()
      requires Valid()
      reads this, output, socket
    {
      socket.received == socket.sent + Pending()
    }

    /** Pending bytes are there because the socket refused more. */
    ghost predicate BackedUp()
      requires Valid()
      reads this, output, socket
    {
      Pending() != [] ==> socket.lastWrite == WriteAgain
    }

    /** The last chunk read would have taken the backlog over the cap. */
    ghost predicate OverCap()
      requires Valid()
      reads this, output, socket
    {
      socket.lastRead.Data? && |Pending()| + |socket.lastRead.bytes| > MAX_OUTPUT_CAPACITY
    }

    /** The last read or write failed, or the last chunk met the cap or a refused allocation. */
    ghost predicate SomethingFailed()
      requires Valid()
      reads this, output, socket
    {
      || socket.lastRead == ReadFailed
      || socket.lastWrite in {Wrote(0), WriteFailed}
      || OverCap()
      || socket.refused
    }

    /** Input that an event announced was read to EAGAIN or the end; other events read nothing. */
    ghost predicate ReadOut(ready: Ready, lastRead: ReadResult, eof: bool)
      reads this, socket
    {
      && (eof ==> peerEof)
      && if ReadSide(ready) then socket.lastRead == ReadAgain || peerEof
         else socket.lastRead == lastRead && peerEof == eof
    }

    /** No stall, while the connection is open: every byte is accounted for, whatever is still
        wanted is watched, and a backlog was refused by the socket when last tried. */
    ghost predicate Watched()
      requires Valid()
      reads this, output, socket
    {
      && Conserved() && BackedUp() && (!peerEof || Pending() != [])
      && registered == Interest(!peerEof, Pending() != [])
    }

    /** Why the connection was closed at event `e`: reported or real failures, or a peer that
        finished and got everything back. */
    ghost predicate CloseExplained(r: Outcome, e: (Ready, bool))
      requires Valid()
      reads this, output, socket
    {
      && (r == ClosedOnError ==> e.0.err)
      && (r == ClosedOnFailure ==> SomethingFailed())
      && (r == ClosedWhenDone ==> peerEof && socket.sent == socket.received)
      && (r == ClosedOnModify ==> Conserved() && !e.1 && (peerEof ==> Pending() != []))
    }

    /** Bytes that would be buffered if a drain from here wrote nothing. */
    ghost function ToBuffer(): nat
      requires Valid()
      reads this, output, socket
    {
      |Pending()| + |Payload(socket.inputs)|
    }

    /** The backlog is the one given, or a write was tried since. */
    ghost predicate TriedToWrite(pending: seq<byte>, outputs: seq<WriteResult>)
      requires Valid()
      reads this, output, socket
    {
      |socket.outputs| <= |outputs| &&
      (Pending() == pending || outputs == [] || |socket.outputs| < |outputs|)
    }

    /** `calloc` of the connection followed by its registration. */
    constructor (socket: Socket)
      requires socket.received == [] && socket.sent == []
      ensures this.socket == socket && fresh(output)
      ensures Valid() && Watched() && !peerEof && Pending() == []
    {
      this.socket := socket;
      output := new byte[0];
      begin, end, peerEof := 0, 0, false;
      registered := Interest(true, false);
    }

    method Compact()
      requires Valid()
      modifies this`begin, this`end, output
      ensures Valid() && begin == 0 && Pending() == old(Pending())
    {
      var pending := end - begin;
      forall i | 0 <= i < pending {
        output[i] := output[begin + i];
      }
      begin, end := 0, pending;
    }

    method Reallocate(capacity: nat)
      requires Valid() && output.Length <= capacity <= MAX_OUTPUT_CAPACITY
      modifies this`output
      ensures Valid() && fresh(output) && output.Length == capacity
      ensures Pending() == old(Pending())
    {
      var bigger := new byte[capacity];
      forall i | 0 <= i < output.Length {
        bigger[i] := output[i];
      }
      output := bigger;
    }

    method CopyIn(data: seq<byte>)
      requires Valid() && end + |data| <= output.Length
      modifies this`end, output
      ensures Valid() && Pending() == old(Pending()) + data
    {
      forall i | 0 <= i < |data| {
        output[end + i] := data[i];
      }
      end := end + |data|;
    }

    /** `append_output`: refuses exactly what would take the backlog over the cap, and neither
        a refusal nor a failed allocation touches the backlog. */
    method AppendOutput(data: seq<byte>) returns (r: AppendResult)
      requires Valid()
      modifies this`output, this`begin, this`end, output, socket`allocs, socket`refused
      ensures Valid() && (output == old(output) || fresh(output))
      ensures r == NoBufferSpace <==> old(|Pending()|) + |data| > MAX_OUTPUT_CAPACITY
      ensures r == NoMemory ==> old(socket.allocs) != [] && !old(socket.allocs)[0] && socket.refused
      ensures old(socket.Sound()) ==> socket.Sound() && r != NoMemory
      ensures r == NoMemory || output != old(output) ==> |old(Pending())| + |data| > old(output.Length)
      ensures Pending() == old(Pending()) + if r == Appended then data else []
    {
      var pending := PendingOutput();
      if |data| > MAX_OUTPUT_CAPACITY - pending {
        return NoBufferSpace;
      }
      if begin > 0 && end + |data| > output.Length {
        Compact();
      }
      var required := end + |data|;
      if required > output.Length {
        var capacity := GrowCapacity(output.Length, required);
        var ok := socket.Allocate();
        if !ok {
          return NoMemory;
        }
        Reallocate(capacity);
      }
      CopyIn(data);
      r := Appended;
    }

    /** One call of `write` on the whole backlog. */
    method WriteOnce() returns (r: WriteResult)
      requires Valid() && begin < end
      modifies this`begin, socket`outputs, socket`sent, socket`lastWrite
      ensures Valid() && socket.lastWrite == r
      ensures socket.sent + Pending() == old(socket.sent + Pending())
      ensures old(socket.sent) <= socket.sent
      ensures if old(socket.outputs) == [] then r == WriteAgain && socket.outputs == []
              else |socket.outputs| == |old(socket.outputs)| - 1
      ensures old(socket.Sound()) ==> socket.Sound() && r != Wrote(0) && r != WriteFailed
      ensures begin == old(begin) + if r.Wrote? then r.n else 0
    {
      ghost var sent, pending := socket.sent, Pending();
      r := socket.Write(output[begin..end]);
      if r.Wrote? {
        begin := begin + r.n;
        assert Pending() == pending[r.n..];
        MoveAcross(sent, pending, r.n);
      }
    }

    /** `flush_output`: writes in order until the backlog is empty or the socket refuses. */
    method FlushOutput() returns (ok: bool)
      requires Valid()
      modifies this`begin, this`end, socket`outputs, socket`sent, socket`lastWrite
      ensures Valid()
      ensures socket.sent + Pending() == old(socket.sent + Pending())
      ensures old(socket.sent) <= socket.sent
      ensures ok ==> BackedUp()
      ensures |socket.outputs| <= |old(socket.outputs)|
      ensures old(Pending()) != [] && old(socket.outputs) != [] ==>
        |socket.outputs| < |old(socket.outputs)|
      ensures !ok ==> Pending() != [] && socket.lastWrite in {Wrote(0), WriteFailed}
      ensures old(socket.Sound()) ==> ok && socket.Sound()
    {
      while PendingOutput() > 0
        invariant Valid()
        invariant old(socket.Sound()) ==> socket.Sound()
        invariant socket.sent + Pending() == old(socket.sent + Pending())
        invariant old(socket.sent) <= socket.sent
        invariant |socket.outputs| <= |old(socket.outputs)|
        invariant begin == old(begin) || old(socket.outputs) == [] ||
          |socket.outputs| < |old(socket.outputs)|
        invariant end == old(end)
        decreases |socket.outputs|, PendingOutput()
      {
        var r := WriteOnce();
        match r
        case Wrote(n) =>
          if n == 0 {
            return false;
          }
        case WriteInterrupted =>
        case WriteAgain =>
          return true;
        case WriteFailed =>
          return false;
      }
      begin, end := 0, 0;
      ok := true;
    }

    /** Buffers one chunk just read and writes what the socket takes. */
    method EchoChunk(bytes: Chunk) returns (ok: bool)
      requires Valid() && socket.received == socket.sent + Pending() + bytes
      requires socket.lastRead == Data(bytes)
      modifies this`output, this`begin, this`end, output
      modifies socket`allocs, socket`refused, socket`outputs, socket`sent, socket`lastWrite
      ensures Valid() && (output == old(output) || fresh(output))
      ensures old(socket.sent) <= socket.sent && socket.sent <= socket.received
      ensures ok ==> Conserved() && BackedUp()
      ensures !ok ==> SomethingFailed()
      ensures ok && old(socket.outputs) != [] ==> |socket.outputs| < |old(socket.outputs)|
      ensures old(socket.outputs) == [] ==> socket.outputs == []
      ensures old(socket.Sound()) ==>
        socket.Sound() && (ok || old(|Pending()|) + |bytes| > MAX_OUTPUT_CAPACITY)
    {
      ghost var before := socket.sent + Pending();
      var appended := AppendOutput(bytes);
      if appended != Appended {
        assert before == socket.sent + Pending();
        return false;
      }
      assert socket.sent + Pending() == before + bytes;
      ok := FlushOutput();
    }

    /** One turn of the drain loop: a read, and the echo of what it delivered. */
    method ReadAndEcho() returns (r: ReadResult, ok: bool)
      requires Valid() && Conserved() && BackedUp()
      modifies this`output, this`begin, this`end, output, socket
      ensures Valid() && (output == old(output) || fresh(output))
      ensures old(socket.sent) <= socket.sent && socket.sent <= socket.received
      ensures ok ==> Conserved() && BackedUp() && !r.ReadFailed?
      ensures !ok ==> SomethingFailed()
      ensures socket.lastRead == r
      ensures old(socket.Drained()) == if Stops(r) then (socket.received, socket.inputs) else socket.Drained()
      ensures !Stops(r) ==> |socket.inputs| < |old(socket.inputs)|
      ensures ok ==> TriedToWrite(old(Pending()), old(socket.outputs))
      ensures old(socket.Sound()) ==> socket.Sound() && (ok || old(ToBuffer()) > MAX_OUTPUT_CAPACITY)
      ensures ok && !Stops(r) ==> ToBuffer() <= old(ToBuffer())
    {
      r := socket.Read();
      ok := !r.ReadFailed?;
      if r.Data? {
        ok := EchoChunk(r.bytes);
      }
    }

    /** `drain_input`: reads until EAGAIN or end of file, echoing as it goes. */
    method DrainInput() returns (ok: bool)
      requires Valid() && Conserved() && BackedUp()
      modifies this`output, this`begin, this`end, this`peerEof, output, socket
      ensures Valid() && (output == old(output) || fresh(output))
      ensures registered == old(registered)
      ensures old(socket.sent) <= socket.sent && socket.sent <= socket.received
      ensures ok ==> Conserved() && BackedUp()
      ensures ok ==> socket.lastRead == ReadAgain || (peerEof && socket.lastRead == Eof)
      ensures !ok ==> SomethingFailed()
      ensures ok ==> socket.received == old(socket.received) + Payload(old(socket.inputs))
      ensures ok ==> socket.inputs == AfterDrain(old(socket.inputs))
      ensures ok ==> TriedToWrite(old(Pending()), old(socket.outputs))
      ensures old(socket.Sound()) ==> socket.Sound() && (ok || old(ToBuffer()) > MAX_OUTPUT_CAPACITY)
      ensures old(peerEof) ==> peerEof
      ensures peerEof ==> old(peerEof) || (ok && socket.lastRead == Eof)
    {
      while true
        invariant Valid() && Conserved() && BackedUp()
        invariant output == old(output) || fresh(output)
        invariant registered == old(registered) && peerEof == old(peerEof)
        invariant old(socket.sent) <= socket.sent
        invariant socket.Drained() == old(socket.Drained())
        invariant TriedToWrite(old(Pending()), old(socket.outputs))
        invariant old(socket.Sound()) ==> socket.Sound()
        invariant ToBuffer() <= old(ToBuffer())
        decreases |socket.inputs|
      {
        var r, echoed := ReadAndEcho();
        if !echoed {
          return false;
        }
        match r
        case Data(_) =>
        case Eof =>
          peerEof := true;
          return true;
        case ReadInterrupted =>
        case ReadAgain =>
          return true;
      }
    }

    /** The reading and writing that one event asks for. */
    method MoveData(ready: Ready) returns (ok: bool)
      requires Valid() && Conserved() && BackedUp()
      modifies this, output, socket
      ensures Valid() && (output == old(output) || fresh(output))
      ensures registered == old(registered)
      ensures old(socket.sent) <= socket.sent && socket.sent <= socket.received
      ensures ok ==> Conserved() && BackedUp()
      ensures !ok ==> SomethingFailed()
      ensures ok ==> ReadOut(ready, old(socket.lastRead), old(peerEof))
      ensures ok ==>
        && socket.received == old(socket.received) + EventPayload(old(socket.inputs), ready)
        && socket.inputs == AfterEvent(old(socket.inputs), ready)
      ensures ok && ready.output && old(Pending()) != [] && old(socket.outputs) != [] ==>
        |socket.outputs| < |old(socket.outputs)|
      ensures old(socket.Sound()) ==> socket.Sound()
      ensures old(socket.Sound()) ==>
        (ok || |old(Pending())| + |EventPayload(old(socket.inputs), ready)| > MAX_OUTPUT_CAPACITY)
    {
      if ready.input || ready.rdhup || ready.hup {
        ok := DrainInput();
        if !ok {
          return;
        }
      }
      ok := true;
      if ready.output {
        ok := FlushOutput();
      }
    }

    /** The event loop's work for one ready connection. */
    method HandleEvent(ready: Ready, modifyOk: bool) returns (r: Outcome)
      requires Valid() && Conserved() && BackedUp()
      modifies this, output, socket
      ensures Valid() && (output == old(output) || fresh(output))
      ensures old(socket.sent) <= socket.sent && socket.sent <= socket.received
      ensures r == ClosedOnError <==> ready.err
      ensures r == StaysOpen ==> Watched() && modifyOk
      ensures WentWell(r) ==> ReadOut(ready, old(socket.lastRead), old(peerEof))
      ensures WentWell(r) ==>
        var toRead := ready.input || ready.rdhup || ready.hup;
        socket.inputs == if toRead then AfterDrain(old(socket.inputs)) else old(socket.inputs)
      ensures WentWell(r) ==>
        && socket.received == old(socket.received) + EventPayload(old(socket.inputs), ready)
        && socket.inputs == AfterEvent(old(socket.inputs), ready)
      ensures r == StaysOpen && ready.output && old(Pending()) != [] && old(socket.outputs) != [] ==>
        |socket.outputs| < |old(socket.outputs)|
      ensures CloseExplained(r, (ready, modifyOk))
      // Without a failure from the kernel, and within the cap, nothing is closed as failed.
      ensures old(socket.Sound()) ==>
        && socket.Sound()
        && (r == ClosedOnFailure ==>
              |old(Pending())| + |EventPayload(old(socket.inputs), ready)| > MAX_OUTPUT_CAPACITY)
    {
      if ready.err {
        return ClosedOnError;
      }
      var ok := MoveData(ready);
      if !ok {
        return ClosedOnFailure;
      }
      if peerEof && PendingOutput() == 0 {
        return ClosedWhenDone;
      }
      if !modifyOk {
        return ClosedOnModify;
      }
      registered := ConnectionEvents();
      return StaysOpen;
    }

    /** The life of a connection: any events with any kernel behaviour, up to the one that closes
        it, which is then the last of the `handled` ones. */
    method Serve(events: seq<(Ready, bool)>) returns (r: Outcome, handled: nat)
      requires Valid() && Watched()
      modifies this, output, socket
      ensures Valid() && handled <= |events| && socket.sent <= socket.received
      ensures if r == StaysOpen then handled == |events| else handled > 0
      ensures r == StaysOpen ==> Watched()
      ensures WentWell(r) && AnyReadSide(events[..handled]) ==> socket.lastRead == ReadAgain || peerEof
      ensures WentWell(r) ==>
        && socket.received == old(socket.received) + AllPayload(old(socket.inputs), events[..handled])
        && socket.inputs == AllAfter(old(socket.inputs), events[..handled])
      ensures r != StaysOpen ==> CloseExplained(r, events[handled - 1])
      ensures old(socket.Sound()) && |old(Pending())| + |AllPayload(old(socket.inputs), events)| <= MAX_OUTPUT_CAPACITY ==>
        r != ClosedOnFailure
    {
      ghost var within := socket.Sound() &&
        |Pending()| + |AllPayload(socket.inputs, events)| <= MAX_OUTPUT_CAPACITY;
      r, handled := StaysOpen, 0;
      assert events[..0] == [];
      while handled < |events| && r == StaysOpen
        invariant handled <= |events|
        invariant Valid() && (output == old(output) || fresh(output)) && socket.sent <= socket.received
        invariant r == StaysOpen ==> Watched()
        invariant WentWell(r) && AnyReadSide(events[..handled]) ==>
          socket.lastRead == ReadAgain || peerEof
        invariant WentWell(r) ==>
          && socket.received == old(socket.received) + AllPayload(old(socket.inputs), events[..handled])
          && socket.inputs == AllAfter(old(socket.inputs), events[..handled])
        invariant r != StaysOpen ==> handled > 0 && CloseExplained(r, events[handled - 1])
        invariant |old(socket.sent)| <= |socket.sent|
        invariant within ==> socket.Sound() && r != ClosedOnFailure
      {
        NextFits(old(socket.received), old(socket.inputs), events, handled,
                 socket.received, |old(Pending())|, |Pending()|);
        OneMoreEvent(old(socket.received), old(socket.inputs), events, handled);
        var e := events[handled];
        r := HandleEvent(e.0, e.1);
        handled := handled + 1;
      }
    }
  }
}
