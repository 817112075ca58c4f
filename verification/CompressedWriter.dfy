/**
 The parallel block compressor as a state machine. One producer and N compression
 threads share a ring buffer, one mutex and one condition variable. A step is one
 section executed while the mutex is held, or one unlocked action: starting or
 ending the producer's memcpy, one read of the ring by the encoder, or one `write`
 call inside `write_all`.
 */
module CompressedWriter {
  import opened BlockFormat
  import opened RingArithmetic

  /** `thread_pos` of a thread that works on no block. */
  const IDLE := 0xFFFF_FFFF_FFFF_FFFF

  /** `stream` and `ringSize` are fixed by the other fields; `syncFails` says that close() is
      asked to sync the file and that fails. */
  datatype Config = Config(
    blockSize: nat, numThreads: nat, codec: Codec, calls: seq<seq<byte>>,
    stream: seq<byte>, ringSize: nat, syncFails: bool)
  {
    ghost predicate Valid() {
      && 0 < blockSize < WORD
      && 0 < numThreads
      && Faithful(codec, blockSize)
      && stream == Concat(calls)
      && ringSize == blockSize * (numThreads + 2)
      && |stream| + ringSize < IDLE
    }

    /** The most bytes one frame can take. */
    function FrameLimit(): nat { HEADER_SIZE + codec.limit }
  }

  /** Where a compression thread stands. `At...` threads are about to take the mutex. */
  datatype Worker =
    | AtTop                                                   // head of the outer loop
    | AsleepTop                                               // waiting for data
    | Compressing(len: nat, input: seq<byte>)                 // unlocked; `input` was fed to the encoder
    | AtTurn(len: nat, packed: seq<byte>)                     // compressed; empty `packed` means failure
    | AsleepTurn(len: nat, packed: seq<byte>)                 // waiting for earlier blocks
    | Writing(len: nat, packed: seq<byte>, done: nat)         // unlocked; `done` bytes are in the file
    | Exited
  {
    predicate Active() { Compressing? || AtTurn? || AsleepTurn? || Writing? }

    predicate Asleep() { AsleepTop? || AsleepTurn? }

    function Woken(): Worker {
      match this
      case AsleepTop => AtTop
      case AsleepTurn(len, packed) => AtTurn(len, packed)
      case _ => this
    }
  }

  /** Where the producer stands; `rest` is what the current `write` has yet to copy. */
  datatype Producer =
    | Between                                     // between two calls
    | InWrite(rest: seq<byte>)                    // head of the loop in write()
    | Copying(rest: seq<byte>, amount: nat)       // inside memcpy, unlocked
    | Publishing(rest: seq<byte>)                 // entering update_reservation(WAIT)
    | AsleepFull(rest: seq<byte>)                 // waiting for room in the ring
    | AtFull(rest: seq<byte>)                     // woken from that wait
    | Flushing                                    // entering update_reservation(NOWAIT) from write()
    | FlushingLast                                // entering update_reservation(NOWAIT) from close()
    | MarkingClosed                               // about to set `closing`
    | Joining
    | Closed
  {
    function Woken(): Producer {
      match this
      case AsleepFull(rest) => AtFull(rest)
      case _ => this
    }

    function Rest(): seq<byte> {
      match this
      case InWrite(rest) => rest
      case Copying(rest, _) => rest
      case Publishing(rest) => rest
      case AsleepFull(rest) => rest
      case AtFull(rest) => rest
      case _ => []
    }
  }

  /** `written` is auxiliary: how much of the stream lies in complete frames of `file`. */
  datatype State = State(
    ring: seq<byte>,
    threadPos: seq<nat>,
    nextPos: nat,
    endPos: nat,
    closing: bool,
    writeError: bool,
    reservedPos: nat,
    writePos: nat,
    uptoPos: nat,
    error: bool,
    workers: seq<Worker>,
    producer: Producer,
    calls: seq<seq<byte>>,
    file: seq<byte>,
    written: nat)

  predicate Init(c: Config, s: State) {
    && |s.ring| == c.ringSize
    && s.threadPos == seq(c.numThreads, _ => IDLE)
    && s.nextPos == 0 && s.endPos == 0
    && !s.closing && !s.writeError && !s.error
    && s.reservedPos == 0 && s.writePos == 0 && s.uptoPos == 0
    && s.workers == seq(c.numThreads, _ => AtTop)
    && s.producer == Between && s.calls == c.calls
    && s.file == [] && s.written == 0
  }

  predicate Shape(c: Config, s: State) {
    && |s.ring| == c.ringSize
    && |s.threadPos| == |s.workers| == c.numThreads
  }

  /** The scan over `thread_pos` in update_reservation: everything below is released. */
  function Completed(threadPos: seq<nat>, nextPos: nat): (r: nat)
    ensures r <= nextPos
    ensures forall i | 0 <= i < |threadPos| :: r <= threadPos[i]
    ensures r == nextPos || r in threadPos
  {
    if threadPos == [] then
      nextPos
    else
      Min(threadPos[|threadPos| - 1], Completed(threadPos[..|threadPos| - 1], nextPos))
  }

  function Broadcast(s: State): State {
    s.(workers := seq(|s.workers|, i requires 0 <= i < |s.workers| => s.workers[i].Woken()),
       producer := s.producer.Woken())
  }

  // ---------------------------------------------------------------- producer

  predicate Stopped(s: State) { s.producer == Closed }

  predicate AllExited(s: State) { forall i | 0 <= i < |s.workers| :: s.workers[i] == Exited }

  predicate ProducerEnabled(c: Config, s: State, junk: seq<byte>) {
    && Shape(c, s)
    && match s.producer
       case AsleepFull(_) => false
       case Closed => false
       case Joining => AllExited(s)
       case InWrite(_) => |junk| == c.ringSize
       case Copying(rest, amount) =>
         0 < c.ringSize && amount <= Min(|rest|, c.ringSize - Slot(s.writePos, c.ringSize))
       case _ => true
  }

  /** Bytes the next memcpy moves: up to the end of the ring, the reservation or the data. */
  function CopyAmount(c: Config, s: State, rest: seq<byte>): nat
    requires 0 < c.ringSize && s.writePos <= s.uptoPos
  {
    Min(c.ringSize - Slot(s.writePos, c.ringSize), Min(s.uptoPos - s.writePos, |rest|))
  }

  function Overwrite(ring: seq<byte>, offset: nat, data: seq<byte>): (r: seq<byte>)
    requires offset + |data| <= |ring|
    ensures |r| == |ring|
  {
    ring[..offset] + data + ring[offset + |data|..]
  }

  /** One turn of the loop in write(). While the memcpy runs, the target bytes hold `junk`. */
  function WriteLoop(c: Config, s: State, junk: seq<byte>): State
    requires Shape(c, s) && s.producer.InWrite? && |junk| == c.ringSize && 0 < c.ringSize
  {
    var rest := s.producer.rest;
    if s.error || rest == [] then
      s.(producer := if !s.error && s.writePos - s.reservedPos >= c.ringSize / 2 then Flushing else Between)
    else if s.uptoPos <= s.writePos then
      s.(producer := Publishing(rest))
    else
      var offset := Slot(s.writePos, c.ringSize);
      var amount := CopyAmount(c, s, rest);
      s.(ring := Overwrite(s.ring, offset, junk[..amount]), producer := Copying(rest, amount))
  }

  /** The memcpy ends: its target holds the data and the write position advances. */
  function CopyEnd(c: Config, s: State): State
    requires ProducerEnabled(c, s, []) && s.producer.Copying?
  {
    var Copying(rest, amount) := s.producer;
    s.(ring := Overwrite(s.ring, Slot(s.writePos, c.ringSize), rest[..amount]),
       writePos := s.writePos + amount,
       producer := InWrite(rest[amount..]))
  }

  /** The start of update_reservation: hand over what was copied and wake everyone. */
  function Publish(s: State): State {
    Broadcast(s.(endPos := s.writePos, reservedPos := s.writePos))
  }

  /** One pass of the wait loop in update_reservation, up to the reservation it leaves. */
  function Reserve(c: Config, s: State): State {
    if s.error then s
    else if s.writeError then s.(error := true)
    else s.(uptoPos := Completed(s.threadPos, s.nextPos) + c.ringSize)
  }

  /** That pass with WAIT: go back to copying, or sleep while the ring is full. */
  function AwaitRoom(c: Config, s: State, rest: seq<byte>): State {
    var r := Reserve(c, s);
    r.(producer := if r.error || r.reservedPos < r.uptoPos then InWrite(rest) else AsleepFull(rest))
  }

  /** All threads have been joined: close() syncs and takes over the threads' error. */
  function Joined(c: Config, s: State): State {
    s.(producer := Closed, error := s.error || c.syncFails || s.writeError)
  }

  function ProducerStep(c: Config, s: State, junk: seq<byte>): State
    requires ProducerEnabled(c, s, junk) && 0 < c.ringSize
  {
    match s.producer
    case Between =>
      if s.calls == [] then s.(producer := FlushingLast)
      else s.(producer := InWrite(s.calls[0]), calls := s.calls[1..])
    case InWrite(_) => WriteLoop(c, s, junk)
    case Copying(_, _) => CopyEnd(c, s)
    case Publishing(rest) => AwaitRoom(c, Publish(s), rest)
    case AtFull(rest) => AwaitRoom(c, s, rest)
    case Flushing => Reserve(c, Publish(s)).(producer := Between)
    case FlushingLast => Reserve(c, Publish(s)).(producer := MarkingClosed)
    case MarkingClosed => Broadcast(s.(closing := true)).(producer := Joining)
    case Joining => Joined(c, s)
    case _ => s
  }

  // ------------------------------------------------------- compression threads

  predicate CanClaim(c: Config, s: State) {
    && !s.writeError
    && s.nextPos < s.endPos
    && (s.closing || s.nextPos + c.blockSize <= s.endPos)
  }

  predicate CanExit(s: State) {
    s.closing && (s.writeError || s.nextPos == s.endPos)
  }

  /** The head of the outer loop: claim a block, exit, or sleep. */
  function TopSection(c: Config, s: State, i: nat): State
    requires i < |s.workers| == |s.threadPos|
  {
    if CanClaim(c, s) then
      var newNext := Min(s.endPos, s.nextPos + c.blockSize);
      s.(threadPos := s.threadPos[i := s.nextPos],
         nextPos := newNext,
         workers := s.workers[i := Compressing(newNext - s.nextPos, [])])
    else if CanExit(s) then
      s.(workers := s.workers[i := Exited])
    else
      s.(workers := s.workers[i := AsleepTop])
  }

  /** The block is released and everyone woken; the thread is back at the loop head. */
  function Release(s: State, i: nat): State
    requires i < |s.workers| == |s.threadPos|
  {
    Broadcast(s.(threadPos := s.threadPos[i := IDLE], workers := s.workers[i := AtTop]))
  }

  predicate MustWait(threadPos: seq<nat>, i: nat)
    requires i < |threadPos|
  {
    exists j | 0 <= j < |threadPos| :: threadPos[j] < threadPos[i]
  }

  /** After compression or a wakeup: fail, wait for an earlier block, or start writing.
      A thread that gives up keeps the mutex and goes on with the loop head. */
  function TurnSection(c: Config, s: State, i: nat): State
    requires i < |s.workers| == |s.threadPos| && s.workers[i].AtTurn?
  {
    var AtTurn(len, packed) := s.workers[i];
    var s1 := s.(writeError := s.writeError || packed == []);
    if s1.writeError then
      TopSection(c, Release(s1, i), i)
    else if MustWait(s1.threadPos, i) then
      s1.(workers := s1.workers[i := AsleepTurn(len, packed)])
    else
      s1.(workers := s1.workers[i := Writing(len, packed, 0)])
  }

  /** The output buffer handed to write_all. */
  function Output(len: nat, packed: seq<byte>): seq<byte>
    requires len < WORD && |packed| < WORD
  {
    Header(|packed|, len) + packed
  }

  /** One read of the ring by the encoder, or one write() of write_all, moves `k` bytes. */
  predicate WorkerEnabled(c: Config, s: State, i: nat, k: nat) {
    && Shape(c, s)
    && 0 < c.ringSize
    && i < |s.workers|
    && match s.workers[i]
       case AtTop => true
       case AtTurn(_, _) => true
       case Compressing(len, input) =>
         |input| < len ==>
           0 < k <= Min(len - |input|, c.ringSize - Slot(s.threadPos[i] + |input|, c.ringSize))
       case Writing(len, packed, done) =>
         len < WORD && |packed| < WORD && (done < |Output(len, packed)| ==> 0 < k <= |Output(len, packed)| - done)
       case _ => false
  }

  function WorkerStep(c: Config, s: State, i: nat, k: nat, ok: bool): State
    requires WorkerEnabled(c, s, i, k)
  {
    match s.workers[i]
    case AtTop => TopSection(c, s, i)
    case Compressing(len, input) =>
      if |input| < len then
        var offset := Slot(s.threadPos[i] + |input|, c.ringSize);
        s.(workers := s.workers[i := Compressing(len, input + s.ring[offset..offset + k])])
      else
        s.(workers := s.workers[i := AtTurn(len, if ok then c.codec.compress(input) else [])])
    case AtTurn(_, _) => TurnSection(c, s, i)
    case Writing(len, packed, done) =>
      var out := Output(len, packed);
      if done < |out| then
        s.(file := s.file + out[done..done + k],
           workers := s.workers[i := Writing(len, packed, done + k)])
      else
        TopSection(c, Release(s.(written := s.written + len), i), i)
    case _ => s
  }

  // ------------------------------------------------------------------- runs

  datatype Step =
    | Produce(junk: seq<byte>)
    | Work(i: nat, k: nat, ok: bool)
    | SpuriousProducer
    | SpuriousWorker(i: nat)

  predicate Enabled(c: Config, s: State, step: Step) {
    match step
    case Produce(junk) => ProducerEnabled(c, s, junk) && 0 < c.ringSize
    case Work(i, k, _) => WorkerEnabled(c, s, i, k)
    case SpuriousProducer => s.producer.AsleepFull?
    case SpuriousWorker(i) => i < |s.workers| && s.workers[i].Asleep()
  }

  function Apply(c: Config, s: State, step: Step): State
    requires Enabled(c, s, step)
  {
    match step
    case Produce(junk) => ProducerStep(c, s, junk)
    case Work(i, k, ok) => WorkerStep(c, s, i, k, ok)
    case SpuriousProducer => s.(producer := s.producer.Woken())
    case SpuriousWorker(i) => s.(workers := s.workers[i := s.workers[i].Woken()])
  }

  /** `states` is a run that takes `steps`, from any state. */
  ghost predicate RunFrom(c: Config, states: seq<State>, steps: seq<Step>) {
    && |states| == |steps| + 1
    && forall k | 0 <= k < |steps| ::
         Enabled(c, states[k], steps[k]) && states[k + 1] == Apply(c, states[k], steps[k])
  }

  ghost predicate Run(c: Config, states: seq<State>, steps: seq<Step>) {
    RunFrom(c, states, steps) && Init(c, states[0])
  }
}
