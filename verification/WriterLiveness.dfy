/**
 The compressor never gets stuck and always finishes: no wakeup is lost, some thread
 can always move until close() has returned, and a run is at most as long as a number
 known at its start, plus two steps for every spurious wakeup.
 */
module WriterLiveness {
  import opened Options
  import opened BlockFormat
  import opened RingArithmetic
  import opened CompressedWriter
  import opened WriterSafety
  import R = WriterRuns

  predicate Spurious(step: Step) { step.SpuriousProducer? || step.SpuriousWorker? }

  /** The step is not a compression that fails. */
  predicate Succeeds(step: Step) { step.Work? ==> step.ok }

  // ------------------------------------------------------------- no lost wakeup

  /** In every reachable state a sleeping thread has a reason to sleep: what it waits for
      has not happened. */
  lemma NoLostWakeup(c: Config, states: seq<State>, steps: seq<Step>, n: nat)
    requires c.Valid() && Run(c, states, steps) && n < |states|
    ensures var s := states[n];
      && |s.workers| == |s.threadPos|
      && (forall i | 0 <= i < |s.workers| && s.workers[i].AsleepTop? :: !CanClaim(c, s) && !CanExit(s))
      && (forall i | 0 <= i < |s.workers| && s.workers[i].AsleepTurn? :: !s.writeError && MustWait(s.threadPos, i))
      && (s.producer.AsleepFull? ==>
            !s.writeError && s.reservedPos >= Completed(s.threadPos, s.nextPos) + c.ringSize)
  {
    InvReachable(c, states, steps, n);
    hide Run, Inv, Config.Valid, Completed, MustWait;
    InvParts(c, states[n]);
    hide Positions, Script, Idles, Blocks, Disjoint, NoGap, RingHolds, FileHolds;
  }

  // ----------------------------------------------------------------- no deadlock

  predicate Resting(w: Worker) { w.Asleep() || w.Exited? }

  /** If every thread rests, none waits for its turn: the earliest block has none before it. */
  lemma NobodyWaitsForever(c: Config, s: State)
    requires |s.workers| == |s.threadPos| && Idles(s) && Sleepers(c, s)
    requires forall i | 0 <= i < |s.workers| :: Resting(s.workers[i])
    ensures forall i | 0 <= i < |s.workers| :: !s.workers[i].AsleepTurn? && s.threadPos[i] == IDLE
  {
    assert Completed(s.threadPos, IDLE) == IDLE;
  }

  lemma RingHoldsABlock(c: Config)
    requires c.Valid()
    ensures c.blockSize <= c.ringSize
  {
    hide Concat, Faithful;
    assert c.blockSize * 1 <= c.blockSize * (c.numThreads + 2);
  }

  /** The producer cannot wait for room while every thread rests. */
  lemma FullRingHasWork(c: Config, s: State)
    requires c.Valid() && Shape(c, s) && Positions(c, s) && Script(c, s) && Sleepers(c, s)
    requires forall i | 0 <= i < |s.workers| ::
      s.threadPos[i] == IDLE && Resting(s.workers[i]) && !s.workers[i].AsleepTurn?
    ensures !s.producer.AsleepFull?
  {
    StreamFits(c);
    RingHoldsABlock(c);
    hide Config.Valid, Concat, Slot, MustWait;
    assert s.workers[0].AsleepTop? || s.workers[0].Exited?;
    assert Completed(s.threadPos, s.nextPos) == s.nextPos;
    hide Completed;
  }

  lemma ClosingEmptiesTheRoom(c: Config, s: State)
    requires Shape(c, s) && Script(c, s) && Sleepers(c, s) && s.producer.Joining?
    requires forall i | 0 <= i < |s.workers| :: Resting(s.workers[i]) && !s.workers[i].AsleepTurn?
    ensures AllExited(s)
  {
    hide Completed, MustWait, CanClaim, CanExit, Concat, Slot;
  }

  lemma SomeoneMoves(c: Config, s: State)
    requires c.Valid() && Inv(c, s) && !Stopped(s)
    requires |s.workers| == |s.threadPos| && forall i | 0 <= i < |s.workers| :: Resting(s.workers[i])
    ensures ProducerEnabled(c, s, s.ring) && 0 < c.ringSize
  {
    hide Inv, Config.Valid, Completed, Sleepers, Idles, Positions, Slot, Concat;
    InvParts(c, s);
    NobodyWaitsForever(c, s);
    FullRingHasWork(c, s);
    if s.producer.Joining? {
      ClosingEmptiesTheRoom(c, s);
    }
    hide Blocks, Disjoint, NoGap, RingHolds, FileHolds;
  }

  lemma ThreadMoves(c: Config, s: State, i: nat)
    requires c.Valid() && Shape(c, s) && i < |s.workers| && Blocks(c, s) && !Resting(s.workers[i]) && 0 < c.ringSize
    ensures WorkerEnabled(c, s, i, 1)
  {
    hide Slot, Concat;
    if s.workers[i].Writing? {
      var w := s.workers[i];
      assert Holds(c, w, s.threadPos[i], s.written, s.nextPos);
      assert 0 < |c.codec.compress(c.stream[s.threadPos[i]..s.threadPos[i] + w.len])| <= c.codec.limit;
    }
    hide Blocks, Config.Valid;
  }

  /** Until close() has returned, some thread can take a step that is neither a spurious wakeup
      nor a failure. */
  lemma NoDeadlock(c: Config, states: seq<State>, steps: seq<Step>, n: nat)
    requires c.Valid() && Run(c, states, steps) && n < |states| && !Stopped(states[n])
    ensures exists step :: Enabled(c, states[n], step) && !Spurious(step) && Succeeds(step)
  {
    var s := states[n];
    InvReachable(c, states, steps, n);
    hide Run, Inv, Config.Valid, Stopped;
    InvParts(c, s);
    hide Positions, Idles, Blocks, Disjoint, NoGap, RingHolds, FileHolds, Sleepers, ProducerEnabled, WorkerEnabled;
    assert 0 < c.ringSize;
    hide Script;
    if i :| 0 <= i < |s.workers| && !Resting(s.workers[i]) {
      ThreadMoves(c, s, i);
      assert Enabled(c, s, Work(i, 1, true)) && !Spurious(Work(i, 1, true));
    } else {
      SomeoneMoves(c, s);
      assert Enabled(c, s, Produce(s.ring)) && !Spurious(Produce(s.ring));
    }
  }

  // ----------------------------------------------------------------- termination

  function Left(a: nat, b: nat): nat { if b <= a then a - b else 0 }

  /** Steps a thread may still need before it is back at the loop head. */
  function Effort(c: Config, w: Worker): nat {
    match w
    case AtTop => 1
    case AsleepTop => 0
    case Exited => 0
    case Writing(_, packed, done) => c.numThreads + 3 + Left(HEADER_SIZE + |packed|, done)
    case AsleepTurn(_, _) => c.numThreads + 4 + c.FrameLimit()
    case AtTurn(_, _) => c.numThreads + 5 + c.FrameLimit()
    case Compressing(len, input) => c.numThreads + 6 + c.FrameLimit() + Left(len, |input|)
  }

  function Efforts(c: Config, ws: seq<Worker>): nat {
    if ws == [] then 0 else Efforts(c, ws[..|ws| - 1]) + Effort(c, ws[|ws| - 1])
  }

  /** Steps the producer may still need, data and calls left aside. */
  function ProducerEffort(c: Config, s: State): nat {
    var n := c.numThreads;
    match s.producer
    case Closed => 0
    case Joining => 1
    case MarkingClosed => n + 2
    case FlushingLast => 2 * n + 3
    case Between => 2 * n + 4
    case Flushing => 3 * n + 5
    case Copying(_, _) => 3 * n + 5
    case InWrite(rest) =>
      if s.error || rest == [] || s.writePos < s.uptoPos then 3 * n + 6 else 4 * n + 9
    case AsleepFull(_) => 3 * n + 7
    case AtFull(_) => 3 * n + 8
    case Publishing(_) => 4 * n + 8
  }

  function BytePrice(c: Config): nat { c.numThreads + 6 }

  function CallPrice(c: Config): nat { 2 * c.numThreads + 6 }

  function ClaimPrice(c: Config): nat { c.numThreads + 7 + c.FrameLimit() }

  function Uncopied(s: State): nat { |s.producer.Rest()| + |Concat(s.calls)| }

  function Times(a: nat, b: nat): nat { a * b }

  function Measure(c: Config, s: State): nat {
    Times(ClaimPrice(c), Left(|c.stream|, s.nextPos)) + Efforts(c, s.workers) + ProducerEffort(c, s)
    + Times(BytePrice(c), Uncopied(s)) + Times(CallPrice(c), |s.calls|)
  }

  lemma {:induction false} EffortsUpdate(c: Config, ws: seq<Worker>, i: nat, w: Worker)
    requires i < |ws|
    ensures Efforts(c, ws[i := w]) + Effort(c, ws[i]) == Efforts(c, ws) + Effort(c, w)
  {
    hide Effort;
    var last := |ws| - 1;
    if i < last {
      assert ws[i := w][..last] == ws[..last][i := w];
      EffortsUpdate(c, ws[..last], i, w);
    } else {
      assert ws[i := w][..last] == ws[..last];
    }
  }

  lemma {:induction false} EffortsWoken(c: Config, ws: seq<Worker>, woken: seq<Worker>)
    requires |woken| == |ws| && forall i | 0 <= i < |ws| :: woken[i] == ws[i].Woken()
    ensures Efforts(c, woken) <= Efforts(c, ws) + |ws|
  {
    if ws != [] {
      EffortsWoken(c, ws[..|ws| - 1], woken[..|ws| - 1]);
    }
  }

  lemma BroadcastCost(c: Config, s: State)
    ensures Efforts(c, Broadcast(s).workers) <= Efforts(c, s.workers) + |s.workers|
    ensures ProducerEffort(c, Broadcast(s)) <= ProducerEffort(c, s) + 1
    ensures !s.producer.AsleepFull? ==> ProducerEffort(c, Broadcast(s)) == ProducerEffort(c, s)
    ensures Uncopied(Broadcast(s)) == Uncopied(s)
  {
    EffortsWoken(c, s.workers, Broadcast(s).workers);
  }

  lemma BroadcastMeasure(c: Config, s: State)
    requires |s.workers| == c.numThreads
    ensures Measure(c, Broadcast(s)) <= Measure(c, s) + c.numThreads + 1
    ensures !s.producer.AsleepFull? ==> Measure(c, Broadcast(s)) <= Measure(c, s) + c.numThreads
  {
    BroadcastCost(c, s);
    hide Efforts, ProducerEffort, Uncopied, ClaimPrice, BytePrice, CallPrice;
  }

  lemma Pays(price: nat, left: nat, len: nat)
    requires 0 < len <= left && 0 < price
    ensures price * (left - len) + price - 1 + len <= price * left
  {
    assert price * left == price * (left - len) + price * len;
    MulAtLeast(len, price - 1);
    assert len * (price - 1) == price * len - len;
  }

  lemma ClaimPays(c: Config, left: nat, len: nat)
    requires 0 < len <= left
    ensures ClaimPrice(c) * (left - len) + c.numThreads + 6 + c.FrameLimit() + len <= ClaimPrice(c) * left
  {
    assert ClaimPrice(c) - 1 == c.numThreads + 6 + c.FrameLimit();
    hide ClaimPrice;
    Pays(ClaimPrice(c), left, len);
  }

  /** At the loop head a thread claims, sleeps or exits; each uses up effort. */
  lemma TopMeasure(c: Config, s: State, i: nat)
    requires i < |s.workers| == |s.threadPos| && s.workers[i] == AtTop && Positions(c, s) && 0 < c.blockSize
    ensures Measure(c, TopSection(c, s, i)) < Measure(c, s)
  {
    hide Completed, Efforts;
    var t := TopSection(c, s, i);
    EffortsUpdate(c, s.workers, i, t.workers[i]);
    assert ProducerEffort(c, t) == ProducerEffort(c, s) && Uncopied(t) == Uncopied(s);
    assert Effort(c, s.workers[i]) == 1;
    if CanClaim(c, s) {
      var len := t.workers[i].len;
      assert Effort(c, t.workers[i]) == c.numThreads + 6 + c.FrameLimit() + len;
      hide ProducerEffort, Uncopied, Effort, ClaimPrice, BytePrice, CallPrice, CanClaim;
      ClaimPays(c, |c.stream| - s.nextPos, len);
    }
  }

  lemma AdvanceMeasure(c: Config, s: State, i: nat, w: Worker, file: seq<byte>)
    requires i < |s.workers| && Effort(c, w) < Effort(c, s.workers[i])
    ensures Measure(c, Advance(s, i, w, file)) < Measure(c, s)
  {
    EffortsUpdate(c, s.workers, i, w);
    hide Efforts, Effort, Left;
  }

  lemma FreeMeasure(c: Config, s: State, i: nat, written: nat, writeError: bool)
    requires i < |s.workers| == |s.threadPos| == c.numThreads
    requires Effort(c, s.workers[i]) >= c.numThreads + 3
    ensures Measure(c, Broadcast(Free(s, i, written, writeError))) < Measure(c, s)
  {
    var t := Free(s, i, written, writeError);
    BroadcastMeasure(c, t);
    EffortsUpdate(c, s.workers, i, AtTop);
    assert Measure(c, t) + c.numThreads + 2 <= Measure(c, s) by { hide Efforts, Left, Broadcast; }
  }

  lemma FreedPositions(c: Config, s: State, i: nat, written: nat, writeError: bool)
    requires c.Valid() && Inv(c, s) && i < |s.workers| == |s.threadPos| && MayFree(s, i, written, writeError)
    requires s.workers[i].Writing? ==>
      && Pending(s.workers[i]) == []
      && forall j | 0 <= j < |s.workers| && s.workers[j].Writing? :: i == j
    requires |s.workers| == c.numThreads && Effort(c, s.workers[i]) >= c.numThreads + 3
    ensures var t := Broadcast(Free(s, i, written, writeError));
      && |t.workers| == |t.threadPos| == |s.workers|
      && Measure(c, TopSection(c, t, i)) < Measure(c, s)
  {
    hide *;
    var t := Broadcast(Free(s, i, written, writeError));
    FreeMeasure(c, s, i, written, writeError);
    InvFree(c, s, i, written, writeError);
    FreedAtTop(s, i, written, writeError);
    InvParts(c, t);
    StreamFits(c);
    TopMeasure(c, t, i);
  }

  lemma TurnEffort(c: Config, s: State, i: nat, w: Worker)
    requires c.Valid() && i < |s.workers| == |s.threadPos| && s.workers[i].AtTurn? && Blocks(c, s)
    requires s.workers[i].packed != []
    requires w == AsleepTurn(s.workers[i].len, s.workers[i].packed)
      || w == Writing(s.workers[i].len, s.workers[i].packed, 0)
    ensures Effort(c, w) < Effort(c, s.workers[i])
  {
    hide Concat;
    assert Holds(c, s.workers[i], s.threadPos[i], s.written, s.nextPos);
    assert |s.workers[i].packed| <= c.codec.limit;
  }

  lemma TurnMeasure(c: Config, s: State, i: nat)
    requires c.Valid() && Inv(c, s) && i < |s.workers| == |s.threadPos| && s.workers[i].AtTurn?
    ensures Measure(c, TurnSection(c, s, i)) < Measure(c, s)
  {
    assert Effort(c, s.workers[i]) >= c.numThreads + 3 by { hide Inv, Config.Valid; }
    hide *;
    InvParts(c, s);
    if s.writeError || s.workers[i].packed == [] {
      GiveUpForm(c, s, i);
      FreedPositions(c, s, i, s.written, true);
    } else {
      var w := TurnForm(c, s, i);
      TurnEffort(c, s, i, w);
      AdvanceMeasure(c, s, i, w, s.file);
    }
  }

  lemma ReadEffort(c: Config, s: State, i: nat, w: Worker)
    requires i < |s.workers| && s.workers[i].Compressing?
    requires w.AtTurn? || (w.Compressing? && w.len == s.workers[i].len && |s.workers[i].input| < |w.input| <= w.len)
    ensures Effort(c, w) < Effort(c, s.workers[i])
  {
  }

  lemma AppendEffort(c: Config, s: State, i: nat, w: Worker, chunk: seq<byte>)
    requires i < |s.workers| && s.workers[i].Writing? && w.Writing? && chunk != []
    requires w.packed == s.workers[i].packed && w.done == s.workers[i].done + |chunk| <= HEADER_SIZE + |w.packed|
    ensures Effort(c, w) < Effort(c, s.workers[i])
  {
  }

  lemma WorkMeasure(c: Config, s: State, i: nat, k: nat, ok: bool)
    requires c.Valid() && Inv(c, s) && WorkerEnabled(c, s, i, k)
    ensures Measure(c, WorkerStep(c, s, i, k, ok)) < Measure(c, s)
  {
    hide *;
    InvParts(c, s);
    StreamFits(c);
    WorkStep(c, s, i, k, ok);
    match s.workers[i]
    case AtTop =>
      TopMeasure(c, s, i);
    case Compressing(_, _) =>
      var w := ReadForm(c, s, i, k, ok);
      ReadEffort(c, s, i, w);
      AdvanceMeasure(c, s, i, w, s.file);
    case AtTurn(_, _) =>
      TurnMeasure(c, s, i);
    case Writing(len, packed, done) =>
      if done < |Output(len, packed)| {
        var w, chunk := AppendLocal(c, s, i, k, ok);
        AppendEffort(c, s, i, w, chunk);
        AdvanceMeasure(c, s, i, w, s.file + chunk);
      } else {
        var written := WrittenLocal(c, s, i, k, ok);
        WritingEffort(c, s.workers[i]);
        FreedPositions(c, s, i, written, s.writeError);
      }
  }

  lemma WritingEffort(c: Config, w: Worker)
    requires w.Writing?
    ensures Effort(c, w) >= c.numThreads + 3
  {
  }

  // The producer's steps.

  /** Measure splits into what the threads need and what the producer needs. */
  function ProducerMeasure(c: Config, s: State): nat {
    ProducerEffort(c, s) + Times(BytePrice(c), Uncopied(s)) + Times(CallPrice(c), |s.calls|)
  }

  lemma SplitMeasure(c: Config, s: State, t: State)
    requires SameThreads(s, t) && ProducerMeasure(c, t) < ProducerMeasure(c, s)
    ensures Measure(c, t) < Measure(c, s)
  {
    hide ProducerEffort, Efforts, BytePrice, CallPrice, ClaimPrice, Uncopied;
  }

  lemma BetweenMeasure(c: Config, s: State, junk: seq<byte>)
    requires ProducerEnabled(c, s, junk) && 0 < c.ringSize && s.producer.Between?
    ensures SameThreads(s, ProducerStep(c, s, junk))
    ensures ProducerMeasure(c, ProducerStep(c, s, junk)) < ProducerMeasure(c, s)
  {
    hide Completed, WriteLoop, CopyEnd, Publish, AwaitRoom, Reserve, Broadcast;
    var t := ProducerStep(c, s, junk);
    assert Uncopied(t) == Uncopied(s);
    if s.calls != [] {
      assert |t.calls| == |s.calls| - 1;
      assert CallPrice(c) * |s.calls| == CallPrice(c) * |t.calls| + CallPrice(c);
    }
  }

  lemma WriteLoopMeasure(c: Config, s: State, junk: seq<byte>)
    requires ProducerEnabled(c, s, junk) && 0 < c.ringSize && s.producer.InWrite?
    ensures SameThreads(s, WriteLoop(c, s, junk))
    ensures ProducerMeasure(c, WriteLoop(c, s, junk)) < ProducerMeasure(c, s)
  {
    hide Slot, Overwrite, Concat, CopyAmount;
    var t := WriteLoop(c, s, junk);
    assert Uncopied(t) <= Uncopied(s) && t.calls == s.calls && ProducerEffort(c, t) < ProducerEffort(c, s);
    hide Uncopied, ProducerEffort, BytePrice, CallPrice;
    Monotone(BytePrice(c), Uncopied(t), Uncopied(s));
  }

  lemma Monotone(price: nat, a: nat, b: nat)
    requires a <= b
    ensures price * a <= price * b
  {
  }

  lemma CopyEndMeasure(c: Config, s: State)
    requires ProducerEnabled(c, s, []) && s.producer.Copying? && Script(c, s)
    ensures SameThreads(s, CopyEnd(c, s))
    ensures ProducerMeasure(c, CopyEnd(c, s)) < ProducerMeasure(c, s)
  {
    hide Slot, Overwrite, Concat;
    var t, amount := CopyEnd(c, s), s.producer.amount;
    assert Uncopied(t) + amount == Uncopied(s) && t.calls == s.calls;
    assert ProducerEffort(c, t) < ProducerEffort(c, s) + BytePrice(c);
    hide Uncopied, ProducerEffort, BytePrice, CallPrice, Script, CopyEnd;
    assert BytePrice(c) * Uncopied(s) == BytePrice(c) * Uncopied(t) + BytePrice(c) * amount;
    MulAtLeast(amount, BytePrice(c));
  }

  lemma AwaitRoomMeasure(c: Config, s: State, rest: seq<byte>)
    requires 0 < c.ringSize && s.reservedPos == s.writePos
    requires s.producer == AtFull(rest) || s.producer == Publishing(rest)
    ensures SameThreads(s, AwaitRoom(c, s, rest))
    ensures ProducerMeasure(c, AwaitRoom(c, s, rest)) < ProducerMeasure(c, s)
    ensures s.producer.Publishing? ==> ProducerMeasure(c, AwaitRoom(c, s, rest)) + c.numThreads < ProducerMeasure(c, s)
  {
    hide Completed, Concat;
    var t := AwaitRoom(c, s, rest);
    assert Uncopied(t) == Uncopied(s) && t.calls == s.calls;
    hide Uncopied, BytePrice, CallPrice;
  }

  lemma FlushMeasure(c: Config, s: State, p: Producer)
    requires (s.producer.Flushing? && p.Between?) || (s.producer.FlushingLast? && p.MarkingClosed?)
    ensures var t := Reserve(c, s).(producer := p);
      SameThreads(s, t) && ProducerMeasure(c, t) + c.numThreads < ProducerMeasure(c, s)
  {
    hide Completed, Concat;
    var t := Reserve(c, s).(producer := p);
    assert Uncopied(t) == Uncopied(s) && t.calls == s.calls;
    hide Uncopied, BytePrice, CallPrice;
  }

  lemma PublishMeasure(c: Config, s: State)
    requires |s.workers| == c.numThreads
    requires s.producer.Publishing? || s.producer.Flushing? || s.producer.FlushingLast?
    ensures Measure(c, Publish(s)) <= Measure(c, s) + c.numThreads
  {
    var u := s.(endPos := s.writePos, reservedPos := s.writePos);
    assert Measure(c, u) == Measure(c, s) by {
      hide Efforts, Concat, ClaimPrice, BytePrice, CallPrice;
      assert ProducerEffort(c, u) == ProducerEffort(c, s) && Uncopied(u) == Uncopied(s);
    }
    hide Measure, Broadcast;
    BroadcastMeasure(c, u);
  }

  lemma SplitMeasureBy(c: Config, s: State, t: State, n: nat)
    requires SameThreads(s, t) && ProducerMeasure(c, t) + n < ProducerMeasure(c, s)
    ensures Measure(c, t) + n < Measure(c, s)
  {
    hide ProducerEffort, Efforts, BytePrice, CallPrice, ClaimPrice, Uncopied;
  }

  lemma ProducePublishMeasure(c: Config, s: State, junk: seq<byte>)
    requires ProducerEnabled(c, s, junk) && 0 < c.ringSize && |s.workers| == c.numThreads
    requires s.producer.Publishing? || s.producer.Flushing? || s.producer.FlushingLast?
    ensures Measure(c, ProducerStep(c, s, junk)) < Measure(c, s)
  {
    hide *;
    PublishStep(c, s, junk);
    PublishedPlace(s);
    PublishMeasure(c, s);
    var u, n := Publish(s), c.numThreads;
    if s.producer.Publishing? {
      AwaitRoomMeasure(c, u, s.producer.rest);
      SplitMeasureBy(c, u, AwaitRoom(c, u, s.producer.rest), n);
    } else {
      var p := if s.producer.Flushing? then Between else MarkingClosed;
      FlushMeasure(c, u, p);
      SplitMeasureBy(c, u, Reserve(c, u).(producer := p), n);
    }
  }

  lemma MarkMeasure(c: Config, s: State)
    requires s.producer.MarkingClosed? && |s.workers| == c.numThreads
    ensures Measure(c, Broadcast(s.(closing := true)).(producer := Joining)) < Measure(c, s)
  {
    var u := s.(closing := true, producer := Joining);
    assert Broadcast(s.(closing := true)).(producer := Joining) == Broadcast(u);
    hide Broadcast;
    BroadcastMeasure(c, u);
    assert Uncopied(u) == Uncopied(s);
    hide Uncopied, Efforts, BytePrice, CallPrice, ClaimPrice;
  }

  lemma JoinMeasure(c: Config, s: State)
    requires s.producer.Joining?
    ensures Measure(c, Joined(c, s)) < Measure(c, s)
  {
    var t := Joined(c, s);
    assert Uncopied(t) == Uncopied(s);
    hide Uncopied, Efforts, BytePrice, CallPrice, ClaimPrice;
  }

  lemma ProduceMeasure(c: Config, s: State, junk: seq<byte>)
    requires c.Valid() && Inv(c, s) && ProducerEnabled(c, s, junk) && 0 < c.ringSize
    ensures Measure(c, ProducerStep(c, s, junk)) < Measure(c, s)
  {
    hide *;
    InvParts(c, s);
    PublishStep(c, s, junk);
    match s.producer
    case Between =>
      BetweenMeasure(c, s, junk);
      SplitMeasure(c, s, ProducerStep(c, s, junk));
    case InWrite(_) =>
      WriteLoopMeasure(c, s, junk);
      SplitMeasure(c, s, WriteLoop(c, s, junk));
    case Copying(_, _) =>
      CopyEndMeasure(c, s);
      SplitMeasure(c, s, CopyEnd(c, s));
    case AtFull(rest) =>
      FullMeansPublished(c, s);
      AwaitRoomMeasure(c, s, rest);
      SplitMeasure(c, s, AwaitRoom(c, s, rest));
    case MarkingClosed =>
      MarkMeasure(c, s);
    case Joining =>
      JoinMeasure(c, s);
    case _ =>
      ProducePublishMeasure(c, s, junk);
  }

  lemma FullMeansPublished(c: Config, s: State)
    requires Script(c, s) && s.producer.AtFull?
    ensures s.reservedPos == s.writePos
  {
  }

  /** Where no data moves, the measure changes by what the threads and the producer gain. */
  lemma EffortMeasure(c: Config, s: State, t: State, n: nat)
    requires s.nextPos == t.nextPos && s.calls == t.calls && Uncopied(s) == Uncopied(t)
    requires Efforts(c, t.workers) + ProducerEffort(c, t) == Efforts(c, s.workers) + ProducerEffort(c, s) + n
    ensures Measure(c, t) == Measure(c, s) + n
  {
    hide Uncopied, Efforts, ProducerEffort, BytePrice, CallPrice, ClaimPrice, Left;
  }

  lemma SpuriousMeasure(c: Config, s: State, step: Step)
    requires Enabled(c, s, step) && Spurious(step)
    ensures Measure(c, Apply(c, s, step)) == Measure(c, s) + 1
  {
    hide ProducerStep, WorkerStep, ProducerEnabled, WorkerEnabled, Measure, Concat, Efforts;
    if step.SpuriousWorker? {
      EffortsUpdate(c, s.workers, step.i, s.workers[step.i].Woken());
    }
    EffortMeasure(c, s, Apply(c, s, step), 1);
  }

  /** Every step but a spurious wakeup brings the end nearer; a spurious wakeup costs one. */
  lemma StepMeasure(c: Config, s: State, step: Step)
    requires c.Valid() && Inv(c, s) && Enabled(c, s, step)
    ensures if Spurious(step) then Measure(c, Apply(c, s, step)) == Measure(c, s) + 1
            else Measure(c, Apply(c, s, step)) < Measure(c, s)
  {
    hide *;
    ApplyForm(c, s, step);
    match step
    case Produce(junk) =>
      NotSpurious(step);
      ProduceMeasure(c, s, junk);
    case Work(i, k, ok) =>
      NotSpurious(step);
      WorkMeasure(c, s, i, k, ok);
    case _ =>
      NotSpurious(step);
      SpuriousMeasure(c, s, step);
  }

  lemma NotSpurious(step: Step)
    ensures Spurious(step) <==> !step.Produce? && !step.Work?
  {
  }

  // -------------------------------------------------------------- main results

  function SpuriousCount(steps: seq<Step>): nat {
    if steps == [] then 0 else SpuriousCount(steps[1..]) + if Spurious(steps[0]) then 1 else 0
  }

  /** Known before the first step. */
  function Bound(c: Config): nat {
    (ClaimPrice(c) + BytePrice(c)) * |c.stream| + CallPrice(c) * |c.calls| + 3 * c.numThreads + 4
  }

  lemma {:induction false} EffortsInit(c: Config, n: nat)
    ensures Efforts(c, seq(n, _ => AtTop)) == n
  {
    var ws := seq(n, _ => AtTop);
    if n > 0 {
      assert ws[..n - 1] == seq(n - 1, _ => AtTop);
      EffortsInit(c, n - 1);
    }
  }

  lemma InitMeasure(c: Config, s: State)
    requires c.Valid() && Init(c, s)
    ensures Measure(c, s) == Bound(c)
  {
    assert Uncopied(s) == |c.stream| by { hide Faithful; }
    assert s.workers == seq(c.numThreads, _ => AtTop) && s.calls == c.calls && s.nextPos == 0;
    assert ProducerEffort(c, s) == 2 * c.numThreads + 4;
    EffortsInit(c, c.numThreads);
    hide Config.Valid, Init, Uncopied, Efforts, BytePrice, CallPrice, ClaimPrice, ProducerEffort;
    assert (ClaimPrice(c) + BytePrice(c)) * |c.stream| == ClaimPrice(c) * |c.stream| + BytePrice(c) * |c.stream|;
  }

  lemma {:induction false} RunMeasure(c: Config, states: seq<State>, steps: seq<Step>)
    requires c.Valid() && RunFrom(c, states, steps) && Inv(c, states[0])
    ensures |steps| + Measure(c, states[|steps|]) <= Measure(c, states[0]) + 2 * SpuriousCount(steps)
  {
    hide Inv, Apply, Enabled, Config.Valid, Measure, Spurious;
    if steps != [] {
      assert Enabled(c, states[0], steps[0]) && states[1] == Apply(c, states[0], steps[0]);
      InvStep(c, states[0], steps[0]);
      StepMeasure(c, states[0], steps[0]);
      RunMeasure(c, states[1..], steps[1..]);
    }
  }

  /** No run is longer than a bound fixed by the configuration, plus two steps for every
      spurious wakeup: threads cannot wake each other forever. */
  lemma RunsAreBounded(c: Config, states: seq<State>, steps: seq<Step>)
    requires c.Valid() && Run(c, states, steps)
    ensures |steps| <= Bound(c) + 2 * SpuriousCount(steps)
  {
    InvReachable(c, states, steps, 0);
    InitMeasure(c, states[0]);
    hide Inv, Config.Valid, Measure, Bound, SpuriousCount;
    RunMeasure(c, states, steps);
  }

  /** A run in which nothing but a spurious wakeup can follow has finished: every thread has
      exited, the joins have returned and close() is done. */
  lemma StuckMeansFinished(c: Config, states: seq<State>, steps: seq<Step>)
    requires c.Valid() && Run(c, states, steps)
    requires forall step :: Enabled(c, states[|steps|], step) ==> Spurious(step)
    ensures Stopped(states[|steps|]) && AllExited(states[|steps|])
  {
    R.ClosedReachable(c, states, steps, |steps|);
    hide Enabled, Spurious, Config.Valid, Stopped, AllExited;
    if !Stopped(states[|steps|]) {
      NoDeadlock(c, states, steps, |steps|);
    }
  }

  lemma RunExtends(c: Config, states: seq<State>, steps: seq<Step>, step: Step)
    requires Run(c, states, steps) && Enabled(c, states[|steps|], step)
    ensures Run(c, states + [Apply(c, states[|steps|], step)], steps + [step])
  {
    hide Enabled, Apply, Init;
    var all, more := states + [Apply(c, states[|steps|], step)], steps + [step];
    forall k | 0 <= k < |more| ensures Enabled(c, all[k], more[k]) && all[k + 1] == Apply(c, all[k], more[k]) {
      if k < |steps| {
        assert all[k] == states[k] && all[k + 1] == states[k + 1] && more[k] == steps[k];
      }
    }
  }

  /** Every run, wherever it stands, can be continued without a failure until close() returns. */
  lemma {:induction false} EveryRunCanFinish(c: Config, states: seq<State>, steps: seq<Step>)
    returns (all: seq<State>, more: seq<Step>)
    requires c.Valid() && Run(c, states, steps)
    ensures Run(c, all, more) && states <= all && steps <= more && Stopped(all[|more|])
    ensures forall k | |steps| <= k < |more| :: Succeeds(more[k])
    decreases Measure(c, states[|steps|])
  {
    hide Enabled, Apply, Init, Config.Valid, Stopped, Measure, Spurious, Succeeds, Inv;
    if Stopped(states[|steps|]) {
      all, more := states, steps;
    } else {
      NoDeadlock(c, states, steps, |steps|);
      var step :| Enabled(c, states[|steps|], step) && !Spurious(step) && Succeeds(step);
      InvReachable(c, states, steps, |steps|);
      StepMeasure(c, states[|steps|], step);
      RunExtends(c, states, steps, step);
      var next := states + [Apply(c, states[|steps|], step)];
      assert next[|steps + [step]|] == Apply(c, states[|steps|], step);
      all, more := EveryRunCanFinish(c, next, steps + [step]);
    }
  }

  /** Stores blocks as they are. */
  function Verbatim(blockSize: nat): Codec {
    Codec(x => x, (x, n) => if |x| == n then Some(x) else None, blockSize)
  }

  /** For all writes, block sizes and thread counts there is a codec and a run that finishes
      without a failure. */
  lemma FinishedRunsExist(blockSize: nat, numThreads: nat, calls: seq<seq<byte>>)
    returns (c: Config, states: seq<State>, steps: seq<Step>)
    requires 0 < blockSize < WORD && 0 < numThreads && |Concat(calls)| + blockSize * (numThreads + 2) < IDLE
    ensures c.Valid() && c.blockSize == blockSize && c.numThreads == numThreads && c.calls == calls
    ensures Run(c, states, steps) && Stopped(states[|steps|]) && forall k | 0 <= k < |steps| :: Succeeds(steps[k])
  {
    c := Config(blockSize, numThreads, Verbatim(blockSize), calls, Concat(calls), blockSize * (numThreads + 2), false);
    assert c.Valid();
    hide Config.Valid, Concat, Stopped, Enabled, Apply;
    var s := State(seq(c.ringSize, _ => 0), seq(numThreads, _ => IDLE), 0, 0, false, false, 0, 0, 0, false,
                   seq(numThreads, _ => AtTop), Between, calls, [], 0);
    assert Run(c, [s], []);
    states, steps := EveryRunCanFinish(c, [s], []);
  }
}
