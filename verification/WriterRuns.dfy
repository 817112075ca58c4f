/**
 What the invariant of the compressor means for whole runs.
 */
module WriterRuns {
  import opened BlockFormat
  import opened RingArithmetic
  import opened CompressedWriter
  import opened WriterSafety

  // ---------------------------------------------- a failure leaves a block unwritten

  /** After a failure the file can no longer reach the end of the stream. */
  ghost predicate Lost(c: Config, s: State)
    requires |s.workers| == |s.threadPos|
  {
    s.writeError ==>
      && (forall i | 0 <= i < |s.workers| && s.workers[i].Writing? ::
            s.threadPos[i] + s.workers[i].len < |c.stream|)
      && (!SomeoneWriting(s) ==> s.written < |c.stream|)
  }

  lemma LostWoke(c: Config, s: State, t: State)
    requires |s.workers| == |s.threadPos| && Woke(s, t) && Lost(c, s)
    ensures |t.workers| == |t.threadPos| && Lost(c, t)
  {
    if SomeoneWriting(s) {
      var i :| 0 <= i < |s.workers| && s.workers[i].Writing?;
      assert t.workers[i].Writing?;
    }
  }

  lemma LostSame(c: Config, s: State, t: State)
    requires |s.workers| == |s.threadPos| && SameThreads(s, t) && Lost(c, s)
    ensures |t.workers| == |t.threadPos| && Lost(c, t)
  {
  }

  lemma LostTop(c: Config, s: State, i: nat)
    requires i < |s.workers| == |s.threadPos| && s.workers[i] == AtTop && Lost(c, s)
    ensures |TopSection(c, s, i).workers| == |TopSection(c, s, i).threadPos| && Lost(c, TopSection(c, s, i))
  {
    var t := TopSection(c, s, i);
    if SomeoneWriting(s) {
      var j :| 0 <= j < |s.workers| && s.workers[j].Writing?;
      assert t.workers[j].Writing?;
    }
  }

  lemma LostAdvance(c: Config, s: State, i: nat, w: Worker, file: seq<byte>)
    requires i < |s.workers| == |s.threadPos| && Lost(c, s)
    requires s.writeError ==> w.Writing? == s.workers[i].Writing?
    requires w.Writing? && s.workers[i].Writing? ==> w.len == s.workers[i].len
    ensures Lost(c, Advance(s, i, w, file))
  {
    var t := Advance(s, i, w, file);
    if s.writeError && SomeoneWriting(s) {
      var j :| 0 <= j < |s.workers| && s.workers[j].Writing?;
      assert t.workers[j].Writing?;
    }
  }

  lemma LostFree(c: Config, s: State, i: nat, written: nat, writeError: bool)
    requires i < |s.workers| == |s.threadPos| && MayFree(s, i, written, writeError)
    requires Blocks(c, s) && Disjoint(s) && Lost(c, s)
    requires s.workers[i].Writing? ==> forall j | 0 <= j < |s.workers| && s.workers[j].Writing? :: i == j
    ensures Lost(c, Free(s, i, written, writeError))
  {
    var t := Free(s, i, written, writeError);
    assert Holds(c, s.workers[i], s.threadPos[i], s.written, s.nextPos);
    forall j | 0 <= j < |t.workers| && t.workers[j].Writing?
      ensures t.threadPos[j] + t.workers[j].len < |c.stream|
    {
      assert j != i && t.threadPos[j] == s.threadPos[j];
      assert Holds(c, s.workers[j], s.threadPos[j], s.written, s.nextPos);
    }
  }

  lemma LostReleased(c: Config, s: State, i: nat, written: nat, writeError: bool)
    requires c.Valid() && Inv(c, s) && i < |s.workers| == |s.threadPos| && MayFree(s, i, written, writeError)
    requires s.workers[i].Writing? ==> forall j | 0 <= j < |s.workers| && s.workers[j].Writing? :: i == j
    requires Lost(c, s)
    ensures var t := Broadcast(Free(s, i, written, writeError));
      && |t.workers| == |t.threadPos| == |s.workers| && t.workers[i] == AtTop
      && |TopSection(c, t, i).workers| == |TopSection(c, t, i).threadPos| && Lost(c, TopSection(c, t, i))
  {
    hide *;
    InvParts(c, s);
    LostFree(c, s, i, written, writeError);
    var t := Free(s, i, written, writeError);
    WokeByBroadcast(t);
    LostWoke(c, t, Broadcast(t));
    FreedAtTop(s, i, written, writeError);
    LostTop(c, Broadcast(t), i);
  }

  lemma WokeByBroadcast(s: State)
    ensures Woke(s, Broadcast(s))
  {
  }

  lemma LostTurn(c: Config, s: State, i: nat)
    requires c.Valid() && Inv(c, s) && i < |s.workers| == |s.threadPos| && s.workers[i].AtTurn? && Lost(c, s)
    ensures |TurnSection(c, s, i).workers| == |TurnSection(c, s, i).threadPos| && Lost(c, TurnSection(c, s, i))
  {
    hide *;
    if s.writeError || s.workers[i].packed == [] {
      GiveUpForm(c, s, i);
      LostReleased(c, s, i, s.written, true);
    } else {
      var w := TurnForm(c, s, i);
      LostAdvance(c, s, i, w, s.file);
    }
  }

  lemma LostWork(c: Config, s: State, i: nat, k: nat, ok: bool)
    requires c.Valid() && Inv(c, s) && WorkerEnabled(c, s, i, k) && |s.workers| == |s.threadPos| && Lost(c, s)
    ensures |WorkerStep(c, s, i, k, ok).workers| == |WorkerStep(c, s, i, k, ok).threadPos|
    ensures Lost(c, WorkerStep(c, s, i, k, ok))
  {
    hide *;
    InvParts(c, s);
    WorkStep(c, s, i, k, ok);
    match s.workers[i]
    case AtTop =>
      LostTop(c, s, i);
    case Compressing(_, _) =>
      var w := ReadForm(c, s, i, k, ok);
      LostAdvance(c, s, i, w, s.file);
    case AtTurn(_, _) =>
      LostTurn(c, s, i);
    case Writing(len, packed, done) =>
      if done < |Output(len, packed)| {
        var w, chunk := AppendLocal(c, s, i, k, ok);
        LostAdvance(c, s, i, w, s.file + chunk);
      } else {
        var written := WrittenLocal(c, s, i, k, ok);
        LostReleased(c, s, i, written, s.writeError);
      }
  }

  /** A step of the producer that wakes nobody changes nothing the threads own. */
  lemma QuietFrame(c: Config, s: State, junk: seq<byte>)
    requires ProducerEnabled(c, s, junk) && 0 < c.ringSize
    requires s.producer.Between? || s.producer.InWrite? || s.producer.Copying? || s.producer.AtFull?
      || s.producer.Joining?
    ensures SameThreads(s, ProducerStep(c, s, junk))
  {
    hide Completed, Slot, Overwrite, CopyAmount, Publish, Broadcast;
  }

  lemma PublishFrame(c: Config, s: State, junk: seq<byte>)
    requires ProducerEnabled(c, s, junk) && 0 < c.ringSize
    requires s.producer.Publishing? || s.producer.Flushing? || s.producer.FlushingLast?
    ensures SameThreads(Publish(s), ProducerStep(c, s, junk))
  {
    hide Broadcast, Completed, WriteLoop, CopyEnd, Publish;
  }

  /** The producer changes nothing the threads own, but may wake them. */
  lemma ProducerFrame(c: Config, s: State, junk: seq<byte>) returns (u: State)
    requires ProducerEnabled(c, s, junk) && 0 < c.ringSize
    ensures SameThreads(s, u)
    ensures SameThreads(u, ProducerStep(c, s, junk))
      || exists v :: Woke(u, v) && SameThreads(v, ProducerStep(c, s, junk))
  {
    hide WriteLoop, CopyEnd, AwaitRoom, Reserve, Broadcast, Completed, Slot, Woke, Joined;
    u := s;
    if s.producer.Publishing? || s.producer.Flushing? || s.producer.FlushingLast? {
      u := s.(endPos := s.writePos, reservedPos := s.writePos);
      PublishFrame(c, s, junk);
      WokeByBroadcast(u);
    } else if s.producer.MarkingClosed? {
      u := s.(closing := true);
      WokeByBroadcast(u);
    } else {
      QuietFrame(c, s, junk);
    }
  }

  lemma LostStep(c: Config, s: State, step: Step)
    requires c.Valid() && Inv(c, s) && Enabled(c, s, step) && |s.workers| == |s.threadPos| && Lost(c, s)
    ensures |Apply(c, s, step).workers| == |Apply(c, s, step).threadPos| && Lost(c, Apply(c, s, step))
  {
    hide *;
    ApplyForm(c, s, step);
    match step
    case Produce(junk) =>
      var u := ProducerFrame(c, s, junk);
      LostSame(c, s, u);
      if SameThreads(u, Apply(c, s, step)) {
        LostSame(c, u, Apply(c, s, step));
      } else {
        var v :| Woke(u, v) && SameThreads(v, Apply(c, s, step));
        LostWoke(c, u, v);
        LostSame(c, v, Apply(c, s, step));
      }
    case Work(i, k, ok) =>
      LostWork(c, s, i, k, ok);
    case _ =>
      SpuriousWoke(c, s, step);
      LostWoke(c, s, Apply(c, s, step));
  }

  lemma LostInit(c: Config, s: State)
    requires c.Valid() && Init(c, s)
    ensures |s.workers| == |s.threadPos| && Lost(c, s)
  {
  }

  lemma {:induction false} LostReachable(c: Config, states: seq<State>, steps: seq<Step>, n: nat)
    requires c.Valid() && Run(c, states, steps) && n < |states|
    ensures Inv(c, states[n]) && |states[n].workers| == |states[n].threadPos| && Lost(c, states[n])
  {
    hide Inv, Lost, Apply, Enabled, Config.Valid;
    InvReachable(c, states, steps, n);
    if n == 0 {
      LostInit(c, states[0]);
    } else {
      LostReachable(c, states, steps, n - 1);
      assert Enabled(c, states[n - 1], steps[n - 1]);
      LostStep(c, states[n - 1], steps[n - 1]);
    }
  }

  // ------------------------------------------------------------- main results

  /** At most one thread is ever inside write_all. */
  lemma OneThreadWrites(c: Config, states: seq<State>, steps: seq<Step>, n: nat, i: nat, j: nat)
    requires c.Valid() && Run(c, states, steps) && n < |states|
    requires i < |states[n].workers| && states[n].workers[i].Writing?
    requires j < |states[n].workers| && states[n].workers[j].Writing?
    ensures i == j
  {
    var s := states[n];
    InvReachable(c, states, steps, n);
    hide Run, Inv, Config.Valid;
    InvParts(c, s);
    assert Holds(c, s.workers[i], s.threadPos[i], s.written, s.nextPos);
    OneWriter(c, s, i, j);
  }

  /** At every moment of every run, failures included, the file is a prefix of the
      sequential encoding: no gap, no swap, no block that does not belong. Between two
      writes it ends exactly at a frame boundary. */
  lemma FileIsAlwaysPrefix(c: Config, states: seq<State>, steps: seq<Step>, n: nat)
    requires c.Valid() && Run(c, states, steps) && n < |states|
    ensures states[n].file <= Encode(c.codec, c.blockSize, c.stream)
    ensures !SomeoneWriting(states[n]) ==>
      states[n].file + EncodeFrom(c.codec, c.blockSize, c.stream, states[n].written)
        == Encode(c.codec, c.blockSize, c.stream)
  {
    hide *;
    InvReachable(c, states, steps, n);
    InvParts(c, states[n]);
    FileIsPrefix(c, states[n]);
  }

  lemma FileIsPrefix(c: Config, s: State)
    requires c.Valid() && |s.threadPos| == |s.workers| && FileHolds(c, s)
    ensures c.blockSize > 0
    ensures s.file <= Encode(c.codec, c.blockSize, c.stream)
    ensures !SomeoneWriting(s) ==>
      s.file + EncodeFrom(c.codec, c.blockSize, c.stream, s.written) == Encode(c.codec, c.blockSize, c.stream)
  {
    assert c.blockSize > 0;
    assert forall pos :: Remaining(c, pos) == EncodeFrom(c.codec, c.blockSize, c.stream, pos);
    hide EncodeFrom, Pending, Config.Valid, Remaining;
    if SomeoneWriting(s) {
      var i :| 0 <= i < |s.workers| && s.workers[i].Writing?;
      StartOf(s.file, Pending(s.workers[i]), Remaining(c, s.threadPos[i] + s.workers[i].len), Remaining(c, 0));
    } else {
      StartOf(s.file, [], Remaining(c, s.written), Remaining(c, 0));
    }
  }

  lemma StartOf(a: seq<byte>, b: seq<byte>, c: seq<byte>, all: seq<byte>)
    requires a + b + c == all || (b == [] && a + c == all)
    ensures a <= all
  {
  }

  /** The producer's reservation never reaches past the released part of the ring. */
  lemma ReservationBounded(c: Config, states: seq<State>, steps: seq<Step>, n: nat)
    requires c.Valid() && Run(c, states, steps) && n < |states|
    ensures var s := states[n];
      && s.writePos <= s.uptoPos <= s.nextPos + c.ringSize
      && forall i | 0 <= i < |s.threadPos| :: s.uptoPos <= s.threadPos[i] + c.ringSize
  {
    InvReachable(c, states, steps, n);
    hide Run, Inv, Config.Valid;
    InvParts(c, states[n]);
  }

  /** Byte `k` of the stream is published but unclaimed, or held by a thread. */
  ghost predicate Live(s: State, k: nat)
    requires |s.workers| == |s.threadPos|
  {
    || s.nextPos <= k < s.endPos
    || exists i :: 0 <= i < |s.workers| && s.workers[i].Active()
                   && s.threadPos[i] <= k < s.threadPos[i] + s.workers[i].len
  }

  lemma LiveIsInWindow(c: Config, s: State, k: nat)
    requires |s.workers| == |s.threadPos| && Positions(c, s) && Blocks(c, s) && Live(s, k)
    ensures Completed(s.threadPos, s.nextPos) <= k < s.writePos
  {
    if !(s.nextPos <= k < s.endPos) {
      var i :| 0 <= i < |s.workers| && s.workers[i].Active() && s.threadPos[i] <= k < s.threadPos[i] + s.workers[i].len;
      assert Holds(c, s.workers[i], s.threadPos[i], s.written, s.nextPos);
    }
  }

  lemma CopyFits(c: Config, s: State)
    requires Positions(c, s) && Script(c, s) && s.producer.Copying?
    ensures 0 < c.ringSize && Slot(s.writePos, c.ringSize) + s.producer.amount <= c.ringSize
    ensures s.writePos + s.producer.amount <= s.uptoPos <= Completed(s.threadPos, s.nextPos) + c.ringSize
  {
    hide Slot, Completed, Concat;
  }

  /** While the producer's memcpy runs, no slot it may write holds a live byte. */
  lemma CopyNeverRaces(c: Config, states: seq<State>, steps: seq<Step>, n: nat, k: nat, j: nat)
    requires c.Valid() && Run(c, states, steps) && n < |states|
    requires states[n].producer.Copying? && j < states[n].producer.amount
    requires |states[n].workers| == |states[n].threadPos| && Live(states[n], k)
    ensures 0 < c.ringSize && Slot(states[n].writePos + j, c.ringSize) != Slot(k, c.ringSize)
  {
    hide *;
    var s := states[n];
    InvReachable(c, states, steps, n);
    InvParts(c, s);
    LiveIsInWindow(c, s, k);
    CopyFits(c, s);
    CopyAvoidsLive(c, s, s.producer.amount, k, j);
  }

  /** The encoder is fed exactly the bytes of its block, in order, however the ring wraps. */
  lemma EncoderSeesItsBlock(c: Config, states: seq<State>, steps: seq<Step>, n: nat, i: nat)
    requires c.Valid() && Run(c, states, steps) && n < |states|
    requires i < |states[n].workers| && states[n].workers[i].Compressing?
    ensures var s := states[n];
      && i < |s.threadPos|
      && s.threadPos[i] + s.workers[i].len == Min(s.threadPos[i] + c.blockSize, |c.stream|)
      && s.workers[i].input <= c.stream[s.threadPos[i]..s.threadPos[i] + s.workers[i].len]
  {
    var s := states[n];
    InvReachable(c, states, steps, n);
    hide Run, Inv, Config.Valid;
    InvParts(c, s);
    hide RingHolds, FileHolds, Sleepers, NoGap, Disjoint, Positions, Script;
    assert Holds(c, s.workers[i], s.threadPos[i], s.written, s.nextPos);
  }

  lemma StoppedFacts(c: Config, s: State)
    requires c.Valid() && Shape(c, s) && Positions(c, s) && Script(c, s) && Idles(s) && NoGap(s) && Sleepers(c, s)
    requires AllExited(s) && s.closing
    ensures !SomeoneWriting(s)
    ensures !s.writeError ==> s.written == |c.stream|
  {
    hide Config.Valid, Completed;
    assert s.workers[0] == Exited by { assert 0 < c.numThreads by { StreamFits(c); } }
    if !s.writeError {
      assert CanExit(s);
      forall i | 0 <= i < |s.threadPos| ensures s.threadPos[i] != s.written {
        assert !s.workers[i].Active();
      }
      assert Concat(s.calls) == [];
      assert |c.stream[s.writePos..]| == 0;
    }
  }

  lemma RemainingNonEmpty(c: Config, pos: nat)
    requires c.Valid()
    ensures Remaining(c, pos) == [] <==> pos >= |c.stream|
  {
    hide Concat, Faithful;
    if pos < |c.stream| {
      RemainingStep(c, pos, Min(pos + c.blockSize, |c.stream|) - pos);
    }
  }

  ghost predicate Finished(c: Config, states: seq<State>, steps: seq<Step>) {
    Run(c, states, steps) && Stopped(states[|states| - 1])
  }

  ghost function Last(states: seq<State>): State
    requires states != []
  {
    states[|states| - 1]
  }

  /** Nothing is done to the producer but to wake it, and an error stays. */
  ghost predicate Keeps(s: State, t: State) {
    && (t.producer == s.producer || t.producer == s.producer.Woken())
    && t.error == s.error && (s.writeError ==> t.writeError)
  }

  lemma TopKeeps(c: Config, s: State, i: nat)
    requires i < |s.workers| == |s.threadPos|
    ensures Keeps(s, TopSection(c, s, i)) && TopSection(c, s, i).producer == s.producer
  {
    hide CanClaim, CanExit;
  }

  lemma TurnKeeps(c: Config, s: State, i: nat)
    requires i < |s.workers| == |s.threadPos| && s.workers[i].AtTurn?
    ensures Keeps(s, TurnSection(c, s, i))
  {
    TopKeeps(c, Release(s.(writeError := s.writeError || s.workers[i].packed == []), i), i);
    hide TopSection, MustWait;
  }

  lemma WorkKeeps(c: Config, s: State, i: nat, k: nat, ok: bool)
    requires WorkerEnabled(c, s, i, k)
    ensures Keeps(s, WorkerStep(c, s, i, k, ok))
  {
    TopKeeps(c, s, i);
    if s.workers[i].AtTurn? { TurnKeeps(c, s, i); }
    if s.workers[i].Writing? { TopKeeps(c, Release(s.(written := s.written + s.workers[i].len), i), i); }
    hide TopSection, TurnSection, Slot, Output;
  }

  /** Threads never move the producer, except to wake it. */
  lemma ThreadsKeepProducer(c: Config, s: State, step: Step)
    requires Enabled(c, s, step) && !step.Produce?
    ensures Keeps(s, Apply(c, s, step))
  {
    if step.Work? { WorkKeeps(c, s, step.i, step.k, step.ok); }
    hide WorkerStep, WorkerEnabled, ProducerStep, ProducerEnabled;
  }

  ghost predicate ClosedAfterJoin(c: Config, s: State) {
    if s.producer.Closed? then AllExited(s) && (s.error <==> s.writeError || c.syncFails) else s.error ==> s.writeError
  }

  lemma ClosedProduce(c: Config, s: State, junk: seq<byte>)
    requires ProducerEnabled(c, s, junk) && 0 < c.ringSize && ClosedAfterJoin(c, s)
    ensures ClosedAfterJoin(c, ProducerStep(c, s, junk))
  {
    hide Slot, Completed, Overwrite, CopyAmount, Shape;
  }

  lemma ClosedStep(c: Config, s: State, step: Step)
    requires Enabled(c, s, step) && ClosedAfterJoin(c, s)
    ensures ClosedAfterJoin(c, Apply(c, s, step))
  {
    if step.Produce? {
      ClosedProduce(c, s, step.junk);
    } else {
      assert !s.producer.Closed?;
      ThreadsKeepProducer(c, s, step);
    }
    hide ProducerStep, ProducerEnabled, WorkerStep, WorkerEnabled;
  }

  lemma {:induction false} ClosedReachable(c: Config, states: seq<State>, steps: seq<Step>, n: nat)
    requires c.Valid() && Run(c, states, steps) && n < |states|
    ensures ClosedAfterJoin(c, states[n])
  {
    hide Inv, Apply, Enabled, Config.Valid;
    if n > 0 {
      ClosedReachable(c, states, steps, n - 1);
      assert Enabled(c, states[n - 1], steps[n - 1]);
      hide ClosedAfterJoin;
      ClosedStep(c, states[n - 1], steps[n - 1]);
    }
  }

  /** When close() returns, good() tells the truth: it holds exactly when the file is the
      complete sequential encoding of everything written and no requested sync failed. */
  lemma CloseTellsTheTruth(c: Config, states: seq<State>, steps: seq<Step>)
    requires c.Valid() && Finished(c, states, steps)
    ensures !Last(states).error <==> Last(states).file == Encode(c.codec, c.blockSize, c.stream) && !c.syncFails
  {
    var n := |states| - 1;
    var s := states[n];
    LostReachable(c, states, steps, n);
    ClosedReachable(c, states, steps, n);
    FileIsAlwaysPrefix(c, states, steps, n);
    hide Inv, Lost, Config.Valid, Encode;
    InvParts(c, s);
    assert s.closing && AllExited(s) && (s.error <==> s.writeError || c.syncFails);
    assert s.written >= |c.stream| ==> !s.writeError by { hide Encode; }
    hide *;
    StoppedFacts(c, s);
    RemainingNonEmpty(c, s.written);
  }

  /** The finished file does not depend on the schedule, the number of threads or how the
      data was split over write() calls. */
  lemma ScheduleIndependent(c: Config, states: seq<State>, steps: seq<Step>,
                            d: Config, otherStates: seq<State>, otherSteps: seq<Step>)
    requires c.Valid() && Finished(c, states, steps) && !Last(states).error
    requires d.Valid() && Finished(d, otherStates, otherSteps) && !Last(otherStates).error
    requires c.codec == d.codec && c.blockSize == d.blockSize && Concat(c.calls) == Concat(d.calls)
    ensures Last(states).file == Last(otherStates).file
  {
    CloseTellsTheTruth(c, states, steps);
    CloseTellsTheTruth(d, otherStates, otherSteps);
    hide Finished, Encode, Faithful;
  }

  // ------------------------------------------------------- where errors come from

  ghost predicate Healthy(c: Config, s: State) {
    && !s.writeError && (s.error ==> c.syncFails && s.producer.Closed?)
    && forall i | 0 <= i < |s.workers| && (s.workers[i].AtTurn? || s.workers[i].AsleepTurn?) ::
      s.workers[i].packed != []
  }

  lemma HealthyTop(c: Config, s: State, i: nat)
    requires i < |s.workers| == |s.threadPos| && Healthy(c, s)
    ensures Healthy(c, TopSection(c, s, i))
  {
    hide CanClaim, CanExit;
  }

  lemma HealthyBroadcast(c: Config, s: State)
    requires Healthy(c, s)
    ensures Healthy(c, Broadcast(s))
  {
  }

  lemma HealthyRelease(c: Config, s: State, i: nat)
    requires i < |s.workers| == |s.threadPos| && Healthy(c, s)
    ensures Healthy(c, TopSection(c, Release(s, i), i))
  {
    var t := s.(threadPos := s.threadPos[i := IDLE], workers := s.workers[i := AtTop]);
    assert Healthy(c, t);
    HealthyBroadcast(c, t);
    HealthyTop(c, Release(s, i), i);
  }

  lemma HealthyProduce(c: Config, s: State, junk: seq<byte>)
    requires ProducerEnabled(c, s, junk) && 0 < c.ringSize && Healthy(c, s)
    ensures Healthy(c, ProducerStep(c, s, junk))
  {
    HealthyBroadcast(c, s.(endPos := s.writePos, reservedPos := s.writePos));
    HealthyBroadcast(c, s.(closing := true));
    hide Slot, Completed, Broadcast, Overwrite, ProducerEnabled;
  }

  lemma HealthyCompressed(c: Config, s: State, i: nat)
    requires c.Valid() && i < |s.workers| == |s.threadPos| && s.workers[i].Compressing? && Blocks(c, s)
    requires |s.workers[i].input| >= s.workers[i].len
    ensures c.codec.compress(s.workers[i].input) != []
  {
    assert Holds(c, s.workers[i], s.threadPos[i], s.written, s.nextPos);
    assert s.workers[i].input == c.stream[s.threadPos[i]..s.threadPos[i] + s.workers[i].len];
    hide Concat;
  }

  /** Only thread `i` has changed, and what it holds is not a failure. */
  lemma HealthyWith(c: Config, s: State, i: nat, t: State)
    requires Healthy(c, s) && i < |s.workers| == |t.workers| && t.workers == s.workers[i := t.workers[i]]
    requires !t.writeError && t.error == s.error && t.producer == s.producer
    requires (t.workers[i].AtTurn? || t.workers[i].AsleepTurn? ==> t.workers[i].packed != [])
    ensures Healthy(c, t)
  {
  }

  lemma HealthyCompressing(c: Config, s: State, i: nat, k: nat)
    requires c.Valid() && |s.workers| == |s.threadPos| && Blocks(c, s) && Healthy(c, s)
    requires WorkerEnabled(c, s, i, k) && s.workers[i].Compressing?
    ensures Healthy(c, WorkerStep(c, s, i, k, true))
  {
    if |s.workers[i].input| >= s.workers[i].len { HealthyCompressed(c, s, i); }
    hide Config.Valid, Blocks, Slot;
    var t := WorkerStep(c, s, i, k, true);
    assert t == s.(workers := s.workers[i := t.workers[i]]);
    HealthyWith(c, s, i, t);
  }

  lemma HealthyWriting(c: Config, s: State, i: nat, k: nat)
    requires |s.workers| == |s.threadPos| && Healthy(c, s) && WorkerEnabled(c, s, i, k) && s.workers[i].Writing?
    ensures Healthy(c, WorkerStep(c, s, i, k, true))
  {
    HealthyRelease(c, s.(written := s.written + s.workers[i].len), i);
    hide TopSection, Release, Output, Slot;
    var t := WorkerStep(c, s, i, k, true);
    if s.workers[i].done < |Output(s.workers[i].len, s.workers[i].packed)| {
      HealthyWith(c, s, i, t);
    }
  }

  lemma HealthyWork(c: Config, s: State, i: nat, k: nat)
    requires c.Valid() && |s.workers| == |s.threadPos| && Blocks(c, s) && Healthy(c, s) && WorkerEnabled(c, s, i, k)
    ensures Healthy(c, WorkerStep(c, s, i, k, true))
  {
    hide Config.Valid, Blocks, Healthy, TopSection, Release, TurnSection, Output, Slot;
    match s.workers[i]
    case AtTop => HealthyTop(c, s, i);
    case Compressing(_, _) => HealthyCompressing(c, s, i, k);
    case AtTurn(_, _) => HealthyTurn(c, s, i);
    case Writing(_, _, _) => HealthyWriting(c, s, i, k);
    case _ =>
  }

  lemma HealthyTurn(c: Config, s: State, i: nat)
    requires i < |s.workers| == |s.threadPos| && s.workers[i].AtTurn? && Healthy(c, s)
    ensures Healthy(c, TurnSection(c, s, i))
  {
    assert s.workers[i].packed != [];
    hide MustWait, TopSection, Release;
  }

  lemma HealthyStep(c: Config, s: State, step: Step)
    requires c.Valid() && |s.workers| == |s.threadPos| && Blocks(c, s) && Healthy(c, s) && Enabled(c, s, step)
    requires step.Work? ==> step.ok
    ensures Healthy(c, Apply(c, s, step))
  {
    match step
    case Produce(junk) => HealthyProduce(c, s, junk);
    case Work(i, k, _) => HealthyWork(c, s, i, k);
    case _ => hide Config.Valid, Blocks;
  }

  /** Errors come from failed compressions and a failed sync, and from nothing else: in a run
      without a failed compression no thread ever sees an error, so when it finishes its file is
      complete. */
  lemma {:induction false} NoFailureNoError(c: Config, states: seq<State>, steps: seq<Step>, n: nat)
    requires c.Valid() && Run(c, states, steps) && n < |states|
    requires forall k | 0 <= k < |steps| && steps[k].Work? :: steps[k].ok
    ensures Healthy(c, states[n])
  {
    hide Inv, Apply, Enabled, Config.Valid, Healthy;
    if n == 0 {
      HealthyInit(c, states[0]);
    } else {
      NoFailureNoError(c, states, steps, n - 1);
      assert Enabled(c, states[n - 1], steps[n - 1]);
      InvReachable(c, states, steps, n - 1);
      InvParts(c, states[n - 1]);
      hide Positions, Script, Idles, Blocks, Disjoint, NoGap, RingHolds, FileHolds, Sleepers;
      HealthyStep(c, states[n - 1], steps[n - 1]);
    }
  }

  lemma HealthyInit(c: Config, s: State)
    requires Init(c, s)
    ensures Healthy(c, s)
  {
  }
}
