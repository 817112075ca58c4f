/**
 What every step of the compressor keeps, and what follows for whole runs: one
 writer at a time, a file that is always a prefix of the sequential encoding, and
 a ring buffer whose live bytes the producer never touches.
 */
module WriterSafety {
  import opened BlockFormat
  import opened RingArithmetic
  import opened CompressedWriter

  // ------------------------------------------------------------ the invariant

  ghost predicate Positions(c: Config, s: State) {
    && s.written <= s.nextPos <= s.endPos == s.reservedPos <= s.writePos <= s.uptoPos
    && s.writePos <= |c.stream| < IDLE
    && s.uptoPos <= Completed(s.threadPos, s.nextPos) + c.ringSize
  }

  /** The producer's program counter, its script and its flags agree. */
  ghost predicate Script(c: Config, s: State) {
    && s.writePos <= |c.stream|
    && 0 < c.ringSize
    && (s.error ==> s.writeError || s.producer.Closed?)
    && (!s.error || !s.writeError ==> c.stream[s.writePos..] == s.producer.Rest() + Concat(s.calls))
    && (s.closing <==> s.producer.Joining? || s.producer.Closed?)
    && (s.producer.FlushingLast? || s.producer.MarkingClosed? || s.closing ==> s.calls == [])
    && (s.producer.MarkingClosed? || s.closing ==> s.endPos == s.writePos)
    && (s.producer.Publishing? || s.producer.AtFull? || s.producer.AsleepFull? ==> !s.error && s.producer.rest != [])
    && (s.producer.AtFull? || s.producer.AsleepFull? ==> s.reservedPos == s.writePos)
    && (s.producer.Copying? ==>
          && !s.error
          && 0 < s.producer.amount <= Min(|s.producer.rest|, c.ringSize - Slot(s.writePos, c.ringSize))
          && s.writePos + s.producer.amount <= s.uptoPos)
  }

  ghost predicate Idles(s: State)
    requires |s.threadPos| == |s.workers|
  {
    forall i | 0 <= i < |s.workers| :: s.threadPos[i] <= IDLE && (s.workers[i].Active() <==> s.threadPos[i] != IDLE)
  }

  /** A held block starts no earlier than the file ends and is cut where the sequential
      encoding cuts it; what was read, packed and written of it is what it contains. */
  ghost predicate Holds(c: Config, w: Worker, pos: nat, written: nat, nextPos: nat)
    requires w.Active()
  {
    && written <= pos < pos + w.len <= nextPos <= |c.stream|
    && pos + w.len == Min(pos + c.blockSize, |c.stream|)
    && (w.Writing? ==> pos == written)
    && var block := c.stream[pos..pos + w.len];
       match w
       case Compressing(_, input) => input <= block
       case AtTurn(_, packed) => packed == [] || packed == c.codec.compress(block)
       case AsleepTurn(_, packed) => packed == c.codec.compress(block)
       case Writing(_, packed, done) => packed == c.codec.compress(block) && done <= HEADER_SIZE + |packed|
  }

  ghost predicate Blocks(c: Config, s: State)
    requires |s.threadPos| == |s.workers|
  {
    forall i | 0 <= i < |s.workers| && s.workers[i].Active() ::
      Holds(c, s.workers[i], s.threadPos[i], s.written, s.nextPos)
  }

  ghost predicate Disjoint(s: State)
    requires |s.threadPos| == |s.workers|
  {
    forall i, j | 0 <= i < |s.workers| && 0 <= j < |s.workers| && s.workers[i].Active() && s.workers[j].Active()
                  && s.threadPos[i] <= s.threadPos[j] && i != j ::
      s.threadPos[i] + s.workers[i].len <= s.threadPos[j]
  }

  /** Some thread holds the block that starts at `pos`. */
  ghost predicate StartsAt(threadPos: seq<nat>, pos: nat) { pos in threadPos }

  /** While nothing failed, held blocks leave no gap between the file and the unclaimed data. */
  ghost predicate NoGap(s: State)
    requires |s.threadPos| == |s.workers|
  {
    !s.writeError ==>
      && (s.written == s.nextPos || StartsAt(s.threadPos, s.written))
      && forall i | 0 <= i < |s.workers| && s.workers[i].Active() ::
           s.threadPos[i] + s.workers[i].len == s.nextPos || StartsAt(s.threadPos, s.threadPos[i] + s.workers[i].len)
  }

  /** The ring holds every byte copied but not yet released. */
  ghost predicate RingHolds(c: Config, s: State) {
    && 0 < c.ringSize == |s.ring|
    && s.writePos <= |c.stream|
    && forall k | Completed(s.threadPos, s.nextPos) <= k < s.writePos :: s.ring[Slot(k, c.ringSize)] == c.stream[k]
  }

  ghost function Remaining(c: Config, pos: nat): seq<byte>
    requires c.Valid()
  {
    EncodeFrom(c.codec, c.blockSize, c.stream, pos)
  }

  ghost predicate SomeoneWriting(s: State) {
    exists i :: 0 <= i < |s.workers| && s.workers[i].Writing?
  }

  /** What a writing thread has yet to append. */
  ghost function Pending(w: Worker): seq<byte>
    requires w.Writing?
  {
    if w.len < WORD && |w.packed| < WORD && w.done <= HEADER_SIZE + |w.packed| then
      Output(w.len, w.packed)[w.done..]
    else
      []
  }

  /** File plus what is still to come is always the whole encoding. */
  ghost predicate FileHolds(c: Config, s: State)
    requires c.Valid() && |s.threadPos| == |s.workers|
  {
    && (forall i | 0 <= i < |s.workers| && s.workers[i].Writing? ::
          s.file + Pending(s.workers[i]) + Remaining(c, s.threadPos[i] + s.workers[i].len) == Remaining(c, 0))
    && (!SomeoneWriting(s) ==> s.file + Remaining(c, s.written) == Remaining(c, 0))
  }

  /** Nobody sleeps whose condition to go on holds. */
  ghost predicate Sleepers(c: Config, s: State)
    requires |s.threadPos| == |s.workers|
  {
    && (forall i | 0 <= i < |s.workers| ::
          && (s.workers[i].AsleepTop? ==> !s.closing && !CanClaim(c, s))
          && (s.workers[i].AsleepTurn? ==> !s.writeError && MustWait(s.threadPos, i))
          && (s.workers[i].Exited? ==> CanExit(s)))
    && (s.producer.AsleepFull? ==>
          !s.writeError && s.reservedPos >= Completed(s.threadPos, s.nextPos) + c.ringSize)
  }

  /** Everything but who may sleep. */
  ghost predicate Core(c: Config, s: State)
    requires c.Valid()
  {
    && Shape(c, s)
    && Positions(c, s)
    && Script(c, s)
    && Idles(s)
    && Blocks(c, s)
    && Disjoint(s)
    && NoGap(s)
    && RingHolds(c, s)
    && FileHolds(c, s)
  }

  ghost predicate Inv(c: Config, s: State)
    requires c.Valid()
  {
    Core(c, s) && Sleepers(c, s)
  }

  lemma CoreParts(c: Config, s: State)
    requires c.Valid() && Core(c, s)
    ensures Shape(c, s) && |s.workers| == |s.threadPos| == c.numThreads
    ensures Positions(c, s) && Script(c, s) && Idles(s) && Blocks(c, s) && Disjoint(s) && NoGap(s)
    ensures RingHolds(c, s) && FileHolds(c, s)
  {
    hide Positions, Script, Idles, Blocks, Disjoint, NoGap, RingHolds, FileHolds, Config.Valid;
  }

  lemma PartsCore(c: Config, s: State)
    requires c.Valid() && Shape(c, s) && |s.workers| == |s.threadPos|
    requires Positions(c, s) && Script(c, s) && Idles(s) && Blocks(c, s) && Disjoint(s) && NoGap(s)
    requires RingHolds(c, s) && FileHolds(c, s)
    ensures Core(c, s)
  {
    hide Positions, Script, Idles, Blocks, Disjoint, NoGap, RingHolds, FileHolds, Config.Valid;
  }

  lemma InvParts(c: Config, s: State)
    requires c.Valid() && Inv(c, s)
    ensures Core(c, s)
    ensures Shape(c, s) && |s.workers| == |s.threadPos| == c.numThreads
    ensures Positions(c, s) && Script(c, s) && Idles(s) && Blocks(c, s) && Disjoint(s) && NoGap(s)
    ensures RingHolds(c, s) && FileHolds(c, s) && Sleepers(c, s)
  {
    hide Core, Sleepers;
    CoreParts(c, s);
  }

  lemma PartsInv(c: Config, s: State)
    requires c.Valid() && Shape(c, s) && |s.workers| == |s.threadPos|
    requires Positions(c, s) && Script(c, s) && Idles(s) && Blocks(c, s) && Disjoint(s) && NoGap(s)
    requires RingHolds(c, s) && FileHolds(c, s) && Sleepers(c, s)
    ensures Inv(c, s)
  {
    hide Core, Positions, Script, Idles, Blocks, Disjoint, NoGap, RingHolds, FileHolds, Sleepers, Config.Valid;
    PartsCore(c, s);
  }

  lemma InitThreads(c: Config, s: State)
    requires c.Valid() && Init(c, s)
    ensures Shape(c, s) && |s.workers| == |s.threadPos|
    ensures Idles(s) && Blocks(c, s) && Disjoint(s) && NoGap(s) && FileHolds(c, s) && Sleepers(c, s)
  {
    hide Config.Valid, Remaining, Completed, Holds;
    assert s.file + Remaining(c, 0) == Remaining(c, 0);
  }

  lemma InitProducer(c: Config, s: State)
    requires c.Valid() && Init(c, s)
    ensures Positions(c, s) && Script(c, s) && RingHolds(c, s)
  {
    assert 0 < c.blockSize * (c.numThreads + 2);
    assert c.stream[0..] == c.stream == [] + Concat(s.calls);
    assert c.stream == Concat(s.calls) && |c.stream| < IDLE && 0 < c.ringSize;
    hide Concat, Faithful, Slot, Config.Valid;
  }

  lemma InvInit(c: Config, s: State)
    requires c.Valid() && Init(c, s)
    ensures Inv(c, s)
  {
    hide *;
    InitThreads(c, s);
    InitProducer(c, s);
    PartsInv(c, s);
  }

  // ----------------------------------------------------- compression threads

  /** A thread that claims the next block takes over its position. */
  lemma CompletedClaim(threadPos: seq<nat>, i: nat, pos: nat, next: nat)
    requires i < |threadPos| && pos <= threadPos[i] && pos <= next
    ensures Completed(threadPos[i := pos], next) == Completed(threadPos, pos)
  {
    var claimed := threadPos[i := pos];
    assert forall j | 0 <= j < |threadPos| && j != i :: claimed[j] == threadPos[j];
    assert claimed[i] == pos;
  }

  lemma ClaimPositions(c: Config, s: State, i: nat)
    requires i < |s.workers| == |s.threadPos|
    requires Positions(c, s) && Script(c, s) && Idles(s) && s.workers[i] == AtTop && CanClaim(c, s) && 0 < c.blockSize
    ensures Positions(c, TopSection(c, s, i))
    ensures Script(c, TopSection(c, s, i))
    ensures Idles(TopSection(c, s, i))
    ensures Completed(TopSection(c, s, i).threadPos, TopSection(c, s, i).nextPos) == Completed(s.threadPos, s.nextPos)
  {
    CompletedClaim(s.threadPos, i, s.nextPos, TopSection(c, s, i).nextPos);
    hide Completed, Concat;
  }

  /** A claim takes the block the sequential encoding would cut next. */
  lemma ClaimCut(c: Config, s: State)
    requires Positions(c, s) && Script(c, s) && CanClaim(c, s)
    ensures Min(s.endPos, s.nextPos + c.blockSize) == Min(s.nextPos + c.blockSize, |c.stream|)
  {
    if s.closing {
      assert Concat(s.calls) == [];
      assert |c.stream[s.writePos..]| == 0;
    }
  }

  lemma ClaimBlocks(c: Config, s: State, i: nat)
    requires i < |s.workers| == |s.threadPos|
    requires Positions(c, s) && Script(c, s) && s.workers[i] == AtTop && CanClaim(c, s)
    requires Blocks(c, s) && 0 < c.blockSize
    ensures Blocks(c, TopSection(c, s, i))
  {
    var t := TopSection(c, s, i);
    ClaimCut(c, s);
    hide Script, Positions;
    forall j | 0 <= j < |t.workers| && t.workers[j].Active()
      ensures Holds(c, t.workers[j], t.threadPos[j], t.written, t.nextPos)
    {
      if j != i {
        assert t.workers[j] == s.workers[j] && t.threadPos[j] == s.threadPos[j];
        assert Holds(c, s.workers[j], s.threadPos[j], s.written, s.nextPos);
      }
    }
  }

  lemma ClaimDisjoint(c: Config, s: State, i: nat)
    requires i < |s.workers| == |s.threadPos|
    requires s.workers[i] == AtTop && CanClaim(c, s)
    requires Blocks(c, s) && Disjoint(s)
    ensures Disjoint(TopSection(c, s, i))
  {
    var t := TopSection(c, s, i);
    assert forall j | 0 <= j < |t.workers| && j != i ::
      t.workers[j] == s.workers[j] && t.threadPos[j] == s.threadPos[j];
    forall j | 0 <= j < |t.workers| && j != i && t.workers[j].Active()
      ensures t.threadPos[j] + t.workers[j].len <= t.threadPos[i]
    {
      assert Holds(c, s.workers[j], s.threadPos[j], s.written, s.nextPos);
    }
  }

  lemma UpdateKeeps(a: seq<nat>, i: nat, v: nat, p: nat)
    requires i < |a| && StartsAt(a, p) && a[i] != p
    ensures StartsAt(a[i := v], p)
  {
    var j :| 0 <= j < |a| && a[j] == p;
    assert a[i := v][j] == p;
  }

  /** What claiming a block does, as far as the chain of claimed blocks is concerned. */
  ghost predicate Claims(s: State, t: State, i: nat) {
    && |t.workers| == |t.threadPos| == |s.workers| == |s.threadPos| && i < |s.workers|
    && t.threadPos == s.threadPos[i := s.nextPos] && s.threadPos[i] == IDLE
    && t.writeError == s.writeError && t.written == s.written && t.workers[i].Active()
    && t.workers[i].len == t.nextPos - s.nextPos
    && forall j | 0 <= j < |t.workers| && j != i :: t.workers[j] == s.workers[j]
  }

  lemma ClaimForm(c: Config, s: State, i: nat)
    requires i < |s.workers| == |s.threadPos| && s.workers[i] == AtTop && CanClaim(c, s) && Idles(s)
    ensures Claims(s, TopSection(c, s, i), i)
  {
  }

  lemma ClaimedNoGap(s: State, t: State, i: nat)
    requires Claims(s, t, i) && s.written <= s.nextPos < IDLE && NoGap(s)
    requires forall j | 0 <= j < |s.workers| && s.workers[j].Active() :: s.threadPos[j] + s.workers[j].len <= s.nextPos
    ensures NoGap(t)
  {
    assert StartsAt(t.threadPos, s.nextPos) by { assert t.threadPos[i] == s.nextPos; }
    hide StartsAt;
    if !s.writeError {
      if s.written != s.nextPos {
        UpdateKeeps(s.threadPos, i, s.nextPos, s.written);
      }
      forall j | 0 <= j < |t.workers| && t.workers[j].Active()
        ensures t.threadPos[j] + t.workers[j].len == t.nextPos
          || StartsAt(t.threadPos, t.threadPos[j] + t.workers[j].len)
      {
        if j != i && s.threadPos[j] + s.workers[j].len != s.nextPos {
          UpdateKeeps(s.threadPos, i, s.nextPos, s.threadPos[j] + s.workers[j].len);
        }
      }
    }
  }

  lemma ClaimNoGap(c: Config, s: State, i: nat)
    requires i < |s.workers| == |s.threadPos|
    requires s.workers[i] == AtTop && CanClaim(c, s) && Idles(s)
    requires s.written <= s.nextPos < IDLE && NoGap(s) && Blocks(c, s) && |c.stream| < IDLE
    ensures NoGap(TopSection(c, s, i))
  {
    ClaimForm(c, s, i);
    forall j | 0 <= j < |s.workers| && s.workers[j].Active() ensures s.threadPos[j] + s.workers[j].len <= s.nextPos {
      assert Holds(c, s.workers[j], s.threadPos[j], s.written, s.nextPos);
    }
    hide *;
    ClaimedNoGap(s, TopSection(c, s, i), i);
  }

  lemma TopFile(c: Config, s: State, i: nat)
    requires i < |s.workers| == |s.threadPos|
    requires c.Valid() && s.workers[i] == AtTop && FileHolds(c, s)
    ensures FileHolds(c, TopSection(c, s, i))
  {
    hide Remaining, Config.Valid, Pending, CanClaim, CanExit;
    var t := TopSection(c, s, i);
    assert forall j | 0 <= j < |t.workers| && j != i ::
      t.workers[j] == s.workers[j] && t.threadPos[j] == s.threadPos[j];
    assert !t.workers[i].Writing? && t.file == s.file && t.written == s.written && |t.workers| == |s.workers|;
    hide TopSection;
    if SomeoneWriting(s) {
      var j :| 0 <= j < |s.workers| && s.workers[j].Writing?;
      assert t.workers[j].Writing?;
    }
  }

  lemma TopSleepers(c: Config, s: State, i: nat)
    requires i < |s.workers| == |s.threadPos|
    requires s.workers[i] == AtTop && Sleepers(c, s) && Idles(s)
    requires s.nextPos <= s.endPos
    requires CanClaim(c, s) ==>
      Completed(TopSection(c, s, i).threadPos, TopSection(c, s, i).nextPos) == Completed(s.threadPos, s.nextPos)
    ensures Sleepers(c, TopSection(c, s, i))
  {
    var t := TopSection(c, s, i);
    forall j | 0 <= j < |t.workers|
      ensures t.workers[j].AsleepTop? ==> !t.closing && !CanClaim(c, t)
      ensures t.workers[j].AsleepTurn? ==> !t.writeError && MustWait(t.threadPos, j)
      ensures t.workers[j].Exited? ==> CanExit(t)
    {
      if j != i && s.workers[j].AsleepTurn? {
        assert t.threadPos[j] == s.threadPos[j];
        var k :| 0 <= k < |s.threadPos| && s.threadPos[k] < s.threadPos[j];
        assert s.threadPos[j] <= IDLE && k != i;
        assert t.threadPos[k] < t.threadPos[j];
      }
    }
  }

  lemma StayIdle(c: Config, s: State, i: nat)
    requires i < |s.workers| == |s.threadPos|
    requires s.workers[i] == AtTop && !CanClaim(c, s)
    requires Idles(s) && Blocks(c, s) && Disjoint(s) && NoGap(s)
    ensures Idles(TopSection(c, s, i)) && Blocks(c, TopSection(c, s, i))
    ensures Disjoint(TopSection(c, s, i)) && NoGap(TopSection(c, s, i))
  {
    hide Holds, CanClaim, CanExit, StartsAt;
    var t := TopSection(c, s, i);
    assert forall j | 0 <= j < |t.workers| && t.workers[j].Active() :: j != i && t.workers[j] == s.workers[j];
  }

  lemma ClaimRing(c: Config, s: State, i: nat)
    requires i < |s.workers| == |s.threadPos| && RingHolds(c, s)
    requires !CanClaim(c, s)
      || Completed(TopSection(c, s, i).threadPos, TopSection(c, s, i).nextPos) == Completed(s.threadPos, s.nextPos)
    ensures RingHolds(c, TopSection(c, s, i))
  {
    hide Completed, Slot;
  }

  lemma StayPositions(c: Config, s: State, i: nat)
    requires i < |s.workers| == |s.threadPos| && Positions(c, s) && Script(c, s) && !CanClaim(c, s)
    ensures Positions(c, TopSection(c, s, i)) && Script(c, TopSection(c, s, i))
  {
    hide Completed, CanClaim, CanExit;
  }

  lemma TopFacts(c: Config, s: State, i: nat)
    requires c.Valid() && Positions(c, s) && Shape(c, s) && i < |s.workers| && |s.workers| == |s.threadPos|
    ensures 0 < c.blockSize && |c.stream| < IDLE && s.written <= s.nextPos <= s.endPos && s.nextPos < IDLE
    ensures Shape(c, TopSection(c, s, i)) && |TopSection(c, s, i).workers| == |TopSection(c, s, i).threadPos|
  {
    hide Completed, Concat, Faithful;
  }

  lemma InvTop(c: Config, s: State, i: nat)
    requires c.Valid() && Inv(c, s) && i < |s.workers| && s.workers[i] == AtTop
    ensures Inv(c, TopSection(c, s, i))
  {
    hide *;
    InvParts(c, s);
    TopFacts(c, s, i);
    TopFile(c, s, i);
    if CanClaim(c, s) {
      ClaimPositions(c, s, i);
      ClaimBlocks(c, s, i);
      ClaimDisjoint(c, s, i);
      ClaimNoGap(c, s, i);
    } else {
      StayIdle(c, s, i);
      StayPositions(c, s, i);
    }
    TopSleepers(c, s, i);
    ClaimRing(c, s, i);
    PartsInv(c, TopSection(c, s, i));
  }

  /** A thread moves on with its block; nothing else changes but the file. */
  function Advance(s: State, i: nat, w: Worker, file: seq<byte>): (t: State)
    requires i < |s.workers|
    ensures |t.workers| == |s.workers| && t.threadPos == s.threadPos
  {
    s.(workers := s.workers[i := w], file := file)
  }

  lemma AdvanceBlocks(c: Config, s: State, i: nat, w: Worker, file: seq<byte>)
    requires i < |s.workers| == |s.threadPos|
    requires s.workers[i].Active() && w.Active() && w.len == s.workers[i].len
    requires Holds(c, w, s.threadPos[i], s.written, s.nextPos)
    requires Idles(s) && Blocks(c, s) && Disjoint(s) && NoGap(s)
    ensures Idles(Advance(s, i, w, file)) && Blocks(c, Advance(s, i, w, file))
    ensures Disjoint(Advance(s, i, w, file)) && NoGap(Advance(s, i, w, file))
  {
    hide Holds, Disjoint, NoGap, StartsAt;
    AdvanceChain(s, i, w, file);
    var t := Advance(s, i, w, file);
    assert forall j | 0 <= j < |t.workers| && j != i :: t.workers[j] == s.workers[j];
  }

  lemma AdvanceChain(s: State, i: nat, w: Worker, file: seq<byte>)
    requires i < |s.workers| == |s.threadPos|
    requires s.workers[i].Active() && w.Active() && w.len == s.workers[i].len && Disjoint(s) && NoGap(s)
    ensures Disjoint(Advance(s, i, w, file)) && NoGap(Advance(s, i, w, file))
  {
    hide StartsAt;
    var t := Advance(s, i, w, file);
    assert forall j | 0 <= j < |t.workers| && j != i :: t.workers[j] == s.workers[j];
  }

  lemma AdvanceSleepers(c: Config, s: State, i: nat, w: Worker, file: seq<byte>)
    requires i < |s.workers| == |s.threadPos|
    requires w.Active() && Sleepers(c, s)
    requires w.AsleepTurn? ==> !s.writeError && MustWait(s.threadPos, i)
    ensures Sleepers(c, Advance(s, i, w, file))
  {
    hide MustWait, Completed;
    var t := Advance(s, i, w, file);
    assert forall j | 0 <= j < |t.workers| && j != i :: t.workers[j] == s.workers[j];
    assert CanClaim(c, t) == CanClaim(c, s) && CanExit(t) == CanExit(s);
  }

  lemma AdvanceRest(c: Config, s: State, i: nat, w: Worker, file: seq<byte>)
    requires Shape(c, s) && i < |s.workers| && Positions(c, s) && Script(c, s) && RingHolds(c, s)
    ensures var t := Advance(s, i, w, file);
      Shape(c, t) && |t.workers| == |t.threadPos| && Positions(c, t) && Script(c, t) && RingHolds(c, t)
  {
    hide Completed, Slot;
  }

  lemma InvAdvance(c: Config, s: State, i: nat, w: Worker, file: seq<byte>)
    requires c.Valid() && Inv(c, s) && i < |s.workers| && |s.workers| == |s.threadPos|
    requires s.workers[i].Active() && w.Active() && w.len == s.workers[i].len
    requires Holds(c, w, s.threadPos[i], s.written, s.nextPos)
    requires w.AsleepTurn? ==> !s.writeError && MustWait(s.threadPos, i)
    requires FileHolds(c, Advance(s, i, w, file))
    ensures Inv(c, Advance(s, i, w, file))
  {
    hide *;
    InvParts(c, s);
    AdvanceBlocks(c, s, i, w, file);
    AdvanceSleepers(c, s, i, w, file);
    AdvanceRest(c, s, i, w, file);
    PartsInv(c, Advance(s, i, w, file));
  }

  lemma AdvanceFile(c: Config, s: State, i: nat, w: Worker)
    requires i < |s.workers| == |s.threadPos|
    requires c.Valid() && FileHolds(c, s) && !s.workers[i].Writing? && !w.Writing?
    ensures FileHolds(c, Advance(s, i, w, s.file))
  {
    hide Config.Valid, Remaining, Pending;
    var t := Advance(s, i, w, s.file);
    assert forall j | 0 <= j < |t.workers| && t.workers[j].Writing? :: t.workers[j] == s.workers[j];
    if SomeoneWriting(s) {
      var j :| 0 <= j < |s.workers| && s.workers[j].Writing?;
      assert t.workers[j].Writing?;
    }
  }

  /** What the encoder reads from the ring is the next part of its block. */
  lemma RingRead(c: Config, s: State, pos: nat, k: nat)
    requires RingHolds(c, s) && Completed(s.threadPos, s.nextPos) <= pos && pos + k <= s.writePos
    requires Slot(pos, c.ringSize) + k <= c.ringSize
    ensures s.ring[Slot(pos, c.ringSize)..Slot(pos, c.ringSize) + k] == c.stream[pos..pos + k]
  {
    hide Slot, Completed;
    var slot := Slot(pos, c.ringSize);
    var read, expected := s.ring[slot..slot + k], c.stream[pos..pos + k];
    forall j | 0 <= j < k ensures read[j] == expected[j] {
      SlotForward(pos, j, c.ringSize);
      assert s.ring[Slot(pos + j, c.ringSize)] == c.stream[pos + j];
    }
  }

  /** The encoder's next read extends what it was fed. */
  lemma StreamCut(stream: seq<byte>, start: nat, pos: nat, k: nat, len: nat)
    requires start <= pos <= pos + k <= start + len <= |stream|
    ensures stream[start..pos] + stream[pos..pos + k] <= stream[start..start + len]
  {
    assert stream[start..pos] + stream[pos..pos + k] == stream[start..pos + k];
  }

  lemma ReadHolds(c: Config, s: State, i: nat, k: nat)
    requires WorkerEnabled(c, s, i, k) && s.workers[i].Compressing? && |s.workers[i].input| < s.workers[i].len
    requires Positions(c, s) && Blocks(c, s) && RingHolds(c, s)
    ensures var w := WorkerStep(c, s, i, k, true).workers[i];
      w.Compressing? && w.len == s.workers[i].len && Holds(c, w, s.threadPos[i], s.written, s.nextPos)
  {
    hide Slot, RingHolds;
    var Compressing(len, input) := s.workers[i];
    var start := s.threadPos[i];
    var pos := start + |input|;
    assert Holds(c, s.workers[i], start, s.written, s.nextPos);
    assert Completed(s.threadPos, s.nextPos) <= pos;
    assert input == c.stream[start..pos];
    hide Completed, Positions, Blocks;
    RingRead(c, s, pos, k);
    StreamCut(c.stream, start, pos, k, len);
  }

  lemma CompressedHolds(c: Config, s: State, i: nat, packed: seq<byte>)
    requires i < |s.workers| == |s.threadPos| && Blocks(c, s)
    requires s.workers[i].Compressing? && |s.workers[i].input| >= s.workers[i].len
    requires packed == [] || packed == c.codec.compress(s.workers[i].input)
    ensures Holds(c, AtTurn(s.workers[i].len, packed), s.threadPos[i], s.written, s.nextPos)
  {
    assert Holds(c, s.workers[i], s.threadPos[i], s.written, s.nextPos);
    assert s.workers[i].input == c.stream[s.threadPos[i]..s.threadPos[i] + s.workers[i].len];
  }

  lemma ReadForm(c: Config, s: State, i: nat, k: nat, ok: bool) returns (w: Worker)
    requires WorkerEnabled(c, s, i, k) && s.workers[i].Compressing?
    ensures i < |s.workers| == |s.threadPos| && s.workers[i].Active()
    ensures WorkerStep(c, s, i, k, ok) == Advance(s, i, w, s.file)
    ensures w.Compressing? || w.AtTurn?
    ensures w.len == s.workers[i].len && w.Active()
    ensures w.Compressing? ==> |s.workers[i].input| < w.len && |s.workers[i].input| < |w.input| <= w.len
    ensures w.Compressing? ==>
      0 < |WorkerStep(c, s, i, k, true).workers| == |s.workers| && w == WorkerStep(c, s, i, k, true).workers[i]
    ensures w.AtTurn? ==>
      |s.workers[i].input| >= w.len && w.packed == if ok then c.codec.compress(s.workers[i].input) else []
  {
    hide Slot;
    w := WorkerStep(c, s, i, k, ok).workers[i];
  }

  lemma InvRead(c: Config, s: State, i: nat, k: nat, ok: bool)
    requires c.Valid() && Inv(c, s) && WorkerEnabled(c, s, i, k) && s.workers[i].Compressing?
    ensures Inv(c, WorkerStep(c, s, i, k, ok))
  {
    hide *;
    InvParts(c, s);
    var w := ReadForm(c, s, i, k, ok);
    if w.Compressing? {
      ReadHolds(c, s, i, k);
    } else {
      CompressedHolds(c, s, i, w.packed);
    }
    AdvanceFile(c, s, i, w);
    InvAdvance(c, s, i, w, s.file);
  }

  // ------------------------------------------------------ taking turns to write

  lemma OneWriter(c: Config, s: State, i: nat, j: nat)
    requires i < |s.workers| == |s.threadPos| && j < |s.workers|
    requires Blocks(c, s) && Disjoint(s)
    requires s.workers[i].Active() && s.threadPos[i] == s.written && s.workers[j].Writing?
    ensures i == j
  {
    assert Holds(c, s.workers[j], s.threadPos[j], s.written, s.nextPos);
    assert Holds(c, s.workers[i], s.threadPos[i], s.written, s.nextPos);
  }

  /** A thread with no earlier block outstanding holds the block the file needs next. */
  lemma TurnIsNext(c: Config, s: State, i: nat)
    requires i < |s.workers| == |s.threadPos|
    requires Blocks(c, s) && NoGap(s) && Idles(s) && s.workers[i].Active()
    requires !s.writeError && !MustWait(s.threadPos, i) && |c.stream| < IDLE
    ensures s.threadPos[i] == s.written
  {
    assert Holds(c, s.workers[i], s.threadPos[i], s.written, s.nextPos);
    var k :| 0 <= k < |s.threadPos| && s.threadPos[k] == s.written;
    assert s.threadPos[k] >= s.threadPos[i];
  }

  /** The frame of the block at `pos` comes first in what remains to be written from there. */
  lemma RemainingStep(c: Config, pos: nat, len: nat)
    requires c.Valid() && pos < |c.stream| && pos + len == Min(pos + c.blockSize, |c.stream|)
    ensures var block := c.stream[pos..pos + len];
      && len < WORD && |c.codec.compress(block)| < WORD
      && Remaining(c, pos) == Output(len, c.codec.compress(block)) + Remaining(c, pos + len)
  {
    hide Concat, Header;
    var block := c.stream[pos..pos + len];
    assert 0 < |c.codec.compress(block)| <= c.codec.limit;
    hide Config.Valid, Faithful;
    assert Frame(c.codec, block) == Output(len, c.codec.compress(block));
  }

  lemma BeginWriteFile(c: Config, s: State, i: nat, w: Worker)
    requires i < |s.workers| == |s.threadPos| && c.Valid() && FileHolds(c, s)
    requires s.workers[i].AtTurn? && w == Writing(s.workers[i].len, s.workers[i].packed, 0)
    requires Holds(c, w, s.threadPos[i], s.written, s.nextPos)
    requires forall j | 0 <= j < |s.workers| && s.workers[j].Writing? :: i == j
    ensures FileHolds(c, Advance(s, i, w, s.file))
  {
    hide Config.Valid, Remaining, Header;
    var t := Advance(s, i, w, s.file);
    RemainingStep(c, s.threadPos[i], w.len);
    assert !SomeoneWriting(s);
    assert t.workers[i].Writing?;
    assert Pending(w) == Output(w.len, w.packed);
    assert s.file + Pending(w) + Remaining(c, s.threadPos[i] + w.len)
        == s.file + (Pending(w) + Remaining(c, s.threadPos[i] + w.len));
  }

  lemma TurnForm(c: Config, s: State, i: nat) returns (w: Worker)
    requires i < |s.workers| == |s.threadPos| && s.workers[i].AtTurn?
    requires !s.writeError && s.workers[i].packed != []
    ensures TurnSection(c, s, i) == Advance(s, i, w, s.file)
    ensures w == if MustWait(s.threadPos, i) then AsleepTurn(s.workers[i].len, s.workers[i].packed)
                 else Writing(s.workers[i].len, s.workers[i].packed, 0)
  {
    hide TopSection, Release, MustWait;
    w := TurnSection(c, s, i).workers[i];
  }

  lemma TurnLocal(c: Config, s: State, i: nat) returns (w: Worker)
    requires i < |s.workers| == |s.threadPos| && s.workers[i].AtTurn?
    requires !s.writeError && s.workers[i].packed != []
    requires |c.stream| < IDLE && Idles(s) && Blocks(c, s) && NoGap(s)
    ensures TurnSection(c, s, i) == Advance(s, i, w, s.file)
    ensures s.workers[i].Active() && w.Active() && w.len == s.workers[i].len
    ensures w.AsleepTurn? ==> MustWait(s.threadPos, i)
    ensures w.Writing? ==> w == Writing(s.workers[i].len, s.workers[i].packed, 0) && s.threadPos[i] == s.written
    ensures Holds(c, w, s.threadPos[i], s.written, s.nextPos)
  {
    w := TurnForm(c, s, i);
    assert Holds(c, s.workers[i], s.threadPos[i], s.written, s.nextPos);
    hide *;
    if w.Writing? {
      TurnIsNext(c, s, i);
    }
    TurnHolds(c, s.workers[i], w, s.threadPos[i], s.written, s.nextPos);
  }

  lemma TurnHolds(c: Config, before: Worker, w: Worker, pos: nat, written: nat, nextPos: nat)
    requires before.AtTurn? && before.Active() && Holds(c, before, pos, written, nextPos) && before.packed != []
    requires w == AsleepTurn(before.len, before.packed)
      || (w == Writing(before.len, before.packed, 0) && pos == written)
    ensures w.Active() && w.len == before.len && Holds(c, w, pos, written, nextPos)
  {
  }

  lemma StreamFits(c: Config)
    requires c.Valid()
    ensures |c.stream| + c.ringSize < IDLE && 0 < c.blockSize < WORD && 0 < c.numThreads
  {
    hide Concat, Faithful;
  }

  lemma InvTurnKept(c: Config, s: State, i: nat)
    requires c.Valid() && Inv(c, s) && i < |s.workers| && |s.workers| == |s.threadPos| && s.workers[i].AtTurn?
    requires !s.writeError && s.workers[i].packed != []
    ensures Inv(c, TurnSection(c, s, i))
  {
    hide *;
    InvParts(c, s);
    StreamFits(c);
    var w := TurnLocal(c, s, i);
    if w.Writing? {
      forall j | 0 <= j < |s.workers| && s.workers[j].Writing? ensures i == j { OneWriter(c, s, i, j); }
      BeginWriteFile(c, s, i, w);
    } else {
      AdvanceFile(c, s, i, w);
    }
    InvAdvance(c, s, i, w, s.file);
  }

  lemma AppendFile(c: Config, s: State, i: nat, w: Worker, chunk: seq<byte>)
    requires i < |s.workers| == |s.threadPos| && c.Valid() && FileHolds(c, s)
    requires s.workers[i].Writing? && w.Writing? && w.len == s.workers[i].len
    requires Pending(s.workers[i]) == chunk + Pending(w)
    requires forall j | 0 <= j < |s.workers| && s.workers[j].Writing? :: i == j
    ensures FileHolds(c, Advance(s, i, w, s.file + chunk))
  {
    hide Config.Valid, Remaining, Pending;
    var t := Advance(s, i, w, s.file + chunk);
    assert t.workers[i].Writing?;
    var rest := Remaining(c, s.threadPos[i] + w.len);
    assert s.file + chunk + Pending(w) + rest == s.file + (chunk + Pending(w)) + rest;
  }

  lemma AppendLocal(c: Config, s: State, i: nat, k: nat, ok: bool) returns (w: Worker, chunk: seq<byte>)
    requires WorkerEnabled(c, s, i, k) && |s.workers| == |s.threadPos| && Blocks(c, s)
    requires s.workers[i].Writing? && s.workers[i].done < |Output(s.workers[i].len, s.workers[i].packed)|
    ensures i < |s.workers| && s.workers[i].Active() && s.threadPos[i] == s.written
    ensures w.Writing? && w.Active() && w.len == s.workers[i].len && w.packed == s.workers[i].packed && chunk != []
    ensures w.done == s.workers[i].done + |chunk| <= HEADER_SIZE + |w.packed|
    ensures WorkerStep(c, s, i, k, ok) == Advance(s, i, w, s.file + chunk)
    ensures Pending(s.workers[i]) == chunk + Pending(w)
    ensures Holds(c, w, s.threadPos[i], s.written, s.nextPos)
  {
    hide Slot, Header;
    assert Holds(c, s.workers[i], s.threadPos[i], s.written, s.nextPos);
    var Writing(len, packed, done) := s.workers[i];
    w, chunk := Writing(len, packed, done + k), Output(len, packed)[done..done + k];
  }

  lemma InvAppend(c: Config, s: State, i: nat, k: nat, ok: bool)
    requires c.Valid() && Inv(c, s) && WorkerEnabled(c, s, i, k) && |s.workers| == |s.threadPos|
    requires s.workers[i].Writing? && s.workers[i].done < |Output(s.workers[i].len, s.workers[i].packed)|
    ensures Inv(c, WorkerStep(c, s, i, k, ok))
  {
    hide *;
    InvParts(c, s);
    var w, chunk := AppendLocal(c, s, i, k, ok);
    forall j | 0 <= j < |s.workers| && s.workers[j].Writing? ensures i == j { OneWriter(c, s, i, j); }
    AppendFile(c, s, i, w, chunk);
    InvAdvance(c, s, i, w, s.file + chunk);
  }

  // ------------------------------------------------------------------ waking up

  /** `t` is `s` with some sleepers woken. */
  ghost predicate Woke(s: State, t: State) {
    && t == s.(workers := t.workers, producer := t.producer)
    && |t.workers| == |s.workers|
    && (t.producer == s.producer || t.producer == s.producer.Woken())
    && forall i | 0 <= i < |s.workers| :: t.workers[i] == s.workers[i] || t.workers[i] == s.workers[i].Woken()
  }

  lemma WokeBlocks(c: Config, s: State, t: State)
    requires Woke(s, t) && |s.workers| == |s.threadPos|
    requires Idles(s) && Blocks(c, s)
    ensures Idles(t) && Blocks(c, t)
  {
    forall i | 0 <= i < |t.workers| && t.workers[i].Active()
      ensures Holds(c, t.workers[i], t.threadPos[i], t.written, t.nextPos)
    {
      assert Holds(c, s.workers[i], s.threadPos[i], s.written, s.nextPos);
    }
  }

  lemma WokeSame(s: State, t: State, i: nat)
    requires Woke(s, t) && i < |s.workers|
    ensures t.workers[i].Active() <==> s.workers[i].Active()
    ensures t.workers[i].Active() ==> t.workers[i].len == s.workers[i].len
  {
  }

  lemma WokeOrder(s: State, t: State)
    requires Woke(s, t) && |s.workers| == |s.threadPos| == |t.workers| && t.threadPos == s.threadPos
    requires Disjoint(s)
    ensures Disjoint(t)
  {
    hide Woke;
    forall i, j | 0 <= i < |t.workers| && 0 <= j < |t.workers| && t.workers[i].Active() && t.workers[j].Active()
                  && t.threadPos[i] <= t.threadPos[j] && i != j
      ensures t.threadPos[i] + t.workers[i].len <= t.threadPos[j]
    {
      WokeSame(s, t, i);
      WokeSame(s, t, j);
    }
  }

  lemma WokeNoGap(s: State, t: State)
    requires Woke(s, t) && |s.workers| == |s.threadPos| == |t.workers| && t.threadPos == s.threadPos
    requires t.writeError == s.writeError && t.written == s.written && t.nextPos == s.nextPos
    requires NoGap(s)
    ensures NoGap(t)
  {
    hide Woke;
    forall i | !t.writeError && 0 <= i < |t.workers| && t.workers[i].Active()
      ensures t.threadPos[i] + t.workers[i].len == t.nextPos || StartsAt(t.threadPos, t.threadPos[i] + t.workers[i].len)
    {
      WokeSame(s, t, i);
    }
  }

  lemma WokeFile(c: Config, s: State, t: State)
    requires c.Valid() && Woke(s, t) && |s.workers| == |s.threadPos|
    requires FileHolds(c, s)
    ensures FileHolds(c, t)
  {
    hide Config.Valid, Remaining, Pending;
    assert forall i | 0 <= i < |t.workers| && t.workers[i].Writing? :: t.workers[i] == s.workers[i];
    if SomeoneWriting(s) {
      var i :| 0 <= i < |s.workers| && s.workers[i].Writing?;
      assert t.workers[i].Writing?;
    }
  }

  lemma WokeRest(c: Config, s: State, t: State)
    requires Woke(s, t) && Shape(c, s) && Positions(c, s) && Script(c, s) && RingHolds(c, s)
    ensures Shape(c, t) && |t.workers| == |s.workers| && t.threadPos == s.threadPos
    ensures t.writeError == s.writeError && t.written == s.written && t.nextPos == s.nextPos
    ensures Positions(c, t) && Script(c, t) && RingHolds(c, t)
  {
    hide Completed, Slot, Concat;
  }

  lemma WokeCore(c: Config, s: State, t: State)
    requires c.Valid() && Core(c, s) && Woke(s, t)
    ensures Core(c, t)
  {
    hide *;
    CoreParts(c, s);
    WokeRest(c, s, t);
    WokeBlocks(c, s, t);
    WokeOrder(s, t);
    WokeNoGap(s, t);
    WokeFile(c, s, t);
    PartsCore(c, t);
  }

  lemma WokeSleepers(c: Config, s: State, t: State)
    requires |s.workers| == |s.threadPos| && Woke(s, t) && Sleepers(c, s)
    ensures |t.workers| == |t.threadPos| && Sleepers(c, t)
  {
    hide Completed, MustWait;
    forall i | 0 <= i < |t.workers|
      ensures t.workers[i].AsleepTop? ==> !t.closing && !CanClaim(c, t)
      ensures t.workers[i].AsleepTurn? ==> !t.writeError && MustWait(t.threadPos, i)
      ensures t.workers[i].Exited? ==> CanExit(t)
    {
      assert t.workers[i] == s.workers[i] || t.workers[i] == s.workers[i].Woken();
    }
  }

  lemma InvWoke(c: Config, s: State, t: State)
    requires c.Valid() && Inv(c, s) && Woke(s, t)
    ensures Inv(c, t)
  {
    hide *;
    InvParts(c, s);
    WokeCore(c, s, t);
    CoreParts(c, t);
    WokeSleepers(c, s, t);
    PartsInv(c, t);
  }

  lemma BroadcastWakes(c: Config, s: State)
    requires |s.workers| == |s.threadPos|
    requires forall i | 0 <= i < |s.workers| && s.workers[i].Exited? :: CanExit(s)
    ensures Woke(s, Broadcast(s))
    ensures |Broadcast(s).workers| == |Broadcast(s).threadPos| && Sleepers(c, Broadcast(s))
  {
    var t := Broadcast(s);
    hide Completed, MustWait, CanClaim;
    assert forall i | 0 <= i < |t.workers| :: t.workers[i] == s.workers[i].Woken();
  }

  /** After a broadcast nobody sleeps, so the invariant needs no excuse for sleeping. */
  lemma InvBroadcast(c: Config, s: State)
    requires c.Valid() && Core(c, s)
    requires forall i | 0 <= i < |s.workers| && s.workers[i].Exited? :: CanExit(s)
    ensures Inv(c, Broadcast(s))
  {
    hide *;
    CoreParts(c, s);
    BroadcastWakes(c, s);
    WokeCore(c, s, Broadcast(s));
    CoreParts(c, Broadcast(s));
    PartsInv(c, Broadcast(s));
  }

  // ------------------------------------------------------------ releasing a block

  /** Thread `i` lets go of its block, after writing it or after a failure. */
  function Free(s: State, i: nat, written: nat, writeError: bool): (t: State)
    requires i < |s.workers| == |s.threadPos|
    ensures |t.workers| == |t.threadPos| == |s.workers| && t.workers[i] == AtTop
  {
    s.(threadPos := s.threadPos[i := IDLE], workers := s.workers[i := AtTop],
       written := written, writeError := writeError)
  }

  /** Either the block was skipped because something failed, or the file now contains it. */
  ghost predicate MayFree(s: State, i: nat, written: nat, writeError: bool)
    requires i < |s.workers| == |s.threadPos|
  {
    && s.workers[i].Active()
    && (s.writeError ==> writeError)
    && ((s.workers[i].AtTurn? && writeError && written == s.written)
        || (s.workers[i].Writing? && written == s.threadPos[i] + s.workers[i].len && writeError == s.writeError))
  }

  lemma FreePositions(c: Config, s: State, i: nat, written: nat, writeError: bool)
    requires i < |s.workers| == |s.threadPos| && MayFree(s, i, written, writeError)
    requires Shape(c, s) && Positions(c, s) && Script(c, s) && Blocks(c, s)
    ensures var t := Free(s, i, written, writeError);
      && Shape(c, t) && Positions(c, t) && Script(c, t)
      && Completed(s.threadPos, s.nextPos) <= Completed(t.threadPos, t.nextPos)
  {
    var t := Free(s, i, written, writeError);
    assert Holds(c, s.workers[i], s.threadPos[i], s.written, s.nextPos);
    hide Slot, Concat, Holds, Blocks;
    var after := Completed(t.threadPos, t.nextPos);
    if after != t.nextPos {
      var k :| 0 <= k < |t.threadPos| && t.threadPos[k] == after;
      assert k != i ==> t.threadPos[k] == s.threadPos[k];
    }
  }

  lemma FreeBlocks(c: Config, s: State, i: nat, written: nat, writeError: bool)
    requires i < |s.workers| == |s.threadPos| && MayFree(s, i, written, writeError)
    requires Idles(s) && Blocks(c, s) && Disjoint(s)
    ensures var t := Free(s, i, written, writeError);
      Idles(t) && Blocks(c, t) && Disjoint(t)
  {
    var t := Free(s, i, written, writeError);
    assert Holds(c, s.workers[i], s.threadPos[i], s.written, s.nextPos);
    assert forall j | 0 <= j < |s.workers| && j != i ::
      t.workers[j] == s.workers[j] && t.threadPos[j] == s.threadPos[j];
    forall j | 0 <= j < |t.workers| && t.workers[j].Active()
      ensures Holds(c, t.workers[j], t.threadPos[j], t.written, t.nextPos)
    {
      assert Holds(c, s.workers[j], s.threadPos[j], s.written, s.nextPos);
    }
    assert Disjoint(t) by {
      hide Holds, Blocks, MayFree;
    }
  }

  lemma FreeNoGap(c: Config, s: State, i: nat, written: nat, writeError: bool)
    requires i < |s.workers| == |s.threadPos| && MayFree(s, i, written, writeError)
    requires Blocks(c, s) && NoGap(s)
    ensures NoGap(Free(s, i, written, writeError))
  {
    hide StartsAt;
    var t := Free(s, i, written, writeError);
    if !writeError {
      assert Holds(c, s.workers[i], s.threadPos[i], s.written, s.nextPos);
      if written != s.nextPos {
        UpdateKeeps(s.threadPos, i, IDLE, written);
      }
      forall j | 0 <= j < |t.workers| && t.workers[j].Active()
        ensures t.threadPos[j] + t.workers[j].len == t.nextPos
          || StartsAt(t.threadPos, t.threadPos[j] + t.workers[j].len)
      {
        assert Holds(c, s.workers[j], s.threadPos[j], s.written, s.nextPos);
        var end := s.threadPos[j] + s.workers[j].len;
        if end != s.nextPos {
          UpdateKeeps(s.threadPos, i, IDLE, end);
        }
      }
    }
  }

  lemma FreeRing(c: Config, s: State, i: nat, written: nat, writeError: bool)
    requires i < |s.workers| == |s.threadPos| && RingHolds(c, s)
    requires Completed(s.threadPos, s.nextPos)
      <= Completed(Free(s, i, written, writeError).threadPos, Free(s, i, written, writeError).nextPos)
    ensures RingHolds(c, Free(s, i, written, writeError))
  {
    hide Completed, Slot;
  }

  lemma FreeFile(c: Config, s: State, i: nat, written: nat, writeError: bool)
    requires i < |s.workers| == |s.threadPos| && MayFree(s, i, written, writeError)
    requires c.Valid() && FileHolds(c, s)
    requires s.workers[i].Writing? ==>
      && Pending(s.workers[i]) == []
      && forall j | 0 <= j < |s.workers| && s.workers[j].Writing? :: i == j
    ensures FileHolds(c, Free(s, i, written, writeError))
  {
    hide Config.Valid, Remaining, Pending;
    var t := Free(s, i, written, writeError);
    assert forall j | 0 <= j < |t.workers| && t.workers[j].Writing? ::
      t.workers[j] == s.workers[j] && t.threadPos[j] == s.threadPos[j];
    if s.workers[i].Writing? {
      assert s.file + [] == s.file;
    } else if SomeoneWriting(s) {
      var j :| 0 <= j < |s.workers| && s.workers[j].Writing?;
      assert t.workers[j].Writing?;
    }
  }

  lemma FreeExits(c: Config, s: State, i: nat, written: nat, writeError: bool)
    requires i < |s.workers| == |s.threadPos| && MayFree(s, i, written, writeError) && Sleepers(c, s)
    ensures var t := Free(s, i, written, writeError);
      forall j | 0 <= j < |t.workers| && t.workers[j].Exited? :: CanExit(t)
  {
    hide Completed, MustWait, CanClaim;
  }

  lemma InvFree(c: Config, s: State, i: nat, written: nat, writeError: bool)
    requires c.Valid() && Inv(c, s) && i < |s.workers| == |s.threadPos| && MayFree(s, i, written, writeError)
    requires s.workers[i].Writing? ==>
      && Pending(s.workers[i]) == []
      && forall j | 0 <= j < |s.workers| && s.workers[j].Writing? :: i == j
    ensures Inv(c, Broadcast(Free(s, i, written, writeError)))
  {
    hide *;
    InvParts(c, s);
    FreePositions(c, s, i, written, writeError);
    FreeBlocks(c, s, i, written, writeError);
    FreeNoGap(c, s, i, written, writeError);
    FreeRing(c, s, i, written, writeError);
    FreeFile(c, s, i, written, writeError);
    PartsCore(c, Free(s, i, written, writeError));
    FreeExits(c, s, i, written, writeError);
    InvBroadcast(c, Free(s, i, written, writeError));
  }

  lemma FreedAtTop(s: State, i: nat, written: nat, writeError: bool)
    requires i < |s.workers| == |s.threadPos|
    ensures var t := Broadcast(Free(s, i, written, writeError));
      |t.workers| == |t.threadPos| == |s.workers| && t.workers[i] == AtTop
  {
  }

  lemma GiveUpForm(c: Config, s: State, i: nat)
    requires i < |s.workers| == |s.threadPos| && s.workers[i].AtTurn?
    requires s.writeError || s.workers[i].packed == []
    ensures MayFree(s, i, s.written, true)
    ensures |Broadcast(Free(s, i, s.written, true)).workers| == |Broadcast(Free(s, i, s.written, true)).threadPos|
      == |s.workers|
    ensures TurnSection(c, s, i) == TopSection(c, Broadcast(Free(s, i, s.written, true)), i)
  {
    hide TopSection, Broadcast;
    FreedAtTop(s, i, s.written, true);
  }

  /** A thread whose compression failed, or that sees the failure of another, writes nothing. */
  lemma InvGiveUp(c: Config, s: State, i: nat)
    requires c.Valid() && Inv(c, s) && i < |s.workers| == |s.threadPos| && s.workers[i].AtTurn?
    requires s.writeError || s.workers[i].packed == []
    ensures Inv(c, TurnSection(c, s, i))
  {
    hide *;
    GiveUpForm(c, s, i);
    InvFree(c, s, i, s.written, true);
    FreedAtTop(s, i, s.written, true);
    InvTop(c, Broadcast(Free(s, i, s.written, true)), i);
  }

  lemma WrittenLocal(c: Config, s: State, i: nat, k: nat, ok: bool) returns (written: nat)
    requires WorkerEnabled(c, s, i, k) && |s.workers| == |s.threadPos| && Blocks(c, s) && Disjoint(s)
    requires s.workers[i].Writing? && s.workers[i].done >= |Output(s.workers[i].len, s.workers[i].packed)|
    ensures i < |s.workers| == |s.threadPos| && Pending(s.workers[i]) == []
    ensures MayFree(s, i, written, s.writeError)
    ensures |Broadcast(Free(s, i, written, s.writeError)).workers|
      == |Broadcast(Free(s, i, written, s.writeError)).threadPos|
    ensures WorkerStep(c, s, i, k, ok) == TopSection(c, Broadcast(Free(s, i, written, s.writeError)), i)
    ensures forall j | 0 <= j < |s.workers| && s.workers[j].Writing? :: i == j
  {
    hide Slot, Header, TopSection, Broadcast;
    assert Holds(c, s.workers[i], s.threadPos[i], s.written, s.nextPos);
    written := s.threadPos[i] + s.workers[i].len;
    FreedAtTop(s, i, written, s.writeError);
    forall j | 0 <= j < |s.workers| && s.workers[j].Writing? ensures i == j { OneWriter(c, s, i, j); }
  }

  lemma InvWritten(c: Config, s: State, i: nat, k: nat, ok: bool)
    requires c.Valid() && Inv(c, s) && WorkerEnabled(c, s, i, k) && |s.workers| == |s.threadPos|
    requires s.workers[i].Writing? && s.workers[i].done >= |Output(s.workers[i].len, s.workers[i].packed)|
    ensures Inv(c, WorkerStep(c, s, i, k, ok))
  {
    hide *;
    InvParts(c, s);
    var written := WrittenLocal(c, s, i, k, ok);
    InvFree(c, s, i, written, s.writeError);
    FreedAtTop(s, i, written, s.writeError);
    InvTop(c, Broadcast(Free(s, i, written, s.writeError)), i);
  }

  // ------------------------------------------------------------------ the producer

  /** `t` differs from `s` only in what the threads' part of the invariant ignores. */
  ghost predicate SameThreads(s: State, t: State) {
    && t.workers == s.workers
    && t.threadPos == s.threadPos
    && t.written == s.written
    && t.nextPos == s.nextPos
    && t.writeError == s.writeError
    && t.file == s.file
  }

  lemma SameThreadsOrder(s: State, t: State)
    requires |s.workers| == |s.threadPos| && SameThreads(s, t)
    requires Disjoint(s) && NoGap(s)
    ensures |t.workers| == |t.threadPos| && Disjoint(t) && NoGap(t)
  {
    hide StartsAt;
  }

  lemma SameThreadsBlocks(c: Config, s: State, t: State)
    requires |s.workers| == |s.threadPos| && SameThreads(s, t)
    requires Idles(s) && Blocks(c, s)
    ensures |t.workers| == |t.threadPos| && Idles(t) && Blocks(c, t)
  {
    hide Holds;
  }

  lemma SameThreadsFile(c: Config, s: State, t: State)
    requires c.Valid() && |s.workers| == |s.threadPos| && SameThreads(s, t) && FileHolds(c, s)
    ensures |t.workers| == |t.threadPos| && FileHolds(c, t)
  {
    hide Remaining, Pending, Config.Valid;
    assert SomeoneWriting(s) ==> SomeoneWriting(t);
  }

  lemma SameThreadsCore(c: Config, s: State, t: State)
    requires c.Valid() && Core(c, s) && SameThreads(s, t)
    requires Shape(c, t) && Positions(c, t) && Script(c, t) && RingHolds(c, t)
    ensures Core(c, t)
  {
    hide *;
    CoreParts(c, s);
    SameThreadsOrder(s, t);
    SameThreadsBlocks(c, s, t);
    SameThreadsFile(c, s, t);
    PartsCore(c, t);
  }

  lemma ProducerSleepers(c: Config, s: State, t: State)
    requires |s.workers| == |s.threadPos| && SameThreads(s, t) && Sleepers(c, s)
    requires t.closing == s.closing && t.endPos == s.endPos
    requires t.producer.AsleepFull? ==>
      !t.writeError && t.reservedPos >= Completed(t.threadPos, t.nextPos) + c.ringSize
    ensures |t.workers| == |t.threadPos| && Sleepers(c, t)
  {
    hide Completed, MustWait;
  }

  /** A producer step that publishes nothing. */
  lemma InvProducer(c: Config, s: State, t: State)
    requires c.Valid() && Inv(c, s) && SameThreads(s, t) && t.closing == s.closing && t.endPos == s.endPos
    requires Shape(c, t) && Positions(c, t) && Script(c, t) && RingHolds(c, t)
    requires t.producer.AsleepFull? ==>
      !t.writeError && t.reservedPos >= Completed(t.threadPos, t.nextPos) + c.ringSize
    ensures Inv(c, t)
  {
    hide *;
    InvParts(c, s);
    SameThreadsCore(c, s, t);
    CoreParts(c, t);
    ProducerSleepers(c, s, t);
    PartsInv(c, t);
  }

  /** What a step of the producer alone has to establish. */
  ghost predicate ProducerLocal(c: Config, s: State, t: State) {
    && SameThreads(s, t) && t.closing == s.closing && t.endPos == s.endPos
    && Shape(c, t) && Positions(c, t) && Script(c, t) && RingHolds(c, t)
    && (t.producer.AsleepFull? ==>
          !t.writeError && t.reservedPos >= Completed(t.threadPos, t.nextPos) + c.ringSize)
  }

  lemma BetweenLocal(c: Config, s: State, junk: seq<byte>)
    requires s.producer.Between? && Shape(c, s) && Positions(c, s) && Script(c, s) && RingHolds(c, s)
    requires ProducerEnabled(c, s, junk)
    ensures ProducerLocal(c, s, ProducerStep(c, s, junk))
  {
    hide Completed, Slot, WriteLoop, AwaitRoom, Publish, Reserve, CopyEnd, Broadcast;
    assert [] + Concat(s.calls) == Concat(s.calls);
  }

  /** The memcpy target shares no slot with bytes that are copied but not released. */
  lemma CopyAvoidsLive(c: Config, s: State, amount: nat, k: nat, j: nat)
    requires 0 < c.ringSize && s.writePos + amount <= s.uptoPos <= Completed(s.threadPos, s.nextPos) + c.ringSize
    requires Slot(s.writePos, c.ringSize) + amount <= c.ringSize
    requires Completed(s.threadPos, s.nextPos) <= k < s.writePos && j < amount
    ensures Slot(k, c.ringSize) != Slot(s.writePos, c.ringSize) + j == Slot(s.writePos + j, c.ringSize)
  {
    hide Slot, Completed;
    SlotForward(s.writePos, j, c.ringSize);
    SlotsDiffer(k, s.writePos + j, c.ringSize);
  }

  lemma CopyKeepsRing(c: Config, s: State, data: seq<byte>)
    requires RingHolds(c, s) && s.writePos + |data| <= s.uptoPos <= Completed(s.threadPos, s.nextPos) + c.ringSize
    requires Slot(s.writePos, c.ringSize) + |data| <= c.ringSize
    ensures RingHolds(c, s.(ring := Overwrite(s.ring, Slot(s.writePos, c.ringSize), data)))
  {
    hide Slot, Completed;
    var offset := Slot(s.writePos, c.ringSize);
    var ring := Overwrite(s.ring, offset, data);
    forall k | Completed(s.threadPos, s.nextPos) <= k < s.writePos
      ensures ring[Slot(k, c.ringSize)] == c.stream[k]
    {
      var slot := Slot(k, c.ringSize);
      if offset <= slot < offset + |data| {
        CopyAvoidsLive(c, s, |data|, k, slot - offset);
      }
      assert ring[slot] == s.ring[slot];
    }
  }

  lemma CopyStarts(c: Config, s: State, junk: seq<byte>)
    requires s.producer.InWrite? && Shape(c, s) && Positions(c, s) && Script(c, s) && RingHolds(c, s)
    requires ProducerEnabled(c, s, junk)
    requires !s.error && s.producer.rest != [] && s.writePos < s.uptoPos
    ensures ProducerLocal(c, s, WriteLoop(c, s, junk))
  {
    hide Slot, Completed;
    CopyKeepsRing(c, s, junk[..CopyAmount(c, s, s.producer.rest)]);
    assert RingHolds(c, WriteLoop(c, s, junk)) by { hide Script, Positions, Concat; }
    hide RingHolds;
  }

  lemma WriteLoopLocal(c: Config, s: State, junk: seq<byte>)
    requires s.producer.InWrite? && Shape(c, s) && Positions(c, s) && Script(c, s) && RingHolds(c, s)
    requires ProducerEnabled(c, s, junk) && 0 < c.ringSize
    ensures ProducerLocal(c, s, WriteLoop(c, s, junk))
  {
    hide Slot, Completed, Overwrite, CopyAmount;
    if !s.error && s.producer.rest != [] && s.writePos < s.uptoPos {
      hide WriteLoop, ProducerLocal, Shape, Positions, Script, RingHolds;
      CopyStarts(c, s, junk);
    } else {
      assert s.producer.rest == [] ==> s.producer.rest + Concat(s.calls) == Concat(s.calls);
    }
  }

  /** The bytes just copied are the next bytes of the stream. */
  lemma CopiedRing(c: Config, s: State)
    requires RingHolds(c, s) && Positions(c, s) && Script(c, s) && s.producer.Copying?
    requires ProducerEnabled(c, s, [])
    ensures RingHolds(c, CopyEnd(c, s))
  {
    hide Slot, Completed, Concat;
    var Copying(rest, amount) := s.producer;
    var t, offset := CopyEnd(c, s), Slot(s.writePos, c.ringSize);
    CopyKeepsRing(c, s, rest[..amount]);
    var low := Completed(s.threadPos, s.nextPos);
    assert t.writePos <= |c.stream| by {
      assert |c.stream[s.writePos..]| == |rest| + |Concat(s.calls)|;
    }
    forall k | low <= k < t.writePos ensures t.ring[Slot(k, c.ringSize)] == c.stream[k] {
      if k >= s.writePos {
        var j := k - s.writePos;
        SlotForward(s.writePos, j, c.ringSize);
        assert t.ring[offset + j] == rest[j] == (rest + Concat(s.calls))[j] == c.stream[s.writePos..][j];
      }
    }
  }

  lemma CopyEndLocal(c: Config, s: State)
    requires s.producer.Copying? && Shape(c, s) && Positions(c, s) && Script(c, s) && RingHolds(c, s)
    requires ProducerEnabled(c, s, [])
    ensures ProducerLocal(c, s, CopyEnd(c, s))
  {
    CopiedRing(c, s);
    hide Slot, Completed, RingHolds, Overwrite, Concat;
    var Copying(rest, amount) := s.producer;
    assert |c.stream[s.writePos..]| == |rest| + |Concat(s.calls)|;
    assert c.stream[s.writePos + amount..] == c.stream[s.writePos..][amount..] == rest[amount..] + Concat(s.calls);
  }

  lemma AwaitRoomLocal(c: Config, s: State, rest: seq<byte>)
    requires Shape(c, s) && Positions(c, s) && Script(c, s) && RingHolds(c, s)
    requires s.producer == AtFull(rest) || (s.producer == Publishing(rest) && s.reservedPos == s.writePos)
    requires 0 < c.ringSize
    ensures ProducerLocal(c, s, AwaitRoom(c, s, rest))
  {
    hide Slot, Completed, Concat;
  }

  lemma FlushedLocal(c: Config, s: State, p: Producer)
    requires Shape(c, s) && Positions(c, s) && Script(c, s) && RingHolds(c, s)
    requires s.reservedPos == s.writePos
    requires (s.producer.Flushing? && p.Between?) || (s.producer.FlushingLast? && p.MarkingClosed?)
    ensures ProducerLocal(c, s, Reserve(c, s).(producer := p))
  {
    hide Slot, Completed, Concat;
  }

  lemma JoinedLocal(c: Config, s: State)
    requires Shape(c, s) && Positions(c, s) && Script(c, s) && RingHolds(c, s) && s.producer.Joining?
    ensures ProducerLocal(c, s, Joined(c, s))
  {
    hide Slot, Completed, Concat;
  }

  lemma PublishCore(c: Config, s: State) returns (t: State)
    requires Shape(c, s) && Positions(c, s) && Script(c, s) && RingHolds(c, s) && |s.workers| == |s.threadPos|
    requires Sleepers(c, s)
    requires s.producer.Publishing? || s.producer.Flushing? || s.producer.FlushingLast?
    ensures Publish(s) == Broadcast(t)
    ensures SameThreads(s, t) && Shape(c, t) && Positions(c, t) && Script(c, t) && RingHolds(c, t)
    ensures forall i | 0 <= i < |t.workers| && t.workers[i].Exited? :: CanExit(t)
  {
    t := s.(endPos := s.writePos, reservedPos := s.writePos);
    hide Slot, Completed, Concat, Broadcast, MustWait, CanClaim;
  }

  /** Handing over data and waking everyone. */
  lemma InvPublish(c: Config, s: State)
    requires c.Valid() && Inv(c, s)
    requires s.producer.Publishing? || s.producer.Flushing? || s.producer.FlushingLast?
    ensures Inv(c, Publish(s))
  {
    hide *;
    InvParts(c, s);
    var t := PublishCore(c, s);
    SameThreadsCore(c, s, t);
    InvBroadcast(c, t);
  }

  lemma CloseCore(c: Config, s: State) returns (t: State)
    requires Shape(c, s) && Positions(c, s) && Script(c, s) && RingHolds(c, s) && |s.workers| == |s.threadPos|
    requires Sleepers(c, s) && s.producer.MarkingClosed?
    ensures Broadcast(s.(closing := true)).(producer := Joining) == Broadcast(t)
    ensures SameThreads(s, t) && Shape(c, t) && Positions(c, t) && Script(c, t) && RingHolds(c, t)
    ensures forall i | 0 <= i < |t.workers| && t.workers[i].Exited? :: CanExit(t)
  {
    t := s.(closing := true, producer := Joining);
    hide Slot, Completed, Concat, MustWait, CanClaim;
  }

  lemma InvMarkClosed(c: Config, s: State)
    requires c.Valid() && Inv(c, s) && s.producer.MarkingClosed?
    ensures Inv(c, Broadcast(s.(closing := true)).(producer := Joining))
  {
    hide *;
    InvParts(c, s);
    var t := CloseCore(c, s);
    SameThreadsCore(c, s, t);
    InvBroadcast(c, t);
  }

  lemma InvLocal(c: Config, s: State, t: State)
    requires c.Valid() && Inv(c, s) && ProducerLocal(c, s, t)
    ensures Inv(c, t)
  {
    hide SameThreads, Shape, Positions, Script, RingHolds, Inv, Config.Valid, Completed;
    InvProducer(c, s, t);
  }

  lemma PublishedPlace(s: State)
    requires s.producer.Publishing? || s.producer.Flushing? || s.producer.FlushingLast?
    ensures Publish(s).producer == s.producer && Publish(s).reservedPos == Publish(s).writePos
  {
  }

  lemma PublishStep(c: Config, s: State, junk: seq<byte>)
    requires ProducerEnabled(c, s, junk) && 0 < c.ringSize
    ensures s.producer.Publishing? ==> ProducerStep(c, s, junk) == AwaitRoom(c, Publish(s), s.producer.rest)
    ensures s.producer.Flushing? ==> ProducerStep(c, s, junk) == Reserve(c, Publish(s)).(producer := Between)
    ensures s.producer.FlushingLast? ==> ProducerStep(c, s, junk) == Reserve(c, Publish(s)).(producer := MarkingClosed)
    ensures s.producer.AtFull? ==> ProducerStep(c, s, junk) == AwaitRoom(c, s, s.producer.rest)
    ensures s.producer.InWrite? ==> |junk| == c.ringSize && ProducerStep(c, s, junk) == WriteLoop(c, s, junk)
    ensures s.producer.Copying? ==> ProducerEnabled(c, s, []) && ProducerStep(c, s, junk) == CopyEnd(c, s)
    ensures s.producer.MarkingClosed? ==>
      ProducerStep(c, s, junk) == Broadcast(s.(closing := true)).(producer := Joining)
    ensures s.producer.Joining? ==> ProducerStep(c, s, junk) == Joined(c, s)
    ensures !s.producer.AsleepFull? && !s.producer.Closed?
  {
    hide AwaitRoom, Publish, Reserve, WriteLoop, CopyEnd, Broadcast, Joined;
  }

  lemma InvProducePublish(c: Config, s: State, junk: seq<byte>)
    requires c.Valid() && Inv(c, s) && ProducerEnabled(c, s, junk) && 0 < c.ringSize
    requires s.producer.Publishing? || s.producer.Flushing? || s.producer.FlushingLast?
    ensures Inv(c, ProducerStep(c, s, junk))
  {
    hide *;
    InvPublish(c, s);
    PublishStep(c, s, junk);
    PublishedPlace(s);
    var u := Publish(s);
    InvParts(c, u);
    if s.producer.Publishing? {
      AwaitRoomLocal(c, u, s.producer.rest);
      InvLocal(c, u, AwaitRoom(c, u, s.producer.rest));
    } else {
      var p := if s.producer.Flushing? then Between else MarkingClosed;
      FlushedLocal(c, u, p);
      InvLocal(c, u, Reserve(c, u).(producer := p));
    }
  }

  lemma InvProduce(c: Config, s: State, junk: seq<byte>)
    requires c.Valid() && Inv(c, s) && ProducerEnabled(c, s, junk) && 0 < c.ringSize
    ensures Inv(c, ProducerStep(c, s, junk))
  {
    hide *;
    InvParts(c, s);
    PublishStep(c, s, junk);
    match s.producer
    case Between =>
      BetweenLocal(c, s, junk);
      InvLocal(c, s, ProducerStep(c, s, junk));
    case InWrite(_) =>
      WriteLoopLocal(c, s, junk);
      InvLocal(c, s, WriteLoop(c, s, junk));
    case Copying(_, _) =>
      CopyEndLocal(c, s);
      InvLocal(c, s, CopyEnd(c, s));
    case AtFull(rest) =>
      AwaitRoomLocal(c, s, rest);
      InvLocal(c, s, AwaitRoom(c, s, rest));
    case MarkingClosed =>
      InvMarkClosed(c, s);
    case Joining =>
      JoinedLocal(c, s);
      InvLocal(c, s, Joined(c, s));
    case _ =>
      InvProducePublish(c, s, junk);
  }

  lemma WorkStep(c: Config, s: State, i: nat, k: nat, ok: bool)
    requires WorkerEnabled(c, s, i, k)
    ensures i < |s.workers| == |s.threadPos|
    ensures s.workers[i].AtTop? || s.workers[i].AtTurn? || s.workers[i].Compressing? || s.workers[i].Writing?
    ensures s.workers[i].AtTop? ==> WorkerStep(c, s, i, k, ok) == TopSection(c, s, i)
    ensures s.workers[i].AtTurn? ==> WorkerStep(c, s, i, k, ok) == TurnSection(c, s, i)
    ensures s.workers[i].Writing? ==> s.workers[i].len < WORD && |s.workers[i].packed| < WORD
  {
    hide TopSection, TurnSection, Slot, Header;
  }

  lemma InvWork(c: Config, s: State, i: nat, k: nat, ok: bool)
    requires c.Valid() && Inv(c, s) && WorkerEnabled(c, s, i, k)
    ensures Inv(c, WorkerStep(c, s, i, k, ok))
  {
    hide *;
    InvParts(c, s);
    WorkStep(c, s, i, k, ok);
    match s.workers[i]
    case AtTop =>
      InvTop(c, s, i);
    case Compressing(_, _) =>
      InvRead(c, s, i, k, ok);
    case AtTurn(_, packed) =>
      if s.writeError || packed == [] {
        InvGiveUp(c, s, i);
      } else {
        InvTurnKept(c, s, i);
      }
    case Writing(len, packed, done) =>
      if done < |Output(len, packed)| {
        InvAppend(c, s, i, k, ok);
      } else {
        InvWritten(c, s, i, k, ok);
      }
  }

  lemma SpuriousWoke(c: Config, s: State, step: Step)
    requires Enabled(c, s, step) && (step.SpuriousProducer? || step.SpuriousWorker?)
    ensures Woke(s, Apply(c, s, step))
  {
    hide ProducerStep, WorkerStep, ProducerEnabled, WorkerEnabled;
  }

  lemma ApplyForm(c: Config, s: State, step: Step)
    requires Enabled(c, s, step)
    ensures step.Produce? ==>
      ProducerEnabled(c, s, step.junk) && 0 < c.ringSize && Apply(c, s, step) == ProducerStep(c, s, step.junk)
    ensures step.Work? ==>
      WorkerEnabled(c, s, step.i, step.k) && Apply(c, s, step) == WorkerStep(c, s, step.i, step.k, step.ok)
  {
    hide ProducerStep, WorkerStep, ProducerEnabled, WorkerEnabled;
  }

  /** Every step of every thread keeps the invariant. */
  lemma InvStep(c: Config, s: State, step: Step)
    requires c.Valid() && Inv(c, s) && Enabled(c, s, step)
    ensures Inv(c, Apply(c, s, step))
  {
    hide *;
    ApplyForm(c, s, step);
    match step
    case Produce(junk) =>
      InvProduce(c, s, junk);
    case Work(i, k, ok) =>
      InvWork(c, s, i, k, ok);
    case _ =>
      SpuriousWoke(c, s, step);
      InvWoke(c, s, Apply(c, s, step));
  }

  // -------------------------------------------------------------- whole runs

  lemma {:induction false} InvReachable(c: Config, states: seq<State>, steps: seq<Step>, n: nat)
    requires c.Valid() && Run(c, states, steps) && n < |states|
    ensures Inv(c, states[n])
  {
    hide Inv, Apply, Enabled, Config.Valid;
    if n == 0 {
      InvInit(c, states[0]);
    } else {
      InvReachable(c, states, steps, n - 1);
      assert Enabled(c, states[n - 1], steps[n - 1]);
      InvStep(c, states[n - 1], steps[n - 1]);
    }
  }
}
