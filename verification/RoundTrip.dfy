/**
 Writer and reader together: what was written is read back, whatever the schedule of the
 compression threads and however the reads are split.
 */
module RoundTrip {
  import opened Options
  import opened BlockFormat
  import opened CompressedReader
  import W = CompressedWriter
  import R = WriterRuns

  /** The stream cut into blocks, all but the last of them full. */
  ghost function Chunks(blockSize: nat, stream: seq<byte>, pos: nat): (blocks: seq<seq<byte>>)
    requires 0 < blockSize && pos <= |stream|
    decreases |stream| - pos
  {
    if pos == |stream| then
      []
    else
      var next := Min(pos + blockSize, |stream|);
      [stream[pos..next]] + Chunks(blockSize, stream, next)
  }

  lemma BlockIsGood(codec: Codec, blockSize: nat, block: seq<byte>)
    requires 0 < |block| <= blockSize < WORD && Faithful(codec, blockSize)
    ensures GoodBlock(codec, block)
  {
    assert 0 < |codec.compress(block)| <= codec.limit;
  }

  lemma ConsBlock(codec: Codec, block: seq<byte>, rest: seq<seq<byte>>)
    requires GoodBlock(codec, block) && GoodBlocks(codec, rest)
    ensures GoodBlocks(codec, [block] + rest)
    ensures Frames(codec, [block] + rest) == Frame(codec, block) + Frames(codec, rest)
    ensures Concat([block] + rest) == block + Concat(rest)
  {
    hide GoodBlock, Frame;
    var blocks := [block] + rest;
    assert blocks[0] == block && blocks[1..] == rest;
    hide GoodBlocks;
  }

  /** The sequential encoding is the frames of those blocks. */
  lemma {:induction false} EncodeIsFrames(codec: Codec, blockSize: nat, stream: seq<byte>, pos: nat)
    requires 0 < blockSize < WORD && Faithful(codec, blockSize) && pos <= |stream|
    ensures var blocks := Chunks(blockSize, stream, pos);
      && GoodBlocks(codec, blocks)
      && Frames(codec, blocks) == EncodeFrom(codec, blockSize, stream, pos)
      && Concat(blocks) == stream[pos..]
    decreases |stream| - pos
  {
    hide Faithful, Frame, GoodBlock;
    if pos < |stream| {
      var next := Min(pos + blockSize, |stream|);
      var block := stream[pos..next];
      EncodeIsFrames(codec, blockSize, stream, next);
      BlockIsGood(codec, blockSize, block);
      hide GoodBlocks, Frames, BlockFormat.Concat;
      ConsBlock(codec, block, Chunks(blockSize, stream, next));
      assert block + stream[next..] == stream[pos..];
    }
  }

  /** Every block but the last is full. */
  lemma {:induction false} ChunksAreFull(blockSize: nat, stream: seq<byte>, pos: nat, i: nat)
    requires 0 < blockSize && pos <= |stream| && i + 1 < |Chunks(blockSize, stream, pos)|
    ensures |Chunks(blockSize, stream, pos)[i]| == blockSize
    decreases i
  {
    if i > 0 {
      ChunksAreFull(blockSize, stream, Min(pos + blockSize, |stream|), i - 1);
    }
  }

  /** A run of the writer that ends without error leaves a well-formed file. */
  lemma WrittenFileIsGood(c: W.Config, states: seq<W.State>, steps: seq<W.Step>) returns (blocks: seq<seq<byte>>)
    requires c.Valid() && R.Finished(c, states, steps) && !R.Last(states).error
    ensures GoodFile(c.codec, R.Last(states).file, blocks) && Concat(blocks) == Concat(c.calls)
    ensures forall i | 0 <= i < |blocks| - 1 :: |blocks[i]| == c.blockSize
  {
    hide Faithful, R.Finished;
    R.CloseTellsTheTruth(c, states, steps);
    blocks := Chunks(c.blockSize, c.stream, 0);
    EncodeIsFrames(c.codec, c.blockSize, c.stream, 0);
    forall i | 0 <= i < |blocks| - 1 ensures |blocks[i]| == c.blockSize {
      ChunksAreFull(c.blockSize, c.stream, 0, i);
    }
    hide Chunks, Frames, EncodeFrom, BlockFormat.Concat, GoodBlocks;
    assert c.stream[0..] == c.stream;
  }

  function Sum(sizes: seq<nat>): nat {
    if sizes == [] then 0 else Sum(sizes[..|sizes| - 1]) + sizes[|sizes| - 1]
  }

  /** After any run of the writer that ends without error, reading the file back in pieces of
      any sizes that fit yields the concatenation of everything written. */
  method ReadBack(c: W.Config, ghost states: seq<W.State>, ghost steps: seq<W.Step>, file: seq<byte>, sizes: seq<nat>)
    returns (data: seq<byte>)
    requires c.Valid() && R.Finished(c, states, steps) && !R.Last(states).error && file == R.Last(states).file
    requires Sum(sizes) <= |Concat(c.calls)|
    ensures data == Concat(c.calls)[..Sum(sizes)]
  {
    hide *;
    ghost var blocks := WrittenFileIsGood(c, states, steps);
    var reader := new Reader(c.codec, file, blocks);
    ReaderStream(reader);
    data := [];
    ghost var stream := Concat(c.calls);
    NoSizes(sizes);
    for i := 0 to |sizes|
      invariant fresh(reader) && reader.Valid() && reader.Good() && !reader.error && reader.Stream() == stream
      invariant Sum(sizes[..i]) <= |stream| && data == stream[..Sum(sizes[..i])]
      invariant reader.Pos() == Sum(sizes[..i])
    {
      SumStep(sizes, i);
      var ok, part := reader.Read(sizes[i]);
      data := data + if sizes[i] == 0 then [] else part;
    }
    assert sizes[..|sizes|] == sizes;
  }

  lemma NoSizes(sizes: seq<nat>)
    ensures Sum(sizes[..0]) == 0
  {
  }

  lemma ReaderStream(reader: Reader)
    ensures reader.Good() <==> GoodFile(reader.codec, reader.file, reader.blocks)
    ensures reader.Stream() == Concat(reader.blocks)
  {
  }

  lemma {:induction false} SumStep(sizes: seq<nat>, i: nat)
    requires i < |sizes|
    ensures Sum(sizes[..i + 1]) == Sum(sizes[..i]) + sizes[i] <= Sum(sizes)
  {
    assert sizes[..i + 1][..i] == sizes[..i];
    if i + 1 < |sizes| {
      SumStep(sizes[..|sizes| - 1], i);
      assert sizes[..|sizes| - 1][..i + 1] == sizes[..i + 1] && sizes[..|sizes| - 1][..i] == sizes[..i];
    } else {
      assert sizes[..i + 1] == sizes;
    }
  }

  // -------------------------------------------------- the reader refines a cursor

  datatype Op = DoRead(size: nat) | DoSkip(size: nat) | DoSave | DoRestore | DoDiscard

  /** A position in the stream and at most one saved position. */
  datatype Cursor = Cursor(pos: nat, saved: Option<nat>)

  /** The operation stays inside the stream and respects the nesting rule for saves. */
  predicate Fits(length: nat, op: Op, c: Cursor) {
    match op
    case DoRead(size) => c.pos + size <= length
    case DoSkip(size) => c.pos + size <= length
    case DoSave => c.saved.None?
    case _ => c.saved.Some?
  }

  function Move(op: Op, c: Cursor): Cursor {
    match op
    case DoRead(size) => c.(pos := c.pos + size)
    case DoSkip(size) => c.(pos := c.pos + size)
    case DoSave => c.(saved := Some(c.pos))
    case DoRestore => if c.saved.Some? then Cursor(c.saved.value, None) else c
    case DoDiscard => c.(saved := None)
  }

  predicate AllFit(length: nat, ops: seq<Op>, c: Cursor) {
    ops == [] || (Fits(length, ops[0], c) && AllFit(length, ops[1..], Move(ops[0], c)))
  }

  /** What a plain cursor over `stream` returns for the reads among `ops`. */
  function Outputs(stream: seq<byte>, ops: seq<Op>, c: Cursor): seq<seq<byte>>
    requires AllFit(|stream|, ops, c)
  {
    if ops == [] then
      []
    else
      (if ops[0].DoRead? then [stream[c.pos..c.pos + ops[0].size]] else [])
      + Outputs(stream, ops[1..], Move(ops[0], c))
  }

  ghost predicate Stands(reader: Reader, c: Cursor, length: nat)
    reads reader
  {
    && reader.Valid() && reader.Good() && !reader.error
    && reader.Pos() == c.pos <= length == |reader.Stream()|
    && (reader.haveSavedState <==> c.saved.Some?)
    && (c.saved.Some? ==> reader.SavedPos() == c.saved.value <= length)
  }

  /** One operation on the reader is one move of the cursor. */
  method Perform(reader: Reader, op: Op, ghost c: Cursor) returns (out: seq<seq<byte>>)
    requires Stands(reader, c, |reader.Stream()|) && Fits(|reader.Stream()|, op, c)
    modifies reader
    ensures Stands(reader, Move(op, c), |reader.Stream()|)
    ensures out == if op.DoRead? then [reader.Stream()[c.pos..c.pos + op.size]] else []
  {
    out := [];
    hide Reader.Valid, Reader.Pos, Reader.Stream, Reader.Good;
    match op {
      case DoRead(size) =>
        var ok, data := reader.Read(size);
        out := [if size == 0 then [] else data];
        assert size == 0 ==> reader.Stream()[c.pos..c.pos + size] == [];
      case DoSkip(size) => reader.Skip(size);
      case DoSave => reader.SaveState();
      case DoRestore => reader.RestoreState();
      case DoDiscard => reader.DiscardState();
    }
  }

  /** Any session of reads, skips, saves, restores and discards that stays inside the stream
      returns what a plain cursor over the uncompressed stream returns. */
  method Session(reader: Reader, ops: seq<Op>, ghost c: Cursor) returns (outs: seq<seq<byte>>)
    requires Stands(reader, c, |reader.Stream()|) && AllFit(|reader.Stream()|, ops, c)
    modifies reader
    ensures outs == Outputs(reader.Stream(), ops, c)
    ensures reader.Valid() && !reader.error
    decreases ops
  {
    outs := [];
    if ops != [] {
      var first := Perform(reader, ops[0], c);
      var rest := Session(reader, ops[1..], Move(ops[0], c));
      outs := first + rest;
    }
  }

  /** A reader whose end of stream is hidden: read a first block, save the position, skip the
      second block, look at the end, and discard the saved position or not. */
  method HideEnd(codec: Codec, first: seq<byte>, second: seq<byte>, file: seq<byte>, discard: bool)
    returns (reader: Reader)
    requires GoodBlocks(codec, [first, second]) && file == Frames(codec, [first, second])
    ensures fresh(reader) && reader.Valid() && reader.Good() && !reader.error && reader.blocks == [first, second]
    ensures reader.Pos() == |reader.Stream()| && reader.LosesBuffer() && reader.haveSavedState == !discard
  {
    reader := new Reader(codec, file, [first, second]);
    ghost var blocks := [first, second];
    TwoBlocks(codec, first, second);
    hide Frames, Start, Offset, BlockFormat.Concat, GoodBlocks;
    var ok, data := reader.Read(|first|);
    assert reader.next == 1 && reader.readPos >= |reader.buffer| by {
      assert Buffered(blocks, reader.next, reader.buffer, reader.readPos);
    }
    reader.SaveState();
    reader.Skip(|second|);
    assert reader.Pos() == |reader.Stream()| && reader.LosesBuffer();
    var _ := reader.AtEnd();
    if discard {
      reader.DiscardState();
    }
  }

  /** The end that at_end() misses: the cursor is at the end and the answer is no, whether the
      saved position is still there or not. */
  method HiddenEnd(codec: Codec, first: seq<byte>, second: seq<byte>, file: seq<byte>, discard: bool)
    returns (atEnd: bool, ghost pos: int, ghost saved: bool)
    requires GoodBlocks(codec, [first, second]) && file == Frames(codec, [first, second])
    ensures !atEnd && pos == |Concat([first, second])| && saved == !discard
  {
    hide *;
    var reader := HideEnd(codec, first, second, file, discard);
    ReaderStream(reader);
    HiddenNow(reader);
    pos, saved := reader.Pos(), reader.haveSavedState;
    atEnd := reader.AtEnd();
  }

  /** In the same state get_buffer() returns a negative size for a cursor at the end. */
  method HiddenBuffer(codec: Codec, first: seq<byte>, second: seq<byte>, file: seq<byte>, discard: bool)
    returns (ok: bool, size: int, ghost pos: int)
    requires GoodBlocks(codec, [first, second]) && file == Frames(codec, [first, second])
    ensures ok && size < 0 && pos == |Concat([first, second])|
  {
    hide *;
    var reader := HideEnd(codec, first, second, file, discard);
    ReaderStream(reader);
    HiddenNow(reader);
    pos := reader.Pos();
    var data;
    ok, data, size := reader.GetBuffer();
  }

  /** On an empty file, where every cursor is at the end, rewind() makes both answers wrong. */
  method RewoundEmpty(codec: Codec) returns (atEnd: bool, ok: bool)
    ensures !atEnd && !ok
  {
    var reader := new Reader(codec, [], []);
    assert reader.Good() && reader.Stream() == [];
    reader.Rewind();
    hide Reader.Valid, Reader.Pos;
    atEnd := reader.AtEnd();
    reader.Rewind();
    var data, size;
    ok, data, size := reader.GetBuffer();
  }

  lemma HiddenNow(reader: Reader)
    requires reader.LosesBuffer()
    ensures reader.EndHidden()
  {
  }

  lemma TwoBlocks(codec: Codec, first: seq<byte>, second: seq<byte>)
    requires GoodBlocks(codec, [first, second])
    ensures 0 < |first| && 0 < |second|
    ensures var blocks := [first, second];
      Start(blocks, 0) == 0 && Start(blocks, 1) == |first| && Start(blocks, 2) == |first| + |second| == |Concat(blocks)|
  {
    var blocks := [first, second];
    assert GoodBlock(codec, blocks[0]) && GoodBlock(codec, blocks[1]);
    BlockAt(blocks, 0);
    BlockAt(blocks, 1);
    StartEnd(blocks);
  }
}
