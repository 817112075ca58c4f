/**
 The block reader: it refines a plain cursor over the uncompressed stream, with lazy
 skips that pass over whole blocks without decompressing them and one saved position.
 */
module CompressedReader {
  import opened Options
  import opened BlockFormat

  // ------------------------------------------------------------- well-formed files

  ghost predicate GoodBlock(codec: Codec, block: seq<byte>) {
    && 0 < |block| < WORD
    && |codec.compress(block)| < WORD
    && codec.decompress(codec.compress(block), |block|) == Some(block)
  }

  ghost predicate GoodBlocks(codec: Codec, blocks: seq<seq<byte>>) {
    forall i | 0 <= i < |blocks| :: GoodBlock(codec, blocks[i])
  }

  ghost function Frames(codec: Codec, blocks: seq<seq<byte>>): seq<byte>
    requires GoodBlocks(codec, blocks)
  {
    if blocks == [] then [] else Frame(codec, blocks[0]) + Frames(codec, blocks[1..])
  }

  lemma {:induction false} FramesSplit(codec: Codec, left: seq<seq<byte>>, right: seq<seq<byte>>)
    requires GoodBlocks(codec, left) && GoodBlocks(codec, right)
    ensures GoodBlocks(codec, left + right)
    ensures Frames(codec, left + right) == Frames(codec, left) + Frames(codec, right)
  {
    if left == [] {
      assert left + right == right;
    } else {
      FramesSplit(codec, left[1..], right);
      assert (left + right)[1..] == left[1..] + right;
      hide Frame;
    }
  }

  lemma {:induction false} ConcatSplit(left: seq<seq<byte>>, right: seq<seq<byte>>)
    ensures Concat(left + right) == Concat(left) + Concat(right)
  {
    if left == [] {
      assert left + right == right && Concat(left) == [];
    } else {
      ConcatSplit(left[1..], right);
      assert (left + right)[1..] == left[1..] + right;
      var first, rest, last := left[0], Concat(left[1..]), Concat(right);
      assert Concat(left) == first + rest && Concat(left + right) == first + Concat(left[1..] + right);
      hide BlockFormat.Concat;
      assert first + (rest + last) == first + rest + last;
    }
  }

  /** File offset of block `k`. */
  ghost function Offset(codec: Codec, blocks: seq<seq<byte>>, k: nat): nat
    requires GoodBlocks(codec, blocks) && k <= |blocks|
  {
    |Frames(codec, blocks[..k])|
  }

  /** Stream position of block `k`. */
  ghost function Start(blocks: seq<seq<byte>>, k: nat): nat
    requires k <= |blocks|
  {
    |Concat(blocks[..k])|
  }

  lemma OneFrame(codec: Codec, block: seq<byte>)
    requires GoodBlock(codec, block)
    ensures Frames(codec, [block]) == Header(|codec.compress(block)|, |block|) + codec.compress(block)
  {
    assert [block][1..] == [];
    hide Header;
  }

  lemma FramesAround(codec: Codec, blocks: seq<seq<byte>>, k: nat)
    requires GoodBlocks(codec, blocks) && k < |blocks|
    ensures |blocks[k]| < WORD && |codec.compress(blocks[k])| < WORD
    ensures GoodBlocks(codec, blocks[..k]) && GoodBlocks(codec, blocks[..k + 1]) && GoodBlocks(codec, blocks[k + 1..])
    ensures var here := Header(|codec.compress(blocks[k])|, |blocks[k]|) + codec.compress(blocks[k]);
      && Frames(codec, blocks[..k + 1]) == Frames(codec, blocks[..k]) + here
      && Frames(codec, blocks) == (Frames(codec, blocks[..k]) + here) + Frames(codec, blocks[k + 1..])
  {
    hide Frames, Header, Frame;
    assert GoodBlock(codec, blocks[k]);
    OneFrame(codec, blocks[k]);
    FramesSplit(codec, blocks[..k], [blocks[k]]);
    FramesSplit(codec, blocks[..k + 1], blocks[k + 1..]);
    assert blocks[..k] + [blocks[k]] == blocks[..k + 1];
    assert blocks[..k + 1] + blocks[k + 1..] == blocks;
  }

  lemma FrameAt(codec: Codec, blocks: seq<seq<byte>>, k: nat)
    requires GoodBlocks(codec, blocks) && k < |blocks|
    ensures var offset := Offset(codec, blocks, k);
      && Offset(codec, blocks, k + 1) == offset + HEADER_SIZE + |codec.compress(blocks[k])| <= |Frames(codec, blocks)|
      && Frames(codec, blocks)[offset..offset + HEADER_SIZE] == Header(|codec.compress(blocks[k])|, |blocks[k]|)
      && Frames(codec, blocks)[offset + HEADER_SIZE..Offset(codec, blocks, k + 1)] == codec.compress(blocks[k])
  {
    hide *;
    FramesAround(codec, blocks, k);
    OffsetIs(codec, blocks, k);
    OffsetIs(codec, blocks, k + 1);
    var h, z := Header(|codec.compress(blocks[k])|, |blocks[k]|), codec.compress(blocks[k]);
    Middle(Frames(codec, blocks[..k]), h, z, Frames(codec, blocks[k + 1..]));
  }

  lemma Join(stream: seq<byte>, from: int, n: nat, m: nat)
    requires 0 <= from <= from + n + m <= |stream|
    ensures stream[from..from + n] + stream[from + n..from + n + m] == stream[from..from + n + m]
  {
  }

  lemma OffsetIs(codec: Codec, blocks: seq<seq<byte>>, k: nat)
    requires GoodBlocks(codec, blocks) && k <= |blocks|
    ensures GoodBlocks(codec, blocks[..k]) && Offset(codec, blocks, k) == |Frames(codec, blocks[..k])|
  {
  }

  lemma Middle(before: seq<byte>, h: seq<byte>, z: seq<byte>, after: seq<byte>)
    ensures var whole := (before + (h + z)) + after;
      && whole[|before|..|before| + |h|] == h
      && whole[|before| + |h|..|before| + |h| + |z|] == z
  {
  }

  lemma OffsetEnd(codec: Codec, blocks: seq<seq<byte>>)
    requires GoodBlocks(codec, blocks)
    ensures Offset(codec, blocks, |blocks|) == |Frames(codec, blocks)|
    ensures Offset(codec, blocks, 0) == 0
  {
    assert blocks[..|blocks|] == blocks;
  }

  lemma BlockAt(blocks: seq<seq<byte>>, k: nat)
    requires k < |blocks|
    ensures Start(blocks, k + 1) == Start(blocks, k) + |blocks[k]| <= |Concat(blocks)|
    ensures Concat(blocks)[Start(blocks, k)..Start(blocks, k + 1)] == blocks[k]
  {
    assert Concat([blocks[k]]) == blocks[k] by { assert [blocks[k]][1..] == []; }
    ConcatSplit(blocks[..k], [blocks[k]]);
    assert blocks[..k] + [blocks[k]] == blocks[..k + 1];
    ConcatSplit(blocks[..k + 1], blocks[k + 1..]);
    assert blocks[..k + 1] + blocks[k + 1..] == blocks;
  }

  lemma StartEnd(blocks: seq<seq<byte>>)
    ensures Start(blocks, |blocks|) == |Concat(blocks)| && Start(blocks, 0) == 0
  {
    assert blocks[..|blocks|] == blocks;
  }

  // ---------------------------------------------------------------- cursor state

  function Unread(buffer: seq<byte>, readPos: nat): nat {
    if readPos < |buffer| then |buffer| - readPos else 0
  }

  /** The buffer holds the block before `next`, or is used up. */
  ghost predicate Buffered(blocks: seq<seq<byte>>, next: nat, buffer: seq<byte>, readPos: nat) {
    next <= |blocks| && (readPos < |buffer| ==> next > 0 && buffer == blocks[next - 1])
  }

  ghost function Position(blocks: seq<seq<byte>>, next: nat, buffer: seq<byte>, readPos: nat): int
    requires next <= |blocks|
  {
    Start(blocks, next) - Unread(buffer, readPos)
  }

  lemma SliceOfSlice(stream: seq<byte>, start: nat, size: nat, from: nat, n: nat)
    requires start + size <= |stream| && from + n <= size
    ensures stream[start..start + size][from..from + n] == stream[start + from..start + from + n]
  {
    var whole, part := stream[start..start + size], stream[start + from..start + from + n];
    assert forall k | 0 <= k < n :: whole[from..from + n][k] == whole[from + k] == stream[start + from + k] == part[k];
  }

  /** Reading on inside the buffer yields the bytes of the stream at the cursor. */
  lemma BufferedBytes(blocks: seq<seq<byte>>, next: nat, buffer: seq<byte>, readPos: nat, amount: nat)
    requires Buffered(blocks, next, buffer, readPos) && amount <= Unread(buffer, readPos) && 0 < amount
    ensures var pos := Position(blocks, next, buffer, readPos);
      && 0 <= pos <= pos + amount <= |Concat(blocks)|
      && Concat(blocks)[pos..pos + amount] == buffer[readPos..readPos + amount]
  {
    BlockAt(blocks, next - 1);
    hide Concat;
    var pos, start := Position(blocks, next, buffer, readPos), Start(blocks, next - 1);
    hide Start;
    assert pos == start + readPos;
    SliceOfSlice(Concat(blocks), start, |buffer|, readPos, amount);
  }

  lemma {:induction false} PositionBounds(blocks: seq<seq<byte>>, next: nat, buffer: seq<byte>, readPos: nat)
    requires Buffered(blocks, next, buffer, readPos)
    ensures 0 <= Position(blocks, next, buffer, readPos) <= Start(blocks, next) <= |Concat(blocks)|
  {
    if readPos < |buffer| {
      BlockAt(blocks, next - 1);
    } else if next > 0 {
      BlockAt(blocks, next - 1);
    }
  }

  lemma {:induction false} StartGrows(codec: Codec, blocks: seq<seq<byte>>, i: nat, j: nat)
    requires GoodBlocks(codec, blocks) && i <= j <= |blocks|
    ensures Start(blocks, i) + (j - i) <= Start(blocks, j) <= |Concat(blocks)|
    ensures Offset(codec, blocks, i) + (j - i) <= Offset(codec, blocks, j)
  {
    hide Concat, Frames, Header;
    if i < j {
      StartGrows(codec, blocks, i, j - 1);
      BlockAt(blocks, j - 1);
      FrameAt(codec, blocks, j - 1);
      assert GoodBlock(codec, blocks[j - 1]);
    } else {
      if i > 0 { BlockAt(blocks, i - 1); } else { StartEnd(blocks); }
    }
  }

  /** Block `next` follows at `fdOffset`, and the buffer holds the block before it or is used up. */
  ghost predicate At(codec: Codec, blocks: seq<seq<byte>>, next: nat, fdOffset: nat, buffer: seq<byte>, readPos: nat)
    requires GoodBlocks(codec, blocks)
  {
    Buffered(blocks, next, buffer, readPos) && fdOffset == Offset(codec, blocks, next)
  }

  /** The end-of-file flag; on an empty file rewind() leaves it off. */
  ghost predicate EofOk(blocks: seq<seq<byte>>, next: nat, eof: bool) {
    (eof ==> next == |blocks|) && (next == |blocks| && blocks != [] ==> eof)
  }

  ghost predicate GoodFile(codec: Codec, file: seq<byte>, blocks: seq<seq<byte>>) {
    GoodBlocks(codec, blocks) && file == Frames(codec, blocks)
  }

  /** read_all and the one-byte probe: the whole range lies in the file. */
  predicate CanRead(file: seq<byte>, offset: nat, size: nat) { size == 0 || offset + size <= |file| }

  function Slice(file: seq<byte>, offset: nat, size: nat): seq<byte>
    requires CanRead(file, offset, size)
  {
    if size == 0 then [] else file[offset..offset + size]
  }

  function CompressedLength(file: seq<byte>, offset: nat): nat
    requires offset + HEADER_SIZE <= |file|
  {
    WordValue(file[offset..offset + 4])
  }

  function UncompressedLength(file: seq<byte>, offset: nat): nat
    requires offset + HEADER_SIZE <= |file|
  {
    WordValue(file[offset + 4..offset + 8])
  }

  /** do_decompress: the decoder must produce exactly the announced size. */
  function Decompress(codec: Codec, compressed: seq<byte>, size: nat): (r: Option<seq<byte>>)
    ensures r.Some? ==> |r.value| == size
  {
    var r := codec.decompress(compressed, size);
    if r.Some? && |r.value| == size then r else None
  }

  lemma HeaderReads(file: seq<byte>, offset: nat, c: nat, u: nat)
    requires c < WORD && u < WORD && offset + HEADER_SIZE <= |file|
    requires file[offset..offset + HEADER_SIZE] == Header(c, u)
    ensures CompressedLength(file, offset) == c && UncompressedLength(file, offset) == u
  {
    WordRoundTrip(c);
    WordRoundTrip(u);
    hide Word, WordValue;
    var h := file[offset..offset + HEADER_SIZE];
    assert file[offset..offset + 4] == h[..4] == Word(c);
    assert file[offset + 4..offset + 8] == h[4..] == Word(u);
  }

  /** At a block the header and the data read back; past the last block nothing can be read. */
  lemma BlockHere(codec: Codec, file: seq<byte>, blocks: seq<seq<byte>>, k: nat)
    requires GoodFile(codec, file, blocks) && k <= |blocks|
    ensures var offset := Offset(codec, blocks, k);
      if k == |blocks| then
        offset == |file|
      else
        && offset + HEADER_SIZE <= |file|
        && var c, u := CompressedLength(file, offset), UncompressedLength(file, offset);
           && c == |codec.compress(blocks[k])| && u == |blocks[k]| > 0
           && Offset(codec, blocks, k + 1) == offset + HEADER_SIZE + c <= |file|
           && (CanRead(file, offset + HEADER_SIZE + c, 1) <==> k + 1 < |blocks|)
           && Decompress(codec, Slice(file, offset + HEADER_SIZE, c), u) == Some(blocks[k])
           && Start(blocks, k + 1) == Start(blocks, k) + u
  {
    hide Offset, Frames, Start, CompressedLength, UncompressedLength, Header, BlockFormat.Concat, Word;
    OffsetEnd(codec, blocks);
    if k < |blocks| {
      FrameAt(codec, blocks, k);
      BlockAt(blocks, k);
      StartGrows(codec, blocks, k + 1, |blocks|);
      assert GoodBlock(codec, blocks[k]);
      hide Offset, Frames, GoodBlocks, Start, CompressedLength, UncompressedLength, Header, BlockFormat.Concat, Word;
      HeaderReads(file, Offset(codec, blocks, k), |codec.compress(blocks[k])|, |blocks[k]|);
    }
  }

  class Reader {
    const codec: Codec
    const file: seq<byte>
    ghost const blocks: seq<seq<byte>>

    var fdOffset: nat
    var error: bool
    var eof: bool
    var buffer: seq<byte>
    var readPos: nat
    var skipBytes: nat
    var haveSavedState: bool
    var haveSavedBuffer: bool
    var savedFdOffset: nat
    var savedBuffer: seq<byte>
    var savedReadPos: nat

    /** How many blocks lie before `fdOffset`, now and at the saved position. */
    ghost var next: nat
    ghost var savedNext: nat

    ghost predicate Good() { GoodFile(codec, file, blocks) }

    ghost function Stream(): seq<byte> { Concat(blocks) }

    /** The buffer the saved position refers to. */
    ghost function SavedView(): seq<byte>
      reads this
    {
      if haveSavedBuffer then savedBuffer else buffer
    }

    ghost predicate Current()
      reads this
      requires Good()
    {
      && next <= |blocks|
      && (!error ==> At(codec, blocks, next, fdOffset, buffer, readPos) && EofOk(blocks, next, eof))
    }

    ghost predicate Saved()
      reads this
      requires Good()
    {
      haveSavedState ==>
        && savedNext <= next
        && (!error ==> At(codec, blocks, savedNext, savedFdOffset, SavedView(), savedReadPos))
        && (!haveSavedBuffer ==> next == savedNext)
    }

    /** On a malformed file nothing is promised but that every call returns. */
    ghost predicate Valid()
      reads this
    {
      && (!(haveSavedState && haveSavedBuffer) ==> savedBuffer == [])
      && (Good() ==> Current() && Saved())
    }

    /** Where the next byte comes from, pending skips included. */
    ghost function Pos(): int
      requires Good() && Valid()
      reads this
    {
      Position(blocks, next, buffer, readPos) + skipBytes
    }

    ghost function SavedPos(): int
      requires Good() && Valid() && haveSavedState
      reads this
    {
      Position(blocks, savedNext, SavedView(), savedReadPos)
    }

    constructor (codec: Codec, file: seq<byte>, ghost blocks: seq<seq<byte>>)
      ensures Valid() && !error && !haveSavedState
      ensures this.codec == codec && this.file == file && this.blocks == blocks
      ensures Good() ==> Pos() == 0 && (eof <==> blocks == [])
    {
      this.codec, this.file, this.blocks := codec, file, blocks;
      fdOffset, error, eof := 0, false, |file| == 0;
      buffer, readPos, skipBytes := [], 0, 0;
      haveSavedState, haveSavedBuffer, savedFdOffset, savedBuffer, savedReadPos := false, false, 0, [], 0;
      next, savedNext := 0, 0;
      new;
      if Good() {
        OffsetEnd(codec, blocks);
        StartEnd(blocks);
        StartGrows(codec, blocks, 0, |blocks|);
      }
    }

    /** The saved position is where it was. */
    twostate predicate KeepsSaved()
      reads this
    {
      && haveSavedState == old(haveSavedState)
      && (haveSavedState ==>
            && savedFdOffset == old(savedFdOffset) && savedReadPos == old(savedReadPos)
            && savedNext == old(savedNext) && SavedView() == old(SavedView()))
    }

    /** The buffer the saved position refers to is put aside before it is overwritten. */
    method PutAsideBuffer()
      requires Valid() && !error && readPos >= |buffer|
      modifies this`buffer, this`savedBuffer, this`haveSavedBuffer
      ensures Valid() && KeepsSaved() && readPos >= |buffer|
      ensures haveSavedState ==> haveSavedBuffer
      ensures buffer == if old(haveSavedState && !haveSavedBuffer) then [] else old(buffer)
      ensures Good() ==> Pos() == old(Pos())
    {
      if haveSavedState && !haveSavedBuffer {
        buffer, savedBuffer := savedBuffer, buffer;
        haveSavedBuffer := true;
      }
    }

    /** Step over a block without decompressing it. */
    method PassOver(compressedLength: nat, uncompressedLength: nat) returns (more: bool)
      requires Valid() && !error && readPos >= |buffer| && (haveSavedState ==> haveSavedBuffer)
      requires CanRead(file, fdOffset, HEADER_SIZE)
      requires compressedLength == CompressedLength(file, fdOffset)
      requires uncompressedLength == UncompressedLength(file, fdOffset) <= skipBytes
      modifies this`fdOffset, this`skipBytes, this`next, this`eof
      ensures Valid() && fdOffset == old(fdOffset) + HEADER_SIZE + compressedLength
      ensures skipBytes == old(skipBytes) - uncompressedLength
      ensures Good() ==>
        old(next) < |blocks| && next == old(next) + 1 && Pos() == old(Pos()) && (more <==> next < |blocks|)
    {
      if Good() { BlockHere(codec, file, blocks, next); }
      hide BlockFormat.Concat, Offset, Start, Frames, GoodBlocks, CompressedLength, UncompressedLength, Decompress;
      fdOffset := fdOffset + HEADER_SIZE + compressedLength;
      skipBytes := skipBytes - uncompressedLength;
      more := CanRead(file, fdOffset, 1);
      if !more {
        eof := true;
      }
      if Good() { next := next + 1; }
    }

    /** The state after a block was decompressed is a valid cursor at its start. */
    twostate lemma Loaded(k: nat)
      requires old(Valid()) && Good() && !old(error) && old(readPos >= |buffer|) && old(next) == k < |blocks|
      requires buffer == blocks[k] && readPos == 0 && next == k + 1
      requires fdOffset == Offset(codec, blocks, k + 1) && EofOk(blocks, k + 1, eof) && !error
      requires Start(blocks, k + 1) == Start(blocks, k) + |blocks[k]|
      requires skipBytes == old(skipBytes) && haveSavedState == old(haveSavedState)
      requires haveSavedState ==> haveSavedBuffer && old(haveSavedBuffer)
      requires savedBuffer == old(savedBuffer) && savedFdOffset == old(savedFdOffset)
      requires savedReadPos == old(savedReadPos) && savedNext == old(savedNext)
      ensures Valid() && Pos() == old(Pos())
    {
      hide BlockFormat.Concat, Offset, Start, Frames, GoodBlocks;
    }

    /** Read the data of a block whose header was just read. */
    method Fetch(compressedLength: nat, uncompressedLength: nat) returns (data: Option<seq<byte>>)
      modifies this`fdOffset, this`eof
      ensures data.Some? <==>
        && CanRead(file, old(fdOffset), compressedLength)
        && Decompress(codec, Slice(file, old(fdOffset), compressedLength), uncompressedLength).Some?
      ensures data.Some? ==>
        && fdOffset == old(fdOffset) + compressedLength
        && data == Decompress(codec, Slice(file, old(fdOffset), compressedLength), uncompressedLength)
        && eof == (old(eof) || !CanRead(file, fdOffset, 1))
      ensures fdOffset >= old(fdOffset)
    {
      if !CanRead(file, fdOffset, compressedLength) {
        return None;
      }
      var compressed := Slice(file, fdOffset, compressedLength);
      fdOffset := fdOffset + compressedLength;
      if !CanRead(file, fdOffset, 1) {
        eof := true;
      }
      data := Decompress(codec, compressed, uncompressedLength);
    }

    /** Read and decompress a block into the buffer. */
    method Load(compressedLength: nat, uncompressedLength: nat) returns (ok: bool)
      requires Valid() && !error && readPos >= |buffer| && (haveSavedState ==> haveSavedBuffer)
      requires CanRead(file, fdOffset, HEADER_SIZE)
      requires compressedLength == CompressedLength(file, fdOffset)
      requires uncompressedLength == UncompressedLength(file, fdOffset)
      modifies this`fdOffset, this`eof, this`error, this`buffer, this`readPos, this`next
      ensures Valid() && fdOffset >= old(fdOffset) + HEADER_SIZE
      ensures ok <==> !error
      ensures ok ==> readPos == 0 && |buffer| == uncompressedLength && fdOffset <= |file|
      ensures Good() ==> ok && 0 < |buffer| && Pos() == old(Pos())
    {
      hide Slice, CompressedLength, UncompressedLength, Decompress, Start, Saved, Pos;
      if Good() { BlockHere(codec, file, blocks, next); }
      assert Good() ==> fdOffset == Offset(codec, blocks, next) && next < |blocks|;
      hide Offset, Start, GoodFile, CompressedLength, UncompressedLength, Decompress, Position, Current, Saved, Pos, At;
      fdOffset := fdOffset + HEADER_SIZE;
      readPos := 0;
      var data := Fetch(compressedLength, uncompressedLength);
      ok := data.Some?;
      if ok {
        buffer := data.value;
        if Good() { next := next + 1; Loaded(old(next)); }
      } else {
        buffer, error := [], true;
      }
    }

    /** A header can be read exactly when there is another block. */
    lemma HeaderThere()
      requires Valid() && Good() && !error
      ensures next <= |blocks| && (CanRead(file, fdOffset, HEADER_SIZE) <==> next < |blocks|)
    {
      BlockHere(codec, file, blocks, next);
      hide Offset, Start, GoodFile, CompressedLength, UncompressedLength, Decompress, Position, Saved, Slice;
    }

    method Fail()
      requires Valid()
      modifies this`error
      ensures Valid() && error
    {
      error := true;
    }

    /** Pass over the blocks that the pending skip covers, up to the end of the file. */
    method PassOverAll() returns (more: bool)
      requires Valid() && !error && readPos >= |buffer| && (haveSavedState ==> haveSavedBuffer)
      modifies this`fdOffset, this`skipBytes, this`next, this`eof
      ensures Valid() && fdOffset >= old(fdOffset) && skipBytes <= old(skipBytes)
      ensures more && CanRead(file, fdOffset, HEADER_SIZE) ==> skipBytes < UncompressedLength(file, fdOffset)
      ensures Good() ==> old(next) <= next && Pos() == old(Pos())
      ensures Good() ==> if more then next == |blocks| ==> old(next) == |blocks| else old(next) < next == |blocks|
    {
      hide Valid, Pos, Current, Saved, Good, CompressedLength, UncompressedLength;
      while CanRead(file, fdOffset, HEADER_SIZE) && skipBytes >= UncompressedLength(file, fdOffset)
        invariant Valid() && fdOffset >= old(fdOffset) && skipBytes <= old(skipBytes)
        invariant Good() ==> old(next) <= next && Pos() == old(Pos())
        invariant Good() && next == |blocks| ==> old(next) == |blocks|
        decreases |file| - fdOffset
      {
        more := PassOver(CompressedLength(file, fdOffset), UncompressedLength(file, fdOffset));
        if !more {
          return;
        }
      }
      more := true;
    }

    /** refill_buffer. With `skipping` it passes over blocks that the pending skip covers. */
    method Refill(skipping: bool) returns (ok: bool)
      requires Valid() && !error && readPos >= |buffer|
      modifies this
      ensures Valid() && KeepsSaved() && fdOffset >= old(fdOffset) && (haveSavedState ==> haveSavedBuffer)
      ensures ok ==> !error && readPos == 0 && old(fdOffset) < fdOffset <= |file| && (skipping ==> skipBytes < |buffer|)
      ensures !error && !ok ==> readPos >= |buffer|
      ensures skipBytes <= old(skipBytes) && (!skipping ==> skipBytes == old(skipBytes) && (ok <==> !error))
      ensures Good() ==> (error <==> old(next) == |blocks|)
      ensures Good() && ok ==> 0 < |buffer|
      ensures Good() && !error ==> Pos() == old(Pos()) && (!ok ==> next == |blocks|)
      ensures Good() && !error && !ok ==>
        && readPos == old(readPos)
        && buffer == if old(haveSavedState && !haveSavedBuffer) then [] else old(buffer)
    {
      hide Valid, Pos, Current, Saved, Good, CompressedLength, UncompressedLength;
      PutAsideBuffer();
      if skipping {
        var more := PassOverAll();
        if !more {
          return false;
        }
      }
      if Good() { HeaderThere(); }
      if !CanRead(file, fdOffset, HEADER_SIZE) {
        Fail();
        return false;
      }
      ok := Load(CompressedLength(file, fdOffset), UncompressedLength(file, fdOffset));
    }

    /** Move on inside the buffer. */
    method Consume(amount: nat)
      requires Valid() && !error && 0 < amount <= Unread(buffer, readPos)
      modifies this`readPos
      ensures Valid() && KeepsSaved() && readPos == old(readPos) + amount
      ensures Good() ==> Pos() == old(Pos()) + amount
    {
      readPos := readPos + amount;
      hide Offset, Start, Frames, GoodBlocks;
    }

    method SkipWithin(amount: nat)
      requires Valid() && !error && 0 < amount <= Unread(buffer, readPos) && amount <= skipBytes
      modifies this`readPos, this`skipBytes
      ensures Valid() && KeepsSaved() && skipBytes == old(skipBytes) - amount && readPos == old(readPos) + amount
      ensures Good() ==> Pos() == old(Pos())
    {
      Consume(amount);
      skipBytes := skipBytes - amount;
      hide Offset, Start, Frames, GoodBlocks, At;
    }

    lemma PosInStream()
      requires Valid() && Good() && !error
      ensures 0 <= Pos() - skipBytes <= |Stream()|
      ensures next == |blocks| && readPos >= |buffer| ==> Pos() == |Stream()| + skipBytes
      ensures next < |blocks| && readPos >= |buffer| ==> Pos() < |Stream()| + skipBytes
      ensures readPos < |buffer| ==>
        Pos() < |Stream()| + skipBytes && Pos() + Unread(buffer, readPos) - skipBytes <= |Stream()|
      ensures EofOk(blocks, next, eof) && (blocks == [] ==> Stream() == [] && Pos() == skipBytes)
    {
      PositionBounds(blocks, next, buffer, readPos);
      StartEnd(blocks);
      StartGrows(codec, blocks, next, |blocks|);
      hide Frames, BlockFormat.Concat, Start, Offset;
    }

    /** The read position points past the end of the buffer, or will once the pending skip is
        carried out to the end of the stream. */
    predicate LosesBuffer()
      reads this
    {
      || readPos > |buffer|
      || (haveSavedState && !haveSavedBuffer && buffer != [] && skipBytes > Unread(buffer, readPos))
    }

    /** process_skip: a skip that stays inside the stream is carried out completely. */
    method ProcessSkip()
      requires Valid()
      modifies this
      ensures Valid() && KeepsSaved() && (old(error) ==> error)
      ensures Good() && !error ==> Pos() == old(Pos())
      ensures Good() && !old(error) && old(Pos()) <= |Stream()| ==> !error && skipBytes == 0
      ensures Good() && !error && skipBytes > 0 ==> readPos >= |buffer| && next == |blocks|
      ensures old(skipBytes) == 0 ==> unchanged(this)
      ensures Good() && !error && old(Pos()) == |Stream()| ==> LosesBuffer() == old(LosesBuffer())
    {
      hide Valid, Pos, Stream, Good, Current, Saved;
      while skipBytes > 0 && !error
        invariant Valid() && KeepsSaved() && (old(error) ==> error)
        invariant Good() && !error ==> Pos() == old(Pos())
        invariant Good() && !old(error) && old(Pos()) <= |Stream()| ==> !error
        invariant old(skipBytes) == 0 ==> unchanged(this)
        invariant Good() && !error && old(Pos()) == |Stream()| ==> LosesBuffer() == old(LosesBuffer())
        decreases |file| - fdOffset, skipBytes
      {
        if readPos < |buffer| {
          var amount := Min(skipBytes, |buffer| - readPos);
          SkipWithin(amount);
        } else {
          if Good() { PosInStream(); }
          var ok := Refill(true);
          if Good() && !error { PosInStream(); }
          if !ok {
            return;
          }
        }
      }
    }

    /** Copy out of the buffer. */
    method Take(amount: nat) returns (part: seq<byte>)
      requires Valid() && !error && 0 < amount <= Unread(buffer, readPos)
      modifies this`readPos
      ensures Valid() && KeepsSaved() && |part| == amount && readPos == old(readPos) + amount
      ensures Good() ==> Pos() == old(Pos()) + amount
      ensures Good() ==>
        var from := old(Pos() - skipBytes);
        0 <= from <= from + amount <= |Stream()| && part == Stream()[from..from + amount]
    {
      part := buffer[readPos..readPos + amount];
      if Good() { BufferedBytes(blocks, next, buffer, readPos, amount); }
      hide Offset, Start, Frames, BlockFormat.Concat, GoodBlocks;
      Consume(amount);
    }

    /** A pending skip remains only when it leads past the end of the stream. */
    ghost predicate SkipDone()
      reads this
    {
      Good() && !error ==> skipBytes == 0 || (readPos >= |buffer| && next == |blocks|)
    }

    /** The loop of read(). */
    method CopyOut(size: nat) returns (ok: bool, data: seq<byte>)
      requires Valid() && SkipDone()
      modifies this
      ensures Valid() && KeepsSaved() && skipBytes == old(skipBytes)
      ensures ok ==> |data| == size && error == old(error) && (size > 0 ==> !error && 0 < readPos <= |buffer|)
      ensures !ok ==> error
      ensures size == 0 ==> ok
      ensures Good() && !old(error) ==> (ok <==> size == 0 || old(Pos()) + size <= |Stream()|)
      ensures Good() && ok && !error ==> Pos() == old(Pos()) + size
      ensures Good() && ok && size > 0 ==>
        skipBytes == 0 && 0 <= old(Pos()) <= old(Pos()) + size <= |Stream()|
          && data == Stream()[old(Pos())..old(Pos()) + size]
    {
      hide Valid, Pos, Stream, Good, Current, Saved, LosesBuffer;
      data := [];
      while |data| < size
        invariant Valid() && KeepsSaved() && SkipDone() && |data| <= size && skipBytes == old(skipBytes)
        invariant error == old(error) && (|data| > 0 ==> !error)
        invariant |data| == size > 0 ==> 0 < readPos <= |buffer|
        invariant Good() && !error ==> Pos() == old(Pos()) + |data|
        invariant Good() && |data| > 0 ==> skipBytes == 0 && 0 <= old(Pos()) <= old(Pos()) + |data| <= |Stream()|
        invariant Good() && |data| > 0 ==> data == Stream()[old(Pos())..old(Pos()) + |data|]
        decreases |file| - fdOffset, size - |data|
      {
        if error {
          return false, data;
        }
        if Good() { PosInStream(); }
        if readPos < |buffer| {
          var part := Take(Min(size - |data|, |buffer| - readPos));
          if Good() { Join(Stream(), old(Pos()), |data|, |part|); }
          data := data + part;
        } else {
          var refilled := Refill(false);
          if !refilled {
            return false, data;
          }
        }
      }
      ok := true;
    }

    /** read: succeeds exactly when that many bytes are left, and returns them. */
    method Read(size: nat) returns (ok: bool, data: seq<byte>)
      requires Valid()
      modifies this
      ensures Valid() && KeepsSaved()
      ensures !ok ==> error
      ensures ok ==> |data| == size
      ensures Good() ==> (ok <==> size == 0 || (!old(error) && old(Pos()) + size <= |Stream()|))
      ensures Good() && !old(error) && old(Pos()) + size <= |Stream()| ==> !error
      ensures Good() && !error ==> Pos() == old(Pos()) + size
      ensures Good() && ok && size > 0 ==>
        !error && skipBytes == 0 && 0 <= old(Pos()) && data == Stream()[old(Pos())..old(Pos()) + size]
      ensures ok && size > 0 ==> 0 < readPos <= |buffer|
    {
      hide Valid, Pos, Stream, Good, Current, Saved, LosesBuffer;
      ProcessSkip();
      ok, data := CopyOut(size);
    }

    /** skip: takes effect when the position is next needed. */
    method Skip(size: nat)
      requires Valid()
      modifies this`skipBytes
      ensures Valid() && KeepsSaved() && skipBytes == old(skipBytes) + size
      ensures Good() ==> Pos() == old(Pos()) + size
    {
      skipBytes := skipBytes + size;
      hide Offset, Start, Frames, GoodBlocks, At;
    }

    /** The end of the stream is not seen: on an empty file after rewind(), and when a skip ran to
        the end of the stream after the buffer of a saved position was put aside for it. Then the
        read position is still that of the lost buffer, and it stays so when the saved position
        is discarded. */
    ghost predicate EndHidden()
      reads this
    {
      (blocks == [] && !eof) || LosesBuffer()
    }

    /** at_end: right exactly when the end is not hidden. */
    method AtEnd() returns (r: bool)
      requires Valid()
      modifies this
      ensures Valid() && KeepsSaved()
      ensures Good() && !old(error) && old(Pos()) <= |Stream()| ==>
        !error && Pos() == old(Pos()) && (r <==> old(Pos()) == |Stream()| && !old(EndHidden()))
      ensures Good() && !old(error) && old(Pos()) == |Stream()| ==>
        skipBytes == 0 && LosesBuffer() == old(LosesBuffer())
    {
      if Good() && !error { PosInStream(); }
      ProcessSkip();
      r := eof && readPos == |buffer|;
      if Good() && !error { PosInStream(); }
      hide Position, At, GoodFile;
    }

    /** get_buffer: some of the bytes at the cursor. `data` is what lies behind the returned
        pointer as far as it is in the buffer, and `size` the returned size before it is cut to
        an unsigned number. At the end of the stream the answer is "no bytes" exactly when the
        end is not hidden: a lost buffer gives a negative size, that is a huge one, and the
        rewound empty file an error. */
    method GetBuffer() returns (ok: bool, data: seq<byte>, size: int)
      requires Valid()
      modifies this
      ensures Valid() && KeepsSaved()
      ensures ok && size >= 0 ==> |data| == size
      ensures Good() && !old(error) && old(Pos()) < |Stream()| ==>
        && ok && Pos() == old(Pos()) && 0 < size
        && 0 <= old(Pos()) <= old(Pos()) + size <= |Stream()|
        && data == Stream()[old(Pos())..old(Pos()) + size]
      ensures Good() && !old(error) && old(Pos()) == |Stream()| ==> ((ok && size == 0) <==> !old(EndHidden()))
      ensures Good() && !old(error) && old(Pos()) == |Stream()| ==> (ok <==> !(blocks == [] && !old(eof)))
      ensures Good() && !old(error) && old(Pos()) == |Stream()| && ok ==> (size < 0 <==> old(LosesBuffer()))
    {
      hide Valid, Pos, Stream, Good, Current, Saved, SavedView;
      if Good() && !error { PosInStream(); }
      ProcessSkip();
      if error {
        return false, [], 0;
      }
      if Good() { PosInStream(); }
      if readPos >= |buffer| && !eof {
        var refilled := Refill(false);
        if !refilled {
          return false, [], 0;
        }
      }
      if Good() && !error { PosInStream(); }
      ok := true;
      data := if readPos <= |buffer| then buffer[readPos..] else [];
      size := |buffer| - readPos;
      if Good() && readPos < |buffer| { BufferHasStream(); }
    }

    lemma BufferHasStream()
      requires Valid() && Good() && !error && readPos < |buffer|
      ensures var from := Pos() - skipBytes;
        && 0 <= from <= from + |buffer| - readPos <= |Stream()|
        && buffer[readPos..] == Stream()[from..from + |buffer| - readPos]
    {
      BufferedBytes(blocks, next, buffer, readPos, |buffer| - readPos);
      assert buffer[readPos..] == buffer[readPos..|buffer|];
    }

    /** save_state: remember where the cursor is. */
    method SaveState()
      requires Valid() && !haveSavedState
      modifies this
      ensures Valid() && haveSavedState
      ensures Good() && !error ==> Pos() == old(Pos())
      ensures Good() && !old(error) && old(Pos()) <= |Stream()| ==> !error && SavedPos() == old(Pos())
      ensures old(skipBytes) == 0 ==>
        !haveSavedBuffer && buffer == old(buffer) && readPos == old(readPos) && skipBytes == 0
    {
      ProcessSkip();
      haveSavedState, haveSavedBuffer := true, false;
      savedFdOffset, savedReadPos := fdOffset, readPos;
      savedNext := next;
      hide Offset, Start, GoodFile, Position;
    }

    /** restore_state: back to the saved position, whatever was read or skipped meanwhile. */
    method RestoreState()
      requires Valid() && haveSavedState
      modifies this
      ensures Valid() && !haveSavedState && error == old(error) && skipBytes == 0
      ensures Good() && !error ==> Pos() == old(SavedPos())
    {
      hide Offset, Start, Position;
      if Good() { StartGrows(codec, blocks, savedNext, next); }
      haveSavedState := false;
      if savedFdOffset < fdOffset {
        eof := false;
      }
      fdOffset := savedFdOffset;
      if haveSavedBuffer {
        buffer, savedBuffer := savedBuffer, [];
      }
      readPos, skipBytes := savedReadPos, 0;
      if Good() { next := savedNext; }
      hide Offset, Start, GoodFile, Position;
    }

    /** discard_state: forget the saved position and stay. */
    method DiscardState()
      requires Valid() && haveSavedState
      modifies this`haveSavedState, this`savedBuffer
      ensures Valid() && !haveSavedState
      ensures Good() ==> Pos() == old(Pos())
    {
      haveSavedState := false;
      if haveSavedBuffer {
        savedBuffer := [];
      }
      hide Offset, Start, GoodFile, Position;
    }

    /** rewind: back to the start of the stream. */
    method Rewind()
      requires Valid() && !haveSavedState
      modifies this
      ensures Valid() && !haveSavedState && error == old(error) && !eof
      ensures Good() && !error ==> Pos() == 0
    {
      fdOffset, readPos, skipBytes := 0, 0, 0;
      buffer, eof := [], false;
      if Good() {
        next := 0;
        OffsetEnd(codec, blocks);
        StartEnd(blocks);
      }
    }

    /** The copy constructor: an independent cursor at the same place. */
    constructor CopyOf(other: Reader)
      requires other.Valid() && !other.haveSavedState
      ensures Valid() && !haveSavedState && error == other.error
      ensures codec == other.codec && file == other.file && blocks == other.blocks
      ensures Good() ==> Pos() == other.Pos()
    {
      codec, file, blocks := other.codec, other.file, other.blocks;
      fdOffset, error, eof := other.fdOffset, other.error, other.eof;
      buffer, readPos, skipBytes := other.buffer, other.readPos, other.skipBytes;
      haveSavedState, haveSavedBuffer, savedFdOffset, savedBuffer, savedReadPos := false, false, 0, [], 0;
      next, savedNext := other.next, 0;
    }

    /** uncompressed_bytes: adds up the headers; on a well-formed file, the stream's length. */
    method UncompressedBytes() returns (total: nat)
      ensures Good() ==> total == |Stream()|
    {
      var offset := 0;
      total := 0;
      ghost var k := 0;
      if Good() { OffsetEnd(codec, blocks); StartEnd(blocks); }
      while CanRead(file, offset, HEADER_SIZE)
        invariant Good() ==> k <= |blocks| && offset == Offset(codec, blocks, k) && total == Start(blocks, k)
        decreases |file| - offset
      {
        if Good() { BlockHere(codec, file, blocks, k); k := k + 1; }
        var compressedLength := CompressedLength(file, offset);
        total := total + UncompressedLength(file, offset);
        offset := offset + HEADER_SIZE + compressedLength;
      }
      if Good() { BlockHere(codec, file, blocks, k); }
    }
  }
}
