/**
 The on-disk format shared by the compressed writer and the compressed reader:
 a file is a sequence of frames, each a block header (two 32-bit little-endian
 words) followed by one independently compressed block.
 */
module BlockFormat {
  import opened Options

  newtype byte = x: int | 0 <= x < 256

  /** Brotli seen from outside: `decompress` is told the expected output size, as
      the reader tells it; `limit` bounds the compressed size of one block. */
  datatype Codec = Codec(
    compress: seq<byte> -> seq<byte>,
    decompress: (seq<byte>, nat) -> Option<seq<byte>>,
    limit: nat)

  const WORD := 0x1_0000_0000

  const HEADER_SIZE := 8

  /** What is assumed of the codec on blocks of at most `blockSize` bytes. */
  ghost predicate Faithful(codec: Codec, blockSize: nat) {
    && codec.limit < WORD
    && forall x: seq<byte> | 0 < |x| <= blockSize ::
         && 0 < |codec.compress(x)| <= codec.limit
         && codec.decompress(codec.compress(x), |x|) == Some(x)
  }

  function Word(n: nat): (bytes: seq<byte>)
    requires n < WORD
    ensures |bytes| == 4
  {
    [(n % 256) as byte, (n / 256 % 256) as byte, (n / 65536 % 256) as byte, (n / 16777216) as byte]
  }

  function WordValue(bytes: seq<byte>): (n: nat)
    requires |bytes| == 4
    ensures n < WORD
  {
    bytes[0] as int + 256 * bytes[1] as int + 65536 * bytes[2] as int + 16777216 * bytes[3] as int
  }

  lemma WordRoundTrip(n: nat)
    requires n < WORD
    ensures WordValue(Word(n)) == n
  {
    assert n / 256 == n / 65536 * 256 + n / 256 % 256;
    assert n / 65536 == n / 16777216 * 256 + n / 65536 % 256;
  }

  function Header(compressedLength: nat, uncompressedLength: nat): (h: seq<byte>)
    requires compressedLength < WORD && uncompressedLength < WORD
    ensures |h| == HEADER_SIZE
  {
    Word(compressedLength) + Word(uncompressedLength)
  }

  /** The bytes one block occupies in the file. */
  function Frame(codec: Codec, block: seq<byte>): (f: seq<byte>)
    requires |block| < WORD && |codec.compress(block)| < WORD
    ensures |f| == HEADER_SIZE + |codec.compress(block)|
  {
    Header(|codec.compress(block)|, |block|) + codec.compress(block)
  }

  function Min(a: int, b: int): int { if a <= b then a else b }

  /** The frames of `stream[pos..]`, cut into blocks of `blockSize` bytes, the last
      one possibly shorter. */
  ghost function EncodeFrom(codec: Codec, blockSize: nat, stream: seq<byte>, pos: nat): (file: seq<byte>)
    requires 0 < blockSize < WORD && Faithful(codec, blockSize)
    decreases |stream| - pos
  {
    if pos >= |stream| then
      []
    else
      var next := Min(pos + blockSize, |stream|);
      Frame(codec, stream[pos..next]) + EncodeFrom(codec, blockSize, stream, next)
  }

  ghost function Encode(codec: Codec, blockSize: nat, stream: seq<byte>): (file: seq<byte>)
    requires 0 < blockSize < WORD && Faithful(codec, blockSize)
  {
    EncodeFrom(codec, blockSize, stream, 0)
  }

  function Concat(parts: seq<seq<byte>>): (whole: seq<byte>) {
    if parts == [] then [] else parts[0] + Concat(parts[1..])
  }
}
