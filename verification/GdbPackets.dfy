/**
 The packets of the gdb remote protocol: cutting the incoming byte stream into packets and
 interrupts as it arrives, and framing and escaping binary data.
 */
module GdbPackets {
  import opened Options

  type Bytes = seq<bv8>

  const INTERRUPT: bv8 := 0x03
  const DOLLAR: bv8 := 0x24
  const HASH: bv8 := 0x23
  const ESCAPE: bv8 := 0x7d
  const STAR: bv8 := 0x2a

  // ------------------------------------------------------------------- tokenising

  datatype Token = Interrupt | Packet(body: Bytes)

  predicate Starts(b: bv8) { b == DOLLAR || b == INTERRUPT }

  /** The index of the first byte that starts a token, or the length if there is none. */
  function TokenStart(s: Bytes): (i: nat)
    ensures i <= |s| && (forall j | 0 <= j < i :: !Starts(s[j])) && (i < |s| ==> Starts(s[i]))
  {
    if s == [] || Starts(s[0]) then 0 else 1 + TokenStart(s[1..])
  }

  /** The index of the first '#', or the length if there is none. */
  function PacketEnd(s: Bytes): (i: nat)
    ensures i <= |s| && (forall j | 0 <= j < i :: s[j] != HASH) && (i < |s| ==> s[i] == HASH)
  {
    if s == [] || s[0] == HASH then 0 else 1 + PacketEnd(s[1..])
  }

  /** The token a stream begins with, and what follows it. */
  function Front(s: Bytes): (r: Option<(Token, Bytes)>)
    ensures r.Some? ==> |r.value.1| < |s|
  {
    if s == [] then None
    else if s[0] == INTERRUPT then Some((Interrupt, s[1..]))
    else
      var k := PacketEnd(s[1..]) + 1;
      if k == |s| then None else Some((Packet(s[1..k]), s[k + 1..]))
  }

  /** The first token of a whole stream, and what follows it. */
  function Next(s: Bytes): (r: Option<(Token, Bytes)>)
    ensures r.Some? ==> |r.value.1| < |s|
  {
    Front(s[TokenStart(s)..])
  }

  /** All tokens of a whole stream. */
  function Tokens(s: Bytes): seq<Token>
    decreases |s|
  {
    var r := Next(s);
    if r.None? then [] else [r.value.0] + Tokens(r.value.1)
  }

  function Flat(chunks: seq<Bytes>): Bytes {
    if chunks == [] then [] else chunks[0] + Flat(chunks[1..])
  }

  lemma StartUnique(s: Bytes, i: nat)
    requires i <= |s| && (forall j | 0 <= j < i :: !Starts(s[j])) && (i < |s| ==> Starts(s[i]))
    ensures TokenStart(s) == i
  {
  }

  lemma EndUnique(s: Bytes, i: nat)
    requires i <= |s| && (forall j | 0 <= j < i :: s[j] != HASH) && (i < |s| ==> s[i] == HASH)
    ensures PacketEnd(s) == i
  {
  }

  /** Bytes before the start of a packet do not matter. */
  lemma {:induction false} SkipNoise(s: Bytes, rest: Bytes)
    ensures Next(s + rest) == Next(s[TokenStart(s)..] + rest)
  {
    if s != [] && !Starts(s[0]) {
      SkipNoise(s[1..], rest);
      assert (s + rest)[1..] == s[1..] + rest;
      SkipByte(s + rest);
      assert s[TokenStart(s)..] == s[1..][TokenStart(s[1..])..];
    } else {
      assert s[0..] == s;
    }
    hide Next, Starts;
  }

  lemma SkipByte(s: Bytes)
    requires s != [] && !Starts(s[0])
    ensures Next(s) == Next(s[1..])
  {
    assert s[TokenStart(s)..] == s[1..][TokenStart(s[1..])..];
    hide Front;
  }

  class Connection {
    var inbuf: Bytes
    var packetend: nat
    var alive: bool
    /** What the socket will deliver, read by read; nothing left is the end of the stream. */
    var incoming: seq<Bytes>

    constructor (incoming: seq<Bytes>)
      ensures inbuf == [] && alive && this.incoming == incoming
    {
      this.inbuf, this.packetend, this.alive, this.incoming := [], 0, true, incoming;
    }

    /** What is buffered or still to come. */
    ghost function Stream(): Bytes
      reads this
    {
      inbuf + Flat(incoming)
    }

    method ReadDataOnce()
      modifies `inbuf, `incoming, `alive
      ensures Stream() == old(Stream()) && alive == (old(alive) && old(incoming) != [])
      ensures old(incoming) != [] ==> |incoming| < |old(incoming)| && inbuf == old(inbuf) + old(incoming)[0]
      ensures old(incoming) == [] ==> inbuf == old(inbuf) && incoming == []
    {
      if incoming == [] {
        alive := false;
      } else {
        inbuf, incoming := inbuf + incoming[0], incoming[1..];
      }
    }

    method SkipToPacketStart() returns (found: bool)
      modifies `inbuf
      ensures inbuf == old(inbuf)[TokenStart(old(inbuf))..]
      ensures found <==> inbuf != []
      ensures found ==> Starts(inbuf[0])
      ensures Next(Stream()) == Next(old(Stream()))
    {
      var i := 0;
      while i < |inbuf| && !Starts(inbuf[i])
        invariant i <= |inbuf| && forall j | 0 <= j < i :: !Starts(inbuf[j])
      {
        i := i + 1;
      }
      StartUnique(inbuf, i);
      SkipNoise(inbuf, Flat(incoming));
      found := i < |inbuf|;
      inbuf := inbuf[i..];
    }

    /** read_packet: on success a whole token is at the start of the buffer; on failure the
        stream has ended without one. */
    method ReadPacket() returns (ok: bool)
      requires alive
      modifies this
      ensures Next(Stream()) == Next(old(Stream()))
      ensures ok ==>
        && alive
        && inbuf != []
        && (inbuf[0] == INTERRUPT || (inbuf[0] == DOLLAR && packetend == PacketEnd(inbuf) < |inbuf|))
      ensures !ok ==> !alive && Next(old(Stream())).None?
    {
      hide Next, TokenStart, PacketEnd;
      var found := SkipToPacketStart();
      while !found && alive
        invariant Next(Stream()) == Next(old(Stream()))
        invariant found <==> inbuf != []
        invariant found ==> Starts(inbuf[0])
        invariant !alive ==> inbuf == [] && incoming == []
        decreases |incoming|, alive, !found
      {
        ReadDataOnce();
        found := SkipToPacketStart();
      }
      if !alive {
        NothingStarts([]);
        assert Stream() == [];
        return false;
      }
      if inbuf[0] == INTERRUPT {
        packetend := 1;
        return true;
      }
      ok := FindPacketEnd();
    }

    method FindPacketEnd() returns (ok: bool)
      requires alive && inbuf != [] && inbuf[0] == DOLLAR
      modifies this
      ensures Stream() == old(Stream())
      ensures ok ==> alive && inbuf != [] && inbuf[0] == DOLLAR && packetend == PacketEnd(inbuf) < |inbuf|
      ensures !ok ==> !alive && Next(Stream()).None?
    {
      var checked: nat := 0;
      while true
        invariant alive && Stream() == old(Stream()) && inbuf != [] && inbuf[0] == DOLLAR
        invariant checked <= |inbuf| && forall j | 0 <= j < checked :: inbuf[j] != HASH
        decreases |incoming|
      {
        var i := checked;
        while i < |inbuf| && inbuf[i] != HASH
          invariant checked <= i <= |inbuf| && forall j | 0 <= j < i :: inbuf[j] != HASH
        {
          i := i + 1;
        }
        if i < |inbuf| {
          EndUnique(inbuf, i);
          packetend := i;
          return true;
        }
        checked := |inbuf|;
        ReadDataOnce();
        if !alive {
          Unfinished(inbuf);
          assert Stream() == inbuf;
          return false;
        }
      }
    }

    /** process_packet, as far as the input buffer is concerned. */
    method TakePacket() returns (token: Token)
      requires inbuf != [] && (inbuf[0] == INTERRUPT || (inbuf[0] == DOLLAR && packetend == PacketEnd(inbuf) < |inbuf|))
      modifies `inbuf
      ensures Next(old(Stream())) == Some((token, Stream()))
    {
      TokenAtFront(inbuf, Flat(incoming));
      if inbuf[0] == INTERRUPT {
        inbuf := inbuf[1..];
        return Interrupt;
      }
      token := Packet(inbuf[1..packetend]);
      inbuf := inbuf[packetend + 1..];
    }

    method NextToken() returns (token: Option<Token>)
      requires alive
      modifies this
      ensures token.None? ==> Next(old(Stream())).None?
      ensures token.Some? ==> alive && Next(old(Stream())) == Some((token.value, Stream()))
    {
      hide *;
      var ok := ReadPacket();
      if !ok {
        return None;
      }
      var t := TakePacket();
      return Some(t);
    }

    /** However the socket cuts the stream into pieces, the tokens are those of the whole. */
    method ReadAll() returns (tokens: seq<Token>)
      requires alive
      modifies this
      ensures tokens == Tokens(old(Stream()))
    {
      hide *;
      tokens := [];
      Regroup([], Tokens(Stream()), []);
      while true
        invariant alive && tokens + Tokens(Stream()) == Tokens(old(Stream()))
        decreases |Stream()|
      {
        TokensFirst(Stream());
        var token := NextToken();
        if token.None? {
          return;
        }
        Regroup(tokens, [token.value], Tokens(Stream()));
        tokens := tokens + [token.value];
      }
    }
  }

  lemma Regroup(a: seq<Token>, b: seq<Token>, c: seq<Token>)
    ensures a + (b + c) == a + b + c && a + [] == a && [] + b == b
  {
  }

  lemma TokensFirst(s: Bytes)
    ensures Next(s).None? ==> Tokens(s) == []
    ensures Next(s).Some? ==> Tokens(s) == [Next(s).value.0] + Tokens(Next(s).value.1)
  {
  }

  lemma Unfinished(s: Bytes)
    requires s != [] && s[0] == DOLLAR && forall j | 0 <= j < |s| :: s[j] != HASH
    ensures Next(s) == None
  {
    StartUnique(s, 0);
    assert s[0..] == s;
    EndUnique(s[1..], |s| - 1);
  }

  /** A '$' up to the first '#' is a packet. */
  lemma PacketInFront(s: Bytes, k: nat)
    requires 0 < k < |s| && s[0] == DOLLAR && s[k] == HASH && forall j | 0 <= j < k :: s[j] != HASH
    ensures Next(s) == Some((Packet(s[1..k]), s[k + 1..]))
  {
    StartUnique(s, 0);
    assert s[0..] == s;
    EndUnique(s[1..], k - 1);
  }

  lemma TokenAtFront(s: Bytes, rest: Bytes)
    requires s != [] && (s[0] == INTERRUPT || (s[0] == DOLLAR && PacketEnd(s) < |s|))
    ensures s[0] == INTERRUPT ==> Next(s + rest) == Some((Interrupt, s[1..] + rest))
    ensures s[0] == DOLLAR ==>
      Next(s + rest) == Some((Packet(s[1..PacketEnd(s)]), s[PacketEnd(s) + 1..] + rest))
  {
    if s[0] == INTERRUPT {
      InterruptInFront(s + rest);
      SliceConcat(s, rest, 0);
    } else {
      PacketAtFront(s, rest);
    }
    hide Next, PacketEnd;
  }

  lemma PacketAtFront(s: Bytes, rest: Bytes)
    requires s != [] && s[0] == DOLLAR && PacketEnd(s) < |s|
    ensures Next(s + rest) == Some((Packet(s[1..PacketEnd(s)]), s[PacketEnd(s) + 1..] + rest))
  {
    var k := PacketEnd(s);
    assert k > 0;
    hide Next, PacketEnd, TokenStart, Front;
    PacketStays(s, rest);
    SliceConcat(s, rest, k);
    var all := s + rest;
    assert all[0] == DOLLAR;
    PacketInFront(all, k);
  }

  lemma PacketStays(s: Bytes, rest: Bytes)
    requires PacketEnd(s) < |s|
    ensures (s + rest)[PacketEnd(s)] == HASH && forall j | 0 <= j < PacketEnd(s) :: (s + rest)[j] != HASH
  {
    hide *;
    assert forall j | 0 <= j < |s| :: (s + rest)[j] == s[j];
  }

  lemma InterruptInFront(s: Bytes)
    requires s != [] && s[0] == INTERRUPT
    ensures Next(s) == Some((Interrupt, s[1..]))
  {
    StartUnique(s, 0);
    assert s[0..] == s;
  }

  lemma SliceConcat(s: Bytes, rest: Bytes, k: nat)
    requires k < |s|
    ensures 0 < k ==> (s + rest)[1..k] == s[1..k]
    ensures (s + rest)[k + 1..] == s[k + 1..] + rest
  {
  }

  // --------------------------------------------------------------- binary packets

  predicate Special(b: bv8) { b == HASH || b == DOLLAR || b == ESCAPE || b == STAR }

  function EscapeByte(b: bv8): (r: Bytes)
    ensures 1 <= |r| <= 2 && HASH !in r && DOLLAR !in r && STAR !in r
  {
    if Special(b) then [ESCAPE, b ^ 0x20] else [b]
  }

  function Escape(data: Bytes): (r: Bytes)
    ensures |r| <= 2 * |data| && HASH !in r && DOLLAR !in r && STAR !in r
  {
    if data == [] then [] else Escape(data[..|data| - 1]) + EscapeByte(data[|data| - 1])
  }

  function Prepend(done: Bytes, rest: Option<Bytes>): Option<Bytes> {
    if rest.None? then None else Some(done + rest.value)
  }

  lemma PrependTwice(a: Bytes, b: Bytes, rest: Option<Bytes>)
    ensures Prepend(a, Prepend(b, rest)) == Prepend(a + b, rest)
  {
    assert rest.Some? ==> a + (b + rest.value) == a + b + rest.value;
  }

  lemma PrependNothing(rest: Option<Bytes>)
    ensures Prepend([], rest) == rest
  {
    assert rest.Some? ==> [] + rest.value == rest.value;
  }

  /** What a receiver makes of escaped data; an escape with nothing behind it is an error. */
  function Unescape(s: Bytes): Option<Bytes> {
    if s == [] then Some([])
    else if s[0] != ESCAPE then Prepend([s[0]], Unescape(s[1..]))
    else if |s| == 1 then None
    else Prepend([0x20 ^ s[1]], Unescape(s[2..]))
  }

  lemma {:induction false} UnescapeMore(s: Bytes, t: Bytes)
    requires Unescape(s).Some?
    ensures Unescape(s + t) == Prepend(Unescape(s).value, Unescape(t))
  {
    if s == [] {
      assert s + t == t;
      PrependNothing(Unescape(t));
    } else {
      var k := if s[0] != ESCAPE then 1 else 2;
      var b := if s[0] != ESCAPE then s[0] else 0x20 ^ s[1];
      UnescapeMore(s[k..], t);
      assert (s + t)[k..] == s[k..] + t;
      PrependTwice([b], Unescape(s[k..]).value, Unescape(t));
    }
  }

  lemma UnescapeByte(b: bv8)
    ensures Unescape(EscapeByte(b)) == Some([b])
  {
    assert 0x20 ^ (b ^ 0x20) == b;
    if Special(b) {
      assert [ESCAPE, b ^ 0x20][2..] == [];
    } else {
      assert [b][1..] == [];
    }
    assert [b] + [] == [b];
  }

  /** Escaped data decodes to the original. */
  lemma {:induction false} EscapeRoundTrip(data: Bytes)
    ensures Unescape(Escape(data)) == Some(data)
  {
    if data != [] {
      var init, last := data[..|data| - 1], data[|data| - 1];
      EscapeRoundTrip(init);
      UnescapeByte(last);
      UnescapeMore(Escape(init), EscapeByte(last));
      assert data == init + [last];
    }
  }

  function Checksum(data: Bytes): nat {
    if data == [] then 0 else (Checksum(data[..|data| - 1]) + data[|data| - 1] as nat) % 256
  }

  function HexDigit(n: nat): (b: bv8)
    requires n < 16
    ensures b != HASH && b != DOLLAR && b != INTERRUPT
  {
    if n < 10 then (0x30 + n) as bv8 else (0x57 + n) as bv8
  }

  /** A packet as it goes over the wire. */
  function Frame(body: Bytes): Bytes {
    [DOLLAR] + body + [HASH, HexDigit(Checksum(body) / 16), HexDigit(Checksum(body) % 16)]
  }

  function Sum(data: Bytes): nat {
    if data == [] then 0 else Sum(data[..|data| - 1]) + data[|data| - 1] as nat
  }

  lemma {:induction false} ChecksumIsSum(data: Bytes)
    ensures Checksum(data) == Sum(data) % 256
  {
    if data != [] {
      var init := data[..|data| - 1];
      ChecksumIsSum(init);
      ModuloAdd(Sum(init), data[|data| - 1] as nat);
    }
  }

  lemma ModuloAdd(x: nat, y: nat)
    ensures (x % 256 + y) % 256 == (x + y) % 256
  {
  }

  /** What a receiver reads a hexadecimal digit as. */
  function HexValue(b: bv8): int {
    if 0x30 <= b <= 0x39 then b as int - 0x30 else b as int - 0x57
  }

  lemma HexRoundTrip(n: nat)
    requires n < 16
    ensures HexValue(HexDigit(n)) == n
  {
    if n < 10 {
      assert ((0x30 + n) as bv8) as int == 0x30 + n;
    } else {
      assert ((0x57 + n) as bv8) as int == 0x57 + n;
    }
  }

  /** The two digits at the end of a packet are the sum of its bytes modulo 256. */
  lemma FrameChecksum(body: Bytes)
    ensures var s := Frame(body);
      |s| == |body| + 4 && HexValue(s[|body| + 2]) * 16 + HexValue(s[|body| + 3]) == Sum(body) % 256
  {
    ChecksumIsSum(body);
    HexRoundTrip(Checksum(body) / 16);
    HexRoundTrip(Checksum(body) % 16);
    hide HexValue, HexDigit, Checksum, Sum;
  }

  method WritePacketBytes(data: Bytes) returns (out: Bytes)
    ensures out == Frame(data)
  {
    var checksum := 0;
    for i := 0 to |data|
      invariant checksum == Checksum(data[..i]) < 256
    {
      assert data[..i + 1][..i] == data[..i];
      checksum := (checksum + data[i] as nat) % 256;
    }
    assert data[..|data|] == data;
    out := [DOLLAR] + data + [HASH, HexDigit(checksum / 16), HexDigit(checksum % 16)];
  }

  /** write_binary_packet: the buffer is always large enough, so nothing is cut off. */
  method WriteBinaryPacket(prefix: Bytes, data: Bytes) returns (out: Bytes)
    ensures out == Frame(prefix + Escape(data))
  {
    var size := 2 * |data| + |prefix|;
    var buf := prefix;
    var i := 0;
    while i < |data|
      invariant i <= |data| && buf == prefix + Escape(data[..i])
    {
      if |buf| + 2 > size {
        break;
      }
      assert data[..i + 1][..i] == data[..i];
      var b := data[i];
      if b == HASH || b == DOLLAR || b == ESCAPE || b == STAR {
        buf := buf + [ESCAPE, b ^ 0x20];
      } else {
        buf := buf + [b];
      }
      i := i + 1;
    }
    assert data[..|data|] == data;
    out := WritePacketBytes(buf);
  }

  /** read_binary_data. */
  method ReadBinaryData(payload: Bytes) returns (data: Option<Bytes>)
    ensures data == Unescape(payload)
  {
    var done: Bytes := [];
    var i: nat := 0;
    assert payload[0..] == payload;
    PrependNothing(Unescape(payload));
    while i < |payload|
      invariant i <= |payload|
      invariant Unescape(payload) == Prepend(done, Unescape(payload[i..]))
    {
      var b := payload[i];
      assert payload[i..][1..] == payload[i + 1..];
      if b == ESCAPE {
        if i + 1 == |payload| {
          return None;
        }
        assert payload[i..][2..] == payload[i + 2..];
        b, i := 0x20 ^ payload[i + 1], i + 2;
      } else {
        i := i + 1;
      }
      PrependTwice(done, [b], Unescape(payload[i..]));
      done := done + [b];
    }
    assert payload[i..] == [] && done + [] == done;
    return Some(done);
  }

  /** A binary packet arrives as one packet that decodes to what was sent. */
  lemma BinaryPacketArrives(prefix: Bytes, data: Bytes)
    requires HASH !in prefix
    ensures Tokens(Frame(prefix + Escape(data))) == [Packet(prefix + Escape(data))]
    ensures Unescape((prefix + Escape(data))[|prefix|..]) == Some(data)
  {
    var body := prefix + Escape(data);
    EscapeRoundTrip(data);
    assert body[|prefix|..] == Escape(data);
    FrameArrives(body);
  }

  lemma FrameArrives(body: Bytes)
    requires HASH !in body
    ensures Tokens(Frame(body)) == [Packet(body)]
  {
    var s, k := Frame(body), |body| + 1;
    var rest := FrameParts(body);
    hide Frame;
    PacketInFront(s, k);
    NothingStarts(rest);
    hide Next;
    assert Tokens(rest) == [];
  }

  lemma FrameParts(body: Bytes) returns (rest: Bytes)
    ensures var s, k := Frame(body), |body| + 1;
      && k < |s| && s[0] == DOLLAR && s[k] == HASH && s[1..k] == body && s[k + 1..] == rest
      && forall j | 0 < j < k :: s[j] == body[j - 1]
    ensures forall i | 0 <= i < |rest| :: !Starts(rest[i])
  {
    rest := [HexDigit(Checksum(body) / 16), HexDigit(Checksum(body) % 16)];
    hide Checksum, HexDigit;
  }

  lemma NothingStarts(s: Bytes)
    requires forall i | 0 <= i < |s| :: !Starts(s[i])
    ensures Next(s) == None
  {
    StartUnique(s, |s|);
  }
}
