/**
 Allocating hardware watch registers: a register watches 1, 2, 4 or (on 64-bit hosts) 8
 bytes at a multiple of that size, so ranges have to be split.
 */
module WatchRegisters {
  import opened MemoryRange

  predicate Size(b: int, word: nat) { b == 1 || b == 2 || b == 4 || (b == 8 && word >= 8) }

  predicate Multiple(a: int, b: int) {
    b == 1 || (b == 2 && a % 2 == 0) || (b == 4 && a % 4 == 0) || (b == 8 && a % 8 == 0)
  }

  /** What one register can watch. */
  predicate Natural(r: Range, word: nat) {
    Size(r.end - r.start, word) && Multiple(r.start, r.end - r.start)
  }

  /** The pieces follow one another from `start` to `end`. */
  ghost predicate Tiles(pieces: seq<Range>, start: nat, end: nat, word: nat) {
    if pieces == [] then start == end
    else pieces[0].start == start && Natural(pieces[0], word) && Tiles(pieces[1..], pieces[0].end, end, word)
  }

  /** The largest piece that can stand at the start of [start, end). */
  function Largest(start: nat, end: nat, word: nat): (b: nat)
    requires start < end
    ensures Size(b, word) && Multiple(start, b) && start + b <= end
    ensures forall c | Size(c, word) && Multiple(start, c) && start + c <= end :: c <= b
  {
    if word >= 8 && start % 8 == 0 && start + 8 <= end then 8
    else if start % 4 == 0 && start + 4 <= end then 4
    else if start % 2 == 0 && start + 2 <= end then 2
    else 1
  }

  /** How many pieces the greedy split takes. */
  function Count(start: nat, end: nat, word: nat): nat
    requires start <= end
    decreases end - start
  {
    if start == end then 0 else 1 + Count(start + Largest(start, end, word), end, word)
  }

  lemma {:induction false} TilesForward(pieces: seq<Range>, start: nat, end: nat, word: nat)
    requires Tiles(pieces, start, end, word)
    ensures start <= end && (pieces != [] ==> start < end)
    decreases |pieces|
  {
    if pieces != [] {
      TilesForward(pieces[1..], pieces[0].end, end, word);
    }
  }

  /** A natural piece that starts strictly inside an aligned block stays inside it. */
  lemma StaysInside(s: nat, b: nat, x: nat, c: nat, word: nat)
    requires Size(b, word) && Multiple(s, b) && s < x < s + b && Size(c, word) && Multiple(x, c)
    ensures x + c <= s + b
  {
    if b == 2 {
      Within2(s / 2, x, c);
    } else if b == 4 {
      Within4(s / 4, x, c);
    } else if b == 8 {
      Within8(s / 8, x, c);
    }
  }

  lemma Within2(k: nat, x: nat, c: nat)
    requires x == 2 * k + 1 && (c == 1 || c == 2 || c == 4 || c == 8) && Multiple(x, c)
    ensures c == 1
  {
  }

  lemma Within4(k: nat, x: nat, c: nat)
    requires 4 * k < x < 4 * k + 4 && (c == 1 || c == 2 || c == 4 || c == 8) && Multiple(x, c)
    ensures x + c <= 4 * k + 4
  {
    var d := x - 4 * k;
    assert d == 1 || d == 2 || d == 3;
  }

  lemma Within8(k: nat, x: nat, c: nat)
    requires 8 * k < x < 8 * k + 8 && (c == 1 || c == 2 || c == 4 || c == 8) && Multiple(x, c)
    ensures x + c <= 8 * k + 8
  {
    var d := x - 8 * k;
    assert d == 1 || d == 2 || d == 3 || d == 4 || d == 5 || d == 6 || d == 7;
  }

  /** The greedy split is minimal: no tiling has fewer pieces. */
  lemma {:induction false} Minimal(pieces: seq<Range>, start: nat, end: nat, word: nat)
    requires Tiles(pieces, start, end, word)
    ensures start <= end && Count(start, end, word) <= |pieces|
    decreases |pieces|
  {
    TilesForward(pieces, start, end, word);
    if pieces != [] {
      TilesForward(pieces[1..], pieces[0].end, end, word);
      var b := Largest(start, end, word);
      if pieces[0].end == start + b {
        Minimal(pieces[1..], start + b, end, word);
      } else {
        MinimalInside(pieces[1..], start, b, pieces[0].end, end, word);
      }
    }
  }

  /** A tiling that starts inside an aligned block needs a piece more than what follows it. */
  lemma {:induction false} MinimalInside(pieces: seq<Range>, s: nat, b: nat, x: nat, end: nat, word: nat)
    requires Tiles(pieces, x, end, word) && Size(b, word) && Multiple(s, b) && s < x < s + b <= end
    ensures 1 + Count(s + b, end, word) <= |pieces|
    decreases |pieces|
  {
    var next := pieces[0].end;
    StaysInside(s, b, x, next - x, word);
    if next == s + b {
      Minimal(pieces[1..], next, end, word);
    } else {
      MinimalInside(pieces[1..], s, b, next, end, word);
    }
  }

  lemma {:induction false} TilesAppend(pieces: seq<Range>, start: nat, mid: nat, next: Range, word: nat)
    requires Tiles(pieces, start, mid, word) && next.start == mid && Natural(next, word)
    ensures Tiles(pieces + [next], start, next.end, word)
    decreases |pieces|
  {
    if pieces == [] {
      assert pieces + [next] == [next];
    } else {
      TilesAppend(pieces[1..], pieces[0].end, mid, next, word);
      assert (pieces + [next])[1..] == pieces[1..] + [next];
    }
  }

  lemma {:induction false} TilesCover(pieces: seq<Range>, start: nat, end: nat, word: nat, a: int)
    requires Tiles(pieces, start, end, word)
    ensures Covers(pieces, a) <==> start <= a < end
    decreases |pieces|
  {
    TilesForward(pieces, start, end, word);
    if pieces != [] {
      TilesForward(pieces[1..], pieces[0].end, end, word);
      TilesCover(pieces[1..], pieces[0].end, end, word, a);
      CoversConcat([pieces[0]], pieces[1..], a);
      assert [pieces[0]] + pieces[1..] == pieces;
      assert Covers([pieces[0]], a) <==> pieces[0].Has(a) by { assert [pieces[0]][0] == pieces[0]; }
    }
  }

  lemma {:induction false} TilesNatural(pieces: seq<Range>, start: nat, end: nat, word: nat)
    requires Tiles(pieces, start, end, word)
    ensures forall i | 0 <= i < |pieces| :: Natural(pieces[i], word)
    decreases |pieces|
  {
    if pieces != [] {
      TilesNatural(pieces[1..], pieces[0].end, end, word);
      assert forall i | 0 < i < |pieces| :: pieces[i] == pieces[1..][i - 1];
    }
  }

  /** split_range: tiles the range exactly, with as few pieces as any tiling. */
  method SplitRange(range: Range, word: nat) returns (result: seq<Range>)
    requires range.Valid()
    ensures Tiles(result, range.start, range.end, word)
    ensures forall other | Tiles(other, range.start, range.end, word) :: |result| <= |other|
  {
    result := [];
    var start := range.start;
    while start < range.end
      invariant start <= range.end
      invariant Tiles(result, range.start, start, word)
      invariant |result| + Count(start, range.end, word) == Count(range.start, range.end, word)
    {
      var b := Largest(start, range.end, word);
      TilesAppend(result, range.start, start, Range(start, start + b), word);
      result := result + [Range(start, start + b)];
      start := start + b;
    }
    forall other | Tiles(other, range.start, range.end, word) ensures |result| <= |other| {
      Minimal(other, range.start, range.end, word);
    }
  }

  // ---------------------------------------------------------------- configuration

  datatype WatchType = Exec | Write | ReadWrite

  /** The block size a write watch may be widened to. */
  function Alignment(size: nat, word: nat): (align: nat)
    ensures align == 2 || align == 4 || align == 8
    ensures (size <= align || align == if word <= 4 then 4 else 8) && (align > 2 ==> size > align / 2)
  {
    if size <= 2 then 2 else if size <= 4 || word <= 4 then 4 else 8
  }

  function Down2(a: nat): (r: nat)
    ensures r % 2 == 0 && r <= a < r + 2
  {
    2 * (a / 2)
  }

  function Down4(a: nat): (r: nat)
    ensures r % 4 == 0 && r <= a < r + 4
  {
    4 * (a / 4)
  }

  function Down8(a: nat): (r: nat)
    ensures r % 8 == 0 && r <= a < r + 8
  {
    8 * (a / 8)
  }

  function AlignDown(a: nat, align: nat): (r: nat)
    requires align == 2 || align == 4 || align == 8
    ensures Multiple(r, align) && r <= a < r + align
  {
    if align == 2 then Down2(a) else if align == 4 then Down4(a) else Down8(a)
  }

  /** The aligned blocks that enclose `range`. */
  function Enclosing(range: Range, word: nat): (r: Range)
    requires range.Valid()
    ensures r.start <= range.start <= range.end <= r.end
    ensures var align := Alignment(range.end - range.start, word);
      && Multiple(r.start, align) && Multiple(r.end, align)
      && range.start < r.start + align && r.end < range.end + align
  {
    var align := Alignment(range.end - range.start, word);
    Range(AlignDown(range.start, align), AlignDown(range.end + align - 1, align))
  }

  /** The registers chosen for a range: each can watch what it is given, every byte of the range
      is watched, other bytes only for writes and only in the enclosing blocks, and there are no
      more registers than in the exact split, and fewer if another byte is watched. */
  ghost predicate Allocates(range: Range, kind: WatchType, word: nat, regs: seq<Range>)
    requires range.Valid()
  {
    && (forall i | 0 <= i < |regs| :: Natural(regs[i], word))
    && (forall a | range.Has(a) :: Covers(regs, a))
    && (kind != Write || range.end - range.start <= 1 ==> forall a | Covers(regs, a) :: range.Has(a))
    && (forall a | Covers(regs, a) :: Enclosing(range, word).Has(a))
    && (forall exact | Tiles(exact, range.start, range.end, word) :: |regs| <= |exact|)
    && ((exists a :: Covers(regs, a) && !range.Has(a)) ==>
          forall exact | Tiles(exact, range.start, range.end, word) :: |regs| < |exact|)
  }

  /** The pieces an aligned watchpoint takes. */
  method AlignedPieces(range: Range, kind: WatchType, word: nat) returns (regs: seq<Range>)
    requires range.Valid()
    ensures Allocates(range, kind, word, regs)
  {
    regs := SplitRange(range, word);
    ghost var start, end := range.start, range.end;
    if kind == Write && range.end - range.start > 1 {
      var wide := Enclosing(range, word);
      var split := SplitRange(wide, word);
      if |split| < |regs| {
        regs := split;
        start, end := wide.start, wide.end;
      }
    }
    TilesNatural(regs, start, end, word);
    forall a ensures Covers(regs, a) <==> start <= a < end { TilesCover(regs, start, end, word, a); }
    hide Covers, Tiles, Alignment, AlignDown;
  }

  datatype WatchConfig = WatchConfig(range: Range, kind: WatchType)

  function Ranges(configs: seq<WatchConfig>): seq<Range> {
    seq(|configs|, i requires 0 <= i < |configs| => configs[i].range)
  }

  /** configure_watch_registers: the registers of the range are added behind the others, all of
      its kind, and their numbers are noted. Without alignment one register takes the range as it
      is, and no number is noted. */
  method ConfigureWatchRegisters(regs: seq<WatchConfig>, range: Range, kind: WatchType, noted: seq<nat>, aligned: bool,
                                 word: nat)
    returns (result: seq<WatchConfig>, numbers: seq<nat>)
    requires range.Valid()
    ensures regs <= result && forall i | |regs| <= i < |result| :: result[i].kind == kind
    ensures aligned ==> Allocates(range, kind, word, Ranges(result[|regs|..]))
    ensures aligned ==> numbers == noted + seq(|result| - |regs|, i => |regs| + i)
    ensures !aligned ==> Ranges(result[|regs|..]) == [range] && numbers == noted
  {
    if !aligned {
      result, numbers := regs + [WatchConfig(range, kind)], noted;
      assert result[|regs|..] == [WatchConfig(range, kind)];
      return;
    }
    var pieces := AlignedPieces(range, kind, word);
    hide Allocates;
    result, numbers := regs, noted;
    for k := 0 to |pieces|
      invariant |result| == |regs| + k && regs <= result
      invariant forall i | |regs| <= i < |result| :: result[i] == WatchConfig(pieces[i - |regs|], kind)
      invariant numbers == noted + seq(k, i => |regs| + i)
    {
      numbers := numbers + [|result|];
      result := result + [WatchConfig(pieces[k], kind)];
    }
    assert Ranges(result[|regs|..]) == pieces;
  }
}
