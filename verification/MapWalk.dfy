/**
 Walking the mappings of a region and rewriting them one by one, and what the whole walk
 does to the page table.
 */
module MapWalk {
  import opened Options
  import opened MemoryRange
  import opened MemoryMap

  /** Every address of [from, to) is mapped. */
  ghost predicate Solid(mem: seq<Mapping>, from: int, to: int) {
    forall b | from <= b < to :: At(mem, b).Some?
  }

  /** The addresses a walk over `region` rewrites: all of them for munmap; for mprotect those
      that are reached from the start of the region over mapped addresses only. */
  ghost predicate Touched(mem: seq<Mapping>, region: Range, action: Action, a: int) {
    match action
    case Unmapping => region.Has(a)
    case Protecting(_) =>
      && region.start < region.end
      && (if action.GrowsDown() then SegmentStart(mem, region.start) else region.start) <= a < region.end
      && Solid(mem, region.start, a + 1)
  }

  /** The page table after the walk. */
  ghost function Walked(mem: seq<Mapping>, region: Range, action: Action, a: int): Option<Page> {
    if Touched(mem, region, action, a) then action.Rewrite(At(mem, a)) else At(mem, a)
  }

  /** Up to `pos` the walk over `orig` is done, from there on nothing has changed. */
  ghost predicate Done(orig: seq<Mapping>, mem: seq<Mapping>, region: Range, action: Action, pos: nat) {
    forall a :: At(mem, a) == if region.start < pos && a < pos then Walked(orig, region, action, a) else At(orig, a)
  }

  /** No mapping reaches across `pos`. */
  ghost predicate Split(mem: seq<Mapping>, pos: nat) {
    forall j | 0 <= j < |mem| :: mem[j].km.end <= pos || pos <= mem[j].km.start
  }

  ghost predicate Walking(orig: seq<Mapping>, mem: seq<Mapping>, region: Range, action: Action, pos: nat) {
    && ValidMap(orig) && ValidMap(mem)
    && region.Aligned() && region.Valid() && region.start <= pos && pos % PAGE == 0
    && Done(orig, mem, region, action, pos)
    && (if pos == region.start then mem == orig else Split(mem, pos))
    && (action.Protecting? ==> Solid(orig, region.start, pos))
  }

  /** lower_bound finds mapping `i`: all before it end by `pos`, and it does not. */
  ghost predicate Next(mem: seq<Mapping>, pos: nat, i: nat) {
    && i <= |mem|
    && (forall j | 0 <= j < i :: mem[j].km.end <= pos)
    && (i < |mem| ==> pos < mem[i].km.end)
  }

  /** The walk goes on to mapping `i`. */
  predicate Continues(mem: seq<Mapping>, region: Range, action: Action, pos: nat, i: nat) {
    && i < |mem| && mem[i].km.start < region.end
    && (action.Protecting? ==> mem[i].km.start < region.start || pos == mem[i].km.start)
  }

  lemma GapAt(mem: seq<Mapping>, pos: nat, i: nat, a: int)
    requires ValidMap(mem) && Next(mem, pos, i) && pos <= a && (i < |mem| ==> a < mem[i].km.start)
    ensures At(mem, a) == None && SegmentStart(mem, a) == a
  {
    assert forall j | i < j < |mem| :: mem[i].km.end <= mem[j].km.start;
    assert i < |mem| ==> mem[i].Valid();
    AtNone(mem, a);
  }

  function Piece(mem: seq<Mapping>, region: Range, action: Action, pos: nat, i: nat): Range
    requires i < |mem|
  {
    Affected(mem[i], Range(pos, region.end), action)
  }

  /** What one step of the walk works on. */
  lemma StepHits(orig: seq<Mapping>, mem: seq<Mapping>, region: Range, action: Action, pos: nat, i: nat)
    requires Walking(orig, mem, region, action, pos) && pos < region.end
    requires Next(mem, pos, i) && Continues(mem, region, action, pos, i)
    ensures mem[i].Valid() && Hits(mem[i], Piece(mem, region, action, pos, i))
    ensures action.Protecting? ==> mem[i].km.start <= Piece(mem, region, action, pos, i).start
    ensures action.Protecting? ==> mem[i].km.start <= pos
    ensures mem[i].km.start < pos ==> pos == region.start
  {
    assert mem[i].Valid();
    hide ValidMap, Done, Solid;
  }

  /** Inside the mapping of a step, the rewritten piece is the part the walk has to touch. */
  lemma StepTouches(orig: seq<Mapping>, mem: seq<Mapping>, region: Range, action: Action, pos: nat, i: nat, a: int)
    requires Walking(orig, mem, region, action, pos) && pos < region.end
    requires Next(mem, pos, i) && Continues(mem, region, action, pos, i) && mem[i].Has(a)
    ensures Piece(mem, region, action, pos, i).Has(a) <==> Touched(orig, region, action, a)
  {
    StepHits(orig, mem, region, action, pos, i);
    if action.Protecting? {
      if pos == region.start {
        AtIndex(mem, i, region.start);
        assert SegmentStart(orig, region.start) == mem[i].km.start;
      }
      forall b | region.start <= b < a + 1 ensures At(orig, b).Some? {
        if pos <= b {
          AtIndex(mem, i, b);
          assert At(mem, b) == At(orig, b);
        }
      }
      assert Solid(orig, region.start, a + 1);
    }
    hide At, ValidMap, Split, SegmentStart, Solid, Done;
  }

  /** Nothing before the first mapping of the walk is touched. */
  lemma StepMisses(mem: seq<Mapping>, region: Range, action: Action, i: nat, a: int)
    requires ValidMap(mem) && i < |mem| && a < region.start && !mem[i].Has(a)
    requires region.start < mem[i].km.end && (action.Protecting? ==> mem[i].km.start <= region.start)
    ensures !Touched(mem, region, action, a)
  {
    if action.Protecting? { AtIndex(mem, i, region.start); }
  }

  /** One step of the walk rewrites one mapping and keeps the invariant. */
  lemma StepDone(orig: seq<Mapping>, mem: seq<Mapping>, region: Range, action: Action, pos: nat, i: nat)
    requires Walking(orig, mem, region, action, pos) && pos < region.end
    requires Next(mem, pos, i) && Continues(mem, region, action, pos, i)
    requires Hits(mem[i], Piece(mem, region, action, pos, i))
    requires action.Protecting? ==> mem[i].km.start <= Piece(mem, region, action, pos, i).start
    ensures var after := Replace(mem, i, Pieces(mem[i], Piece(mem, region, action, pos, i), action));
      Done(orig, after, region, action, mem[i].km.end)
  {
    var r := Piece(mem, region, action, pos, i);
    var pieces := Pieces(mem[i], r, action);
    var after := Replace(mem, i, pieces);
    var next := mem[i].km.end;
    PiecesValid(mem[i], r, action);
    StepHits(orig, mem, region, action, pos, i);
    forall a
      ensures At(after, a) == if region.start < next && a < next then Walked(orig, region, action, a) else At(orig, a)
    {
      ReplaceAt(mem, i, pieces, a);
      if mem[i].Has(a) {
        AtIndex(mem, i, a);
        PiecesAt(mem[i], r, action, a);
        StepTouches(orig, mem, region, action, pos, i, a);
        hide Touched, ValidMap, Replace, Pieces, Action.Rewrite, Within, PageOf, At, Split, Solid, Affected;
      } else if pos <= a < mem[i].km.start {
        GapAt(mem, pos, i, a);
        hide Touched, ValidMap, Replace, Pieces, At, Split, Solid, Affected;
      } else {
        if a < pos == region.start { StepMisses(orig, region, action, i, a); }
        hide Touched, ValidMap, Replace, Pieces, At, Split, Solid, Affected;
      }
    }
  }

  lemma SplitBehind(mem: seq<Mapping>, i: nat, pieces: seq<Mapping>)
    requires ValidMap(mem) && i < |mem| && Within(pieces, mem[i])
    ensures Split(Replace(mem, i, pieces), mem[i].km.end)
  {
    var after := Replace(mem, i, pieces);
    assert forall j | 0 <= j <= i :: mem[j].km.end <= mem[i].km.end by { assert mem[i].Valid(); }
    assert forall k | 0 <= k < |after| ::
      after[k] == if k < i then mem[k] else if k < i + |pieces| then pieces[k - i] else mem[k - |pieces| + 1];
    hide Mapping.Valid;
  }

  lemma StepSolid(orig: seq<Mapping>, mem: seq<Mapping>, region: Range, action: Action, pos: nat, i: nat)
    requires Walking(orig, mem, region, action, pos) && i < |mem| && action.Protecting? && mem[i].km.start <= pos
    ensures Solid(orig, region.start, mem[i].km.end)
  {
    forall b | region.start <= b < mem[i].km.end ensures At(orig, b).Some? {
      if pos <= b { AtIndex(mem, i, b); }
    }
  }

  lemma StepKeeps(orig: seq<Mapping>, mem: seq<Mapping>, region: Range, action: Action, pos: nat, i: nat)
    requires Walking(orig, mem, region, action, pos) && pos < region.end
    requires Next(mem, pos, i) && Continues(mem, region, action, pos, i)
    ensures mem[i].Valid() && Hits(mem[i], Piece(mem, region, action, pos, i))
    ensures action.Protecting? ==> mem[i].km.start <= Piece(mem, region, action, pos, i).start
    ensures var after := Replace(mem, i, Pieces(mem[i], Piece(mem, region, action, pos, i), action));
      Walking(orig, after, region, action, mem[i].km.end)
  {
    StepHits(orig, mem, region, action, pos, i);
    StepDone(orig, mem, region, action, pos, i);
    var r := Piece(mem, region, action, pos, i);
    var pieces := Pieces(mem[i], r, action);
    var after := Replace(mem, i, pieces);
    PiecesValid(mem[i], r, action);
    ReplaceValid(mem, i, pieces);
    SplitBehind(mem, i, pieces);
    if action.Protecting? { StepSolid(orig, mem, region, action, pos, i); }
    hide Split, ValidMap, Done, Replace, Pieces, At, Solid, Within;
  }

  /** The walk is over: the region is exhausted, or nothing that continues it is left. */
  lemma WalkEnds(orig: seq<Mapping>, mem: seq<Mapping>, region: Range, action: Action, pos: nat, i: nat)
    requires Walking(orig, mem, region, action, pos)
    requires pos < region.end ==> Next(mem, pos, i) && !Continues(mem, region, action, pos, i)
    ensures forall a :: At(mem, a) == Walked(orig, region, action, a)
  {
    forall a ensures At(mem, a) == Walked(orig, region, action, a) {
      if pos < region.end {
        EndsEarly(orig, mem, region, action, pos, i, a);
      }
      hide At, ValidMap, Split, SegmentStart, Next, Action.Rewrite;
    }
  }

  lemma EndsEarly(orig: seq<Mapping>, mem: seq<Mapping>, region: Range, action: Action, pos: nat, i: nat, a: int)
    requires Walking(orig, mem, region, action, pos) && pos < region.end
    requires Next(mem, pos, i) && !Continues(mem, region, action, pos, i)
    ensures action.Protecting? ==> At(orig, pos) == None && (pos == region.start ==> SegmentStart(orig, pos) == pos)
    ensures pos <= a < region.end && action.Unmapping? ==> At(orig, a) == None
  {
    assert i < |mem| ==> mem[i].Valid();
    if action.Protecting? {
      GapAt(mem, pos, i, pos);
    } else if pos <= a < region.end {
      GapAt(mem, pos, i, a);
    }
    hide At, ValidMap;
  }

  /** The rewritten piece of an mprotect step starts at a mapped address. */
  lemma PieceMapped(orig: seq<Mapping>, mem: seq<Mapping>, region: Range, action: Action, pos: nat, i: nat)
    requires Walking(orig, mem, region, action, pos) && pos < region.end && action.Protecting?
    requires Next(mem, pos, i) && Continues(mem, region, action, pos, i)
    ensures At(orig, Piece(mem, region, action, pos, i).start).Some?
  {
    StepHits(orig, mem, region, action, pos, i);
    AtIndex(mem, i, Piece(mem, region, action, pos, i).start);
    hide At, ValidMap, Touched, Solid, Split;
  }

  // ------------------------------------------------------------------- insertion

  function Insert(mem: seq<Mapping>, n: nat, m: Mapping): seq<Mapping>
    requires n <= |mem|
  {
    mem[..n] + [m] + mem[n..]
  }

  lemma ClearOf(mem: seq<Mapping>, n: nat, m: Mapping)
    requires ValidMap(mem) && m.Valid() && n < |mem| && m.km.start < mem[n].km.end
    requires forall a | m.Has(a) :: At(mem, a) == None
    ensures m.km.end <= mem[n].km.start <= mem[n].km.end
  {
    assert mem[n].Valid();
    AtIndex(mem, n, if mem[n].km.start >= m.km.start then mem[n].km.start else m.km.start);
  }

  lemma InsertValid(mem: seq<Mapping>, n: nat, m: Mapping)
    requires ValidMap(mem) && m.Valid() && Next(mem, m.km.start, n)
    requires forall a | m.Has(a) :: At(mem, a) == None
    ensures ValidMap(Insert(mem, n, m))
  {
    hide At, Mapping.Valid, SegmentStart;
    if n < |mem| { ClearOf(mem, n, m); }
    assert forall k | n <= k < |mem| :: m.km.end <= mem[k].km.start;
    hide Next;
    InsertOrdered(mem, n, m);
  }

  lemma InsertOrdered(mem: seq<Mapping>, n: nat, m: Mapping)
    requires ValidMap(mem) && m.Valid() && n <= |mem|
    requires forall j | 0 <= j < n :: mem[j].km.end <= m.km.start
    requires forall k | n <= k < |mem| :: m.km.end <= mem[k].km.start
    ensures ValidMap(Insert(mem, n, m))
  {
    hide Mapping.Valid;
    var r := Insert(mem, n, m);
    assert forall k | 0 <= k < |r| :: r[k] == if k < n then mem[k] else if k == n then m else mem[k - 1];
  }

  lemma InsertAt(mem: seq<Mapping>, n: nat, m: Mapping, a: int)
    requires ValidMap(mem) && n <= |mem| && (m.Has(a) ==> At(mem, a) == None)
    ensures At(Insert(mem, n, m), a) == if m.Has(a) then Some(PageOf(m, a)) else At(mem, a)
  {
    hide PageOf, ValidMap;
    AtConcat(mem[..n] + [m], mem[n..], a);
    AtConcat(mem[..n], [m], a);
    AtConcat(mem[..n], mem[n..], a);
    assert mem[..n] + mem[n..] == mem;
    assert At([m], a) == if m.Has(a) then Some(PageOf(m, a)) else None;
    hide At;
  }
}
