/**
 The address space of a tracee: its memory map and its madvise() ranges, changed in place by
 the calls the tracee makes, and the page table they amount to.
 */
module TraceeMemory {
  import opened Options
  import opened MemoryRange
  import opened MemoryMap
  import opened MapWalk

  /** MappingComparator: overlapping ranges are neither before nor after each other. */
  predicate Precedes(a: Range, b: Range) { !a.Intersects(b) && a.start < b.start }

  /** The pages a call on `length` bytes at `addr` is about. */
  function Region(addr: nat, length: nat): (r: Range)
    ensures r.Aligned() && r.Valid()
    ensures addr % PAGE == 0 && length % PAGE == 0 ==> r == Range(addr, addr + length)
  {
    Range(FloorPage(addr), CeilPage(addr + length))
  }

  datatype Call =
    | Mmap(addr: nat, length: nat, prot: bv32, flags: bv32, offset: nat, name: string, device: nat, inode: nat,
           recorded: Option<Kernel>)
    | Munmap(addr: nat, length: nat)
    | Mprotect(addr: nat, length: nat, prot: bv32)
  {
    function NewKernel(): Kernel
      requires Mmap?
    {
      Kernel(addr, addr + CeilPage(length), name, device, inode, prot, flags & MAP_FLAGS_MASK, offset)
    }

    function NewMapping(): Mapping
      requires Mmap?
    {
      Mapping(NewKernel(), if recorded.Some? then recorded.value else NewKernel(), 0)
    }

    /** What the kernel guarantees of a call that succeeded. */
    predicate Legal() {
      match this
      case Mmap(_, _, _, _, _, _, _, _, _) =>
        addr % PAGE == 0 && (recorded.Some? ==> recorded.value.AsRange() == NewKernel().AsRange())
      case Munmap(_, _) => true
      case Mprotect(_, _, _) => true
    }

    predicate GrowsDown() { Mprotect? && Protecting(prot).GrowsDown() }

    /** Where mprotect starts: with PROT_GROWSDOWN at the start of the segment. */
    function From(mem: seq<Mapping>): int {
      var start := Region(addr, length).start;
      if GrowsDown() then SegmentStart(mem, start) else start
    }
  }

  /** The page an mmap call puts at `a`. */
  function NewPage(call: Call, a: int): Page
    requires call.Mmap?
  {
    var offset := if call.device > 0 then call.offset + (a - call.addr) else 0;
    var live := Side(call.prot, call.flags & MAP_FLAGS_MASK, call.device, call.inode, offset);
    Page(live, if call.recorded.Some? then SideAt(call.recorded.value, a) else live, 0)
  }

  lemma NewPageIs(call: Call, a: int)
    requires call.Mmap?
    ensures PageOf(call.NewMapping(), a) == NewPage(call, a)
  {
  }

  /** What a call does to a page table: mmap overwrites, munmap deletes, and mprotect rewrites
      the contiguous mapped run from address `from` on. */
  ghost function Effect(table: int -> Option<Page>, call: Call, from: int, a: int): Option<Page> {
    match call
    case Mmap(_, _, _, _, _, _, _, _, _) =>
      if call.addr <= a < call.addr + CeilPage(call.length) then Some(NewPage(call, a)) else table(a)
    case Munmap(addr, length) =>
      if length > 0 && Region(addr, CeilPage(length)).Has(a) then None else table(a)
    case Mprotect(addr, length, prot) =>
      var region := Region(addr, length);
      if region.start < region.end && from <= a < region.end && forall b | from <= b <= a :: table(b).Some?
      then Some(table(a).value.SetProt(prot & PROT_MASK)) else table(a)
  }

  /** The naive page table, over that of the map `maps[0]`. Only PROT_GROWSDOWN asks the map
      before the call, and of that only where a segment starts. */
  ghost function Table(maps: seq<seq<Mapping>>, calls: seq<Call>, a: int): Option<Page>
    requires |calls| < |maps|
    decreases |calls|
  {
    if calls == [] then At(maps[0], a) else
      var n := |calls| - 1;
      Effect(b => Table(maps, calls[..n], b), calls[n], calls[n].From(maps[n]), a)
  }

  /** Map `i` stands for the table after `i` calls. */
  ghost predicate Follows(maps: seq<seq<Mapping>>, calls: seq<Call>, i: nat)
    requires i <= |calls| && i < |maps|
  {
    forall a :: At(maps[i], a) == Table(maps, calls[..i], a)
  }

  /** The page table a map stands for. */
  function Pages(mem: seq<Mapping>): int -> Option<Page> { a => At(mem, a) }

  ghost predicate After(was: seq<Mapping>, mem: seq<Mapping>, call: Call) {
    forall a :: At(mem, a) == Effect(Pages(was), call, call.From(was), a)
  }

  lemma EffectSame(table: int -> Option<Page>, other: int -> Option<Page>, call: Call, from: int, a: int)
    requires forall b :: table(b) == other(b)
    ensures Effect(table, call, from, a) == Effect(other, call, from, a)
  {
  }

  lemma {:induction false} TableMore(maps: seq<seq<Mapping>>, mem: seq<Mapping>, calls: seq<Call>, a: int)
    requires |calls| < |maps|
    ensures Table(maps + [mem], calls, a) == Table(maps, calls, a)
    decreases |calls|
  {
    hide Effect, At, Call.From;
    if calls != [] {
      var n := |calls| - 1;
      forall b ensures Table(maps + [mem], calls[..n], b) == Table(maps, calls[..n], b) {
        TableMore(maps, mem, calls[..n], b);
      }
      EffectSame(b => Table(maps + [mem], calls[..n], b), b => Table(maps, calls[..n], b),
                 calls[n], calls[n].From(maps[n]), a);
    }
  }

  lemma FollowsNow(maps: seq<seq<Mapping>>, calls: seq<Call>, n: nat)
    requires n + 1 < |maps| && n < |calls| && After(maps[n], maps[n + 1], calls[n]) && Follows(maps, calls, n)
    ensures Follows(maps, calls, n + 1)
  {
    hide Effect, At, Call.From;
    var before, now := calls[..n], calls[..n + 1];
    assert now[..n] == before;
    var mem := maps[n + 1];
    forall a ensures At(mem, a) == Table(maps, now, a) {
      EffectSame(Pages(maps[n]), b => Table(maps, before, b), calls[n], calls[n].From(maps[n]), a);
    }
  }

  lemma FollowsOn(maps: seq<seq<Mapping>>, mem: seq<Mapping>, calls: seq<Call>)
    requires 0 < |maps| <= |calls| && After(maps[|maps| - 1], mem, calls[|maps| - 1])
    requires forall k | 0 <= k < |maps| :: Follows(maps, calls, k)
    ensures forall k | 0 <= k <= |maps| :: Follows(maps + [mem], calls, k)
  {
    hide At, Table, After;
    var more := maps + [mem];
    forall k | 0 <= k < |maps| ensures Follows(more, calls, k) {
      assert Follows(maps, calls, k) && more[k] == maps[k];
      forall a ensures At(more[k], a) == Table(more, calls[..k], a) { TableMore(maps, mem, calls[..k], a); }
    }
    FollowsNow(more, calls, |maps| - 1);
  }

  /** Without PROT_GROWSDOWN the maps in between have no part in the table. */
  lemma {:induction false} TableIsNaive(maps: seq<seq<Mapping>>, others: seq<seq<Mapping>>, calls: seq<Call>, a: int)
    requires |calls| < |maps| && |calls| < |others| && maps[0] == others[0]
    requires forall i | 0 <= i < |calls| :: !calls[i].GrowsDown()
    ensures Table(maps, calls, a) == Table(others, calls, a)
    decreases |calls|
  {
    hide Effect, At;
    if calls != [] {
      var n := |calls| - 1;
      forall b ensures Table(maps, calls[..n], b) == Table(others, calls[..n], b) {
        TableIsNaive(maps, others, calls[..n], b);
      }
      EffectSame(b => Table(maps, calls[..n], b), b => Table(others, calls[..n], b),
                 calls[n], calls[n].From(maps[n]), a);
    }
  }

  /** A segment is mapped from its start on. */
  lemma SegmentSolid(mem: seq<Mapping>, a: int)
    requires ValidMap(mem)
    ensures At(mem, a).None? ==> SegmentStart(mem, a) == a
    ensures At(mem, a).Some? ==> Solid(mem, SegmentStart(mem, a), a + 1)
  {
    if i: nat :| i < |mem| && mem[i].Has(a) {
      AtIndex(mem, i, a);
      forall b | mem[i].km.start <= b <= a ensures At(mem, b).Some? { AtIndex(mem, i, b); }
    } else {
      AtNone(mem, a);
    }
  }

  lemma SolidFrom(mem: seq<Mapping>, from: int, start: int, a: int)
    requires from <= start && Solid(mem, from, start) && from <= a
    ensures Solid(mem, start, a + 1) <==> Solid(mem, from, a + 1)
  {
    hide At;
    if Solid(mem, start, a + 1) {
      forall b | from <= b < a + 1 ensures At(mem, b).Some? { assert b < start || b >= start; }
    }
  }

  /** mprotect rewrites the pages from `from` on up to the first hole or the end of its region. */
  lemma ProtectEffect(mem: seq<Mapping>, call: Call, from: int, a: int)
    requires call.Mprotect?
    ensures var region := Region(call.addr, call.length);
      Effect(Pages(mem), call, from, a) ==
        if region.start < region.end && from <= a < region.end && Solid(mem, from, a + 1)
        then Some(At(mem, a).value.SetProt(call.prot & PROT_MASK)) else At(mem, a)
  {
    if from <= a && !Solid(mem, from, a + 1) {
      var b :| from <= b <= a && At(mem, b).None?;
      assert Pages(mem)(b).None?;
    }
  }

  /** From where a call starts, everything up to its region is mapped. */
  lemma FromSolid(mem: seq<Mapping>, call: Call)
    requires ValidMap(mem)
    ensures var start := Region(call.addr, call.length).start;
      call.From(mem) <= start && Solid(mem, call.From(mem), start)
  {
    SegmentSolid(mem, Region(call.addr, call.length).start);
  }

  lemma ProtectAt(mem: seq<Mapping>, call: Call, a: int)
    requires ValidMap(mem) && call.Mprotect?
    ensures Walked(mem, Region(call.addr, call.length), Protecting(call.prot), a)
            == Effect(Pages(mem), call, call.From(mem), a)
  {
    var region, from := Region(call.addr, call.length), call.From(mem);
    ProtectEffect(mem, call, from, a);
    FromSolid(mem, call);
    hide SegmentStart, Region, Effect, Pages;
    if from <= a {
      SolidFrom(mem, from, region.start, a);
    }
  }

  lemma ProtectIs(was: seq<Mapping>, mem: seq<Mapping>, call: Call)
    requires ValidMap(was) && call.Mprotect?
    requires forall a :: At(mem, a) == Walked(was, Region(call.addr, call.length), Protecting(call.prot), a)
    ensures After(was, mem, call)
  {
    hide At, Walked, Region, Effect, Call.From, ValidMap;
    forall a ensures At(mem, a) == Effect(Pages(was), call, call.From(was), a) {
      ProtectAt(was, call, a);
    }
  }

  /** The call does the same to the page tables of both maps. */
  ghost predicate Alike(one: seq<Mapping>, two: seq<Mapping>, call: Call) {
    forall a :: Effect(Pages(one), call, call.From(one), a) == Effect(Pages(two), call, call.From(two), a)
  }

  /** The pages of [low, high) already have the protection the call asks for. */
  ghost predicate Protected(mem: seq<Mapping>, low: int, high: int, prot: bv32) {
    forall a | low <= a < high && At(mem, a).Some? ::
      At(mem, a).value.live.prot == At(mem, a).value.recorded.prot == prot & PROT_MASK
  }

  lemma AlikeFrom(one: seq<Mapping>, two: seq<Mapping>, call: Call)
    requires ValidMap(one) && ValidMap(two) && (forall a :: At(one, a) == At(two, a)) && call.Mprotect?
    requires call.From(one) <= call.From(two)
    ensures var region := Region(call.addr, call.length);
      Alike(one, two, call) <==> region.start < region.end ==> Protected(one, call.From(one), call.From(two), call.prot)
  {
    var region, low, high := Region(call.addr, call.length), call.From(one), call.From(two);
    FromSolid(one, call);
    FromSolid(two, call);
    forall a
      ensures Effect(Pages(one), call, low, a) == Effect(Pages(two), call, high, a) <==>
        (region.start < region.end && low <= a < high ==>
          At(one, a) == Some(At(one, a).value.SetProt(call.prot & PROT_MASK)))
    {
      ProtectEffect(one, call, low, a);
      ProtectEffect(two, call, high, a);
      if high <= a { SolidFrom(one, low, high, a); }
    }
  }

  /** Exactly when two maps of the same pages are told apart by a call: one segment reaches
      further down, and a page between the two starts has another protection. */
  lemma SegmentsMatterIff(one: seq<Mapping>, two: seq<Mapping>, call: Call)
    requires ValidMap(one) && ValidMap(two) && forall a :: At(one, a) == At(two, a)
    ensures var region, low, high := Region(call.addr, call.length), call.From(one), call.From(two);
      Alike(one, two, call) <==>
        (call.Mprotect? && region.start < region.end ==>
          Protected(one, low, high, call.prot) && Protected(one, high, low, call.prot))
  {
    if call.Mprotect? {
      if call.From(one) <= call.From(two) {
        AlikeFrom(one, two, call);
      } else {
        AlikeFrom(two, one, call);
      }
    }
  }

  /** One segment or two: the pages are the same, and the call is not. */
  lemma SegmentsMatter() returns (one: seq<Mapping>, two: seq<Mapping>, call: Call)
    ensures ValidMap(one) && ValidMap(two) && call.GrowsDown()
    ensures forall a :: At(one, a) == At(two, a)
    ensures Table([one, one], [call], 0) != Table([two, two], [call], 0)
  {
    var whole := Kernel(0, 2 * PAGE, "", 0, 0, 0, 0, 0);
    var low, high := whole.Subrange(0, PAGE), whole.Subrange(PAGE, 2 * PAGE);
    var first, second := Mapping(low, low, 0), Mapping(high, high, 0);
    one, two := [Mapping(whole, whole, 0)], [first] + [second];
    call := Mprotect(PAGE, PAGE, PROT_GROWSDOWN | 1);
    forall a ensures At(one, a) == At(two, a) {
      AtConcat([first], [second], a);
    }
    assert Region(PAGE, PAGE) == Range(PAGE, 2 * PAGE);
    AtIndex(two, 1, PAGE);
    assert call.From(one) == 0 && call.From(two) == PAGE;
    assert [call][..0] == [];
    assert forall b | 0 <= b <= 0 :: Table([one, one], [], b) == At(one, b);
  }

  datatype Advice = DontFork | DoFork | WipeOnFork | KeepOnFork | Other

  lemma CoversNext(ranges: seq<Range>, i: nat, a: int)
    requires i < |ranges|
    ensures Covers(ranges[..i + 1], a) <==> Covers(ranges[..i], a) || Covers([ranges[i]], a)
  {
    assert ranges[..i + 1] == ranges[..i] + [ranges[i]];
    CoversConcat(ranges[..i], [ranges[i]], a);
  }

  ghost predicate Unmapped(before: seq<Mapping>, after: seq<Mapping>, ranges: seq<Range>) {
    forall a :: At(after, a) == if Covers(ranges, a) then None else At(before, a)
  }

  ghost predicate Minus(before: seq<Range>, after: seq<Range>, ranges: seq<Range>) {
    forall a :: Covers(after, a) <==> Covers(before, a) && !Covers(ranges, a)
  }

  ghost predicate EmptiesIn(ranges: seq<Range>, result: seq<Range>) {
    forall e | e in ranges && e.start == e.end :: e in result
  }

  lemma UnmappedNext(orig: seq<Mapping>, before: seq<Mapping>, after: seq<Mapping>, ranges: seq<Range>, i: nat)
    requires i < |ranges| && Unmapped(orig, before, ranges[..i]) && Unmapped(before, after, [ranges[i]])
    ensures Unmapped(orig, after, ranges[..i + 1])
  {
    forall a ensures At(after, a) == if Covers(ranges[..i + 1], a) then None else At(orig, a) {
      CoversNext(ranges, i, a);
      hide Covers, At;
    }
  }

  lemma MinusNext(orig: seq<Range>, before: seq<Range>, after: seq<Range>, ranges: seq<Range>, i: nat)
    requires i < |ranges| && Minus(orig, before, ranges[..i]) && Minus(before, after, [ranges[i]])
    ensures Minus(orig, after, ranges[..i + 1])
  {
    forall a ensures Covers(after, a) <==> Covers(orig, a) && !Covers(ranges[..i + 1], a) {
      CoversNext(ranges, i, a);
      hide Covers;
    }
  }

  lemma EmptiesNext(ranges: seq<Range>, before: seq<Range>, after: seq<Range>, i: nat)
    requires Sorted(ranges) && i < |ranges| && EmptiesIn(ranges, before) && KeepsEmpty(before, ranges[i], after)
    ensures EmptiesIn(ranges, after)
  {
    forall e | e in ranges && e.start == e.end ensures e in after {
      var k :| 0 <= k < |ranges| && ranges[k] == e;
      assert k < i ==> ranges[k].end <= ranges[i].start;
      assert i < k ==> ranges[i].end <= ranges[k].start;
    }
  }

  lemma CoversFirst(ranges: seq<Range>)
    requires ranges != [] && AllNonEmpty(ranges)
    ensures Covers(ranges, ranges[0].start)
  {
    assert ranges[0].Has(ranges[0].start);
  }

  lemma NothingLeft(ranges: seq<Range>, left: seq<Range>)
    requires Sorted(ranges) && Minus(ranges, left, ranges) && EmptiesIn(ranges, left)
    requires AllNonEmpty(ranges) ==> AllNonEmpty(left)
    ensures left == [] <==> AllNonEmpty(ranges)
  {
    if AllNonEmpty(ranges) && left != [] {
      CoversFirst(left);
    }
    if !AllNonEmpty(ranges) {
      var i :| 0 <= i < |ranges| && ranges[i].start >= ranges[i].end;
      assert ranges[i] in left;
    }
  }

  class AddressSpace {
    var mem: seq<Mapping>
    var dontFork: seq<Range>
    var wipeOnFork: seq<Range>

    ghost predicate Valid()
      reads this
    {
      ValidMap(mem) && Sorted(dontFork) && Sorted(wipeOnFork)
    }

    constructor ()
      ensures Valid() && mem == [] && dontFork == [] && wipeOnFork == []
    {
      mem, dontFork, wipeOnFork := [], [], [];
    }

    constructor CopyOf(o: AddressSpace)
      requires o.Valid()
      ensures Valid() && mem == o.mem && dontFork == o.dontFork && wipeOnFork == o.wipeOnFork
    {
      mem, dontFork, wipeOnFork := o.mem, o.dontFork, o.wipeOnFork;
    }

    method LowerBound(range: Range) returns (n: nat)
      requires ValidMap(mem) && range.start < range.end
      ensures Next(mem, range.start, n)
    {
      n := 0;
      while n < |mem| && Precedes(mem[n].km.AsRange(), range)
        invariant n <= |mem|
        invariant forall j | 0 <= j < n :: mem[j].km.end <= range.start
      {
        assert mem[n].Valid();
        n := n + 1;
      }
      assert n < |mem| ==> mem[n].Valid();
    }

    /** for_each_in_range with the callback of unmap_internal or of protect. */
    method ForEachInRange(addr: nat, length: nat, action: Action) returns (lastOverlap: Range)
      requires ValidMap(mem)
      modifies `mem
      ensures ValidMap(mem)
      ensures forall a :: At(mem, a) == Walked(old(mem), Region(addr, length), action, a)
      ensures lastOverlap.start < lastOverlap.end ==> At(mem, lastOverlap.start).Some?
    {
      var region := Region(addr, length);
      var pos := region.start;
      lastOverlap := Range(0, 0);
      ghost var i: nat := 0;
      while pos < region.end
        invariant Walking(old(mem), mem, region, action, pos)
        invariant lastOverlap.start < lastOverlap.end ==> action.Protecting? && At(old(mem), lastOverlap.start).Some?
        decreases region.end - pos
      {
        hide *;
        var n := LowerBound(Range(pos, region.end));
        i := n;
        if !Continues(mem, region, action, pos, n) {
          break;
        }
        StepKeeps(old(mem), mem, region, action, pos, n);
        var r := Piece(mem, region, action, pos, n);
        if action.Protecting? {
          PieceMapped(old(mem), mem, region, action, pos, n);
          lastOverlap := Range(r.start, if r.end <= mem[n].km.end then r.end else mem[n].km.end);
        }
        pos := mem[n].km.end;
        mem := Replace(mem, n, Pieces(mem[n], r, action));
      }
      WalkEnds(old(mem), mem, region, action, pos, i);
    }

    /** mem.find: the mapping that overlaps `range`. */
    method Find(range: Range) returns (n: nat)
      requires ValidMap(mem) && range.start < range.end && At(mem, range.start).Some?
      ensures n < |mem| && mem[n].Has(range.start)
    {
      n := LowerBound(range);
      if n == |mem| || range.start < mem[n].km.start {
        GapAt(mem, range.start, n, range.start);
      }
    }

    /** Replaces the maximal chain of coalescable neighbours of mapping `i` by one mapping. */
    method CoalesceAround(i: nat) returns (first: nat, last: nat)
      requires ValidMap(mem) && i < |mem|
      modifies `mem
      ensures first <= i <= last && MaximalChain(old(mem), first, last) && mem == Merge(old(mem), first, last)
      ensures ValidMap(mem) && forall a :: At(mem, a) == At(old(mem), a)
    {
      first := i;
      while first > 0 && Coalescable(mem[first - 1], mem[first])
        invariant first <= i && Chain(mem, first, i)
      {
        first := first - 1;
      }
      last := i;
      while last + 1 < |mem| && Coalescable(mem[last], mem[last + 1])
        invariant i <= last && Chain(mem, first, last)
      {
        last := last + 1;
      }
      assert MaximalChain(mem, first, last);
      forall a ensures At(Merge(mem, first, last), a) == At(mem, a) { MergeAt(mem, first, last, a); }
      MergeValid(mem, first, last);
      hide At, ValidMap, MaximalChain, Chain, Coalescable;
      if first == last {
        assert Merge(mem, first, last) == mem;
        return;
      }
      mem := Merge(mem, first, last);
    }

    method Protect(addr: nat, length: nat, prot: bv32)
      requires Valid()
      modifies `mem
      ensures Valid()
      ensures forall a :: At(mem, a) == Walked(old(mem), Region(addr, length), Protecting(prot), a)
    {
      var lastOverlap := ForEachInRange(addr, length, Protecting(prot));
      if lastOverlap.start < lastOverlap.end {
        var i := Find(lastOverlap);
        var first, last := CoalesceAround(i);
      }
    }

    method ForgetAdvice(range: Range)
      requires Valid() && range.Valid()
      modifies `dontFork, `wipeOnFork
      ensures Valid()
      ensures forall a :: Covers(dontFork, a) <==> Covers(old(dontFork), a) && !range.Has(a)
      ensures forall a :: Covers(wipeOnFork, a) <==> Covers(old(wipeOnFork), a) && !range.Has(a)
      ensures AllNonEmpty(old(dontFork)) ==> AllNonEmpty(dontFork)
      ensures KeepsEmpty(old(dontFork), range, dontFork)
      ensures AllAligned(old(dontFork)) && range.Aligned() ==> AllAligned(dontFork)
    {
      hide Covers, Sorted;
      dontFork := RemoveRange(dontFork, range);
      wipeOnFork := RemoveRange(wipeOnFork, range);
    }

    method Unmap(addr: nat, length: nat)
      requires Valid()
      modifies this
      ensures Valid()
      ensures forall a ::
        At(mem, a) == if length > 0 && Region(addr, CeilPage(length)).Has(a) then None else At(old(mem), a)
      ensures forall a :: Covers(dontFork, a) <==> Covers(old(dontFork), a) && !(addr <= a < addr + CeilPage(length))
      ensures forall a :: Covers(wipeOnFork, a) <==>
        Covers(old(wipeOnFork), a) && !(addr <= a < addr + CeilPage(length))
      ensures AllNonEmpty(old(dontFork)) ==> AllNonEmpty(dontFork)
      ensures KeepsEmpty(old(dontFork), Range(addr, addr + CeilPage(length)), dontFork)
      ensures AllAligned(old(dontFork)) && addr % PAGE == 0 ==> AllAligned(dontFork)
    {
      var size := CeilPage(length);
      if size == 0 {
        return;
      }
      ForgetAdvice(Range(addr, addr + size));
      var _ := ForEachInRange(addr, size, Unmapping);
      hide At, Covers, Region, CeilPage;
    }

    method Map(call: Call)
      requires Valid() && call.Mmap? && call.Legal()
      modifies this
      ensures Valid()
      ensures forall a :: At(mem, a) == if call.NewMapping().Has(a) then Some(NewPage(call, a)) else At(old(mem), a)
      ensures forall a :: Covers(dontFork, a) <==> Covers(old(dontFork), a) && !call.NewMapping().Has(a)
      ensures forall a :: Covers(wipeOnFork, a) <==> Covers(old(wipeOnFork), a) && !call.NewMapping().Has(a)
      ensures AllNonEmpty(old(dontFork)) ==> AllNonEmpty(dontFork)
      ensures AllAligned(old(dontFork)) ==> AllAligned(dontFork)
    {
      var m := call.NewMapping();
      if m.km.start == m.km.end {
        return;
      }
      ForgetAdvice(m.km.AsRange());
      var _ := ForEachInRange(call.addr, CeilPage(call.length), Unmapping);
      var n := LowerBound(m.km.AsRange());
      InsertValid(mem, n, m);
      forall a ensures At(Insert(mem, n, m), a) == if m.Has(a) then Some(NewPage(call, a)) else At(mem, a) {
        InsertAt(mem, n, m, a);
        NewPageIs(call, a);
        hide At, NewPage, PageOf, ValidMap;
      }
      hide At, NewPage, ValidMap, Walked;
      mem := Insert(mem, n, m);
      var first, last := CoalesceAround(n);
      hide At, Covers, PageOf;
    }

    method PerformOne(call: Call)
      requires Valid() && call.Legal()
      modifies this
      ensures Valid() && After(old(mem), mem, call)
    {
      match call
      case Mmap(_, _, _, _, _, _, _, _, _) => Map(call);
      case Munmap(addr, length) => Unmap(addr, length);
      case Mprotect(addr, length, prot) =>
        Protect(addr, length, prot);
        ProtectIs(old(mem), mem, call);
    }

    /** From any memory map, before and after each of any calls it stands for the naive page table. */
    method Perform(calls: seq<Call>) returns (ghost maps: seq<seq<Mapping>>)
      requires Valid() && forall i | 0 <= i < |calls| :: calls[i].Legal()
      modifies this
      ensures Valid()
      ensures |maps| == |calls| + 1 && maps[0] == old(mem) && maps[|calls|] == mem
      ensures forall i | 0 <= i <= |calls| :: Follows(maps, calls, i)
    {
      maps := [mem];
      hide After, Call.Legal, Valid;
      for i := 0 to |calls|
        invariant Valid()
        invariant |maps| == i + 1 && maps[0] == old(mem) && maps[i] == mem
        invariant forall k | 0 <= k <= i :: Follows(maps, calls, k)
      {
        PerformOne(calls[i]);
        FollowsOn(maps, mem, calls);
        maps := maps + [mem];
      }
    }

    method Advise(addr: nat, length: nat, advice: Advice)
      requires Valid()
      modifies `dontFork, `wipeOnFork
      ensures Valid()
      ensures forall a :: Covers(dontFork, a) <==>
        (Covers(old(dontFork), a) && !(advice == DoFork && addr <= a < addr + CeilPage(length)))
        || (advice == DontFork && addr <= a < addr + CeilPage(length))
      ensures forall a :: Covers(wipeOnFork, a) <==>
        (Covers(old(wipeOnFork), a) && !(advice == KeepOnFork && addr <= a < addr + CeilPage(length)))
        || (advice == WipeOnFork && addr <= a < addr + CeilPage(length))
      ensures AllNonEmpty(old(dontFork)) ==> (AllNonEmpty(dontFork) <==> advice != DontFork || length > 0)
      ensures AllAligned(old(dontFork)) && addr % PAGE == 0 ==> AllAligned(dontFork)
    {
      hide Covers, Sorted;
      var range := Range(addr, addr + CeilPage(length));
      match advice
      case DontFork => dontFork := AddRange(dontFork, range);
      case DoFork => dontFork := RemoveRange(dontFork, range);
      case WipeOnFork => wipeOnFork := AddRange(wipeOnFork, range);
      case KeepOnFork => wipeOnFork := RemoveRange(wipeOnFork, range);
      case Other =>
    }

    /** The child of a fork: exactly the parent's pages without MADV_DONTFORK, still wiped on
        fork exactly where it survives, and with no MADV_DONTFORK address of its own. Its set of
        such ranges is empty exactly when the parent's holds no empty range. */
    method DidForkInto(child: AddressSpace)
      requires child != this && Valid() && child.Valid()
      requires child.mem == mem && child.dontFork == dontFork && AllAligned(dontFork)
      modifies child
      ensures child.Valid()
      ensures forall a :: At(child.mem, a) == if Covers(dontFork, a) then None else At(mem, a)
      ensures forall a :: Covers(child.wipeOnFork, a) <==> Covers(wipeOnFork, a) && !Covers(dontFork, a)
      ensures forall a :: !Covers(child.dontFork, a)
      ensures child.dontFork == [] <==> AllNonEmpty(dontFork)
    {
      child.wipeOnFork := wipeOnFork;
      for i := 0 to |dontFork|
        invariant child.Valid()
        invariant Unmapped(mem, child.mem, dontFork[..i])
        invariant Minus(wipeOnFork, child.wipeOnFork, dontFork[..i])
        invariant Minus(dontFork, child.dontFork, dontFork[..i])
        invariant AllNonEmpty(dontFork) ==> AllNonEmpty(child.dontFork)
        invariant EmptiesIn(dontFork, child.dontFork)
      {
        hide *;
        ghost var before, wipe, dont := child.mem, child.wipeOnFork, child.dontFork;
        UnmapRange(child, i);
        UnmappedNext(mem, before, child.mem, dontFork, i);
        MinusNext(wipeOnFork, wipe, child.wipeOnFork, dontFork, i);
        MinusNext(dontFork, dont, child.dontFork, dontFork, i);
        EmptiesNext(dontFork, dont, child.dontFork, i);
      }
      assert dontFork[..|dontFork|] == dontFork;
      hide At, ValidMap, Sorted;
      NothingLeft(dontFork, child.dontFork);
    }

    method UnmapRange(child: AddressSpace, i: nat)
      requires child != this && Sorted(dontFork) && child.Valid() && i < |dontFork| && AllAligned(dontFork)
      modifies child
      ensures child.Valid()
      ensures Unmapped(old(child.mem), child.mem, [dontFork[i]])
      ensures Minus(old(child.wipeOnFork), child.wipeOnFork, [dontFork[i]])
      ensures Minus(old(child.dontFork), child.dontFork, [dontFork[i]])
      ensures AllNonEmpty(old(child.dontFork)) ==> AllNonEmpty(child.dontFork)
      ensures KeepsEmpty(old(child.dontFork), dontFork[i], child.dontFork)
    {
      var range := dontFork[i];
      assert range.Aligned() && range.Valid();
      assert range.start + CeilPage(range.end - range.start) == range.end;
      assert Region(range.start, CeilPage(range.end - range.start)) == range;
      hide At, Sorted, ValidMap, AllNonEmpty, AllAligned, Region, CeilPage;
      child.Unmap(range.start, range.end - range.start);
      forall a ensures Covers([range], a) <==> range.Has(a) {
        assert [range][0] == range;
      }
    }
  }
}
