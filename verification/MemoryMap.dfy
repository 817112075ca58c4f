/**
 The tracee's memory map as an ordered sequence of mappings, and what it says about
 every single address: the page table it stands for.
 */
module MemoryMap {
  import opened Options
  import opened MemoryRange

  const MAP_GROWSDOWN: bv32 := 0x100
  const MAP_FLAGS_MASK: bv32 := 0x24123   // ANONYMOUS, NORESERVE, PRIVATE, SHARED, STACK, GROWSDOWN
  const PROT_GROWSDOWN: bv32 := 0x0100_0000
  const PROT_MASK: bv32 := 7              // READ, WRITE, EXEC

  /** KernelMapping: one mapping as the kernel, or the recording, describes it. */
  datatype Kernel = Kernel(
    start: nat, end: nat, name: string, device: nat, inode: nat, prot: bv32, flags: bv32, offset: nat)
  {
    predicate Real() { device > 0 }

    function AsRange(): Range { Range(start, end) }

    function Subrange(from: nat, to: nat): Kernel
      requires start <= from <= to <= end
    {
      Kernel(from, to, name, device, inode, prot, flags, offset + if Real() then from - start else 0)
    }

    function Extend(to: nat): Kernel { this.(end := to) }

    function SetProt(p: bv32): Kernel { this.(prot := p) }
  }

  /** `km` in this session, `recorded` in the recording; `flags` marks special mappings. */
  datatype Mapping = Mapping(km: Kernel, recorded: Kernel, flags: bv32) {
    predicate Has(a: int) { km.start <= a < km.end }

    predicate Valid() {
      && km.start < km.end
      && km.start % PAGE == 0 && km.end % PAGE == 0
      && recorded.start == km.start && recorded.end == km.end
    }

    function Subrange(from: nat, to: nat): Mapping
      requires km.start <= from <= to <= km.end && recorded.start == km.start && recorded.end == km.end
    {
      Mapping(km.Subrange(from, to), recorded.Subrange(from, to), flags)
    }

    function SetProt(p: bv32): Mapping { Mapping(km.SetProt(p), recorded.SetProt(p), flags) }

    function Extend(to: nat): Mapping { Mapping(km.Extend(to), recorded.Extend(to), flags) }
  }

  // ------------------------------------------------------------------ page table

  /** What one side says about one address; the offset only where a real device backs it. */
  datatype Side = Side(prot: bv32, flags: bv32, device: nat, inode: nat, offset: int)

  datatype Page = Page(live: Side, recorded: Side, flags: bv32) {
    function SetProt(p: bv32): Page { Page(live.(prot := p), recorded.(prot := p), flags) }
  }

  function SideAt(k: Kernel, a: int): Side {
    Side(k.prot, k.flags, k.device, k.inode, if k.Real() then k.offset + (a - k.start) else 0)
  }

  function PageOf(m: Mapping, a: int): Page {
    Page(SideAt(m.km, a), SideAt(m.recorded, a), m.flags)
  }

  /** The page table entry of address `a`. */
  function At(mem: seq<Mapping>, a: int): Option<Page> {
    if mem == [] then None
    else if mem[0].Has(a) then Some(PageOf(mem[0], a))
    else At(mem[1..], a)
  }

  /** Where the mapping that holds address `a` starts; `a` itself where nothing is mapped. */
  function SegmentStart(mem: seq<Mapping>, a: int): (start: int)
    ensures start <= a
  {
    if mem == [] then a else if mem[0].Has(a) then mem[0].km.start else SegmentStart(mem[1..], a)
  }

  /** Non-empty, page-aligned, ordered and disjoint. */
  ghost predicate ValidMap(mem: seq<Mapping>) {
    && (forall i | 0 <= i < |mem| :: mem[i].Valid())
    && (forall i, j | 0 <= i < j < |mem| :: mem[i].km.end <= mem[j].km.start)
  }

  lemma {:induction false} AtConcat(left: seq<Mapping>, right: seq<Mapping>, a: int)
    ensures At(left + right, a) == if At(left, a).Some? then At(left, a) else At(right, a)
  {
    hide PageOf;
    if left == [] {
      assert left + right == right;
    } else {
      AtConcat(left[1..], right, a);
      assert (left + right)[1..] == left[1..] + right;
    }
  }

  lemma {:induction false} AtNone(mem: seq<Mapping>, a: int)
    requires forall i | 0 <= i < |mem| :: !mem[i].Has(a)
    ensures At(mem, a) == None && SegmentStart(mem, a) == a
  {
    if mem != [] {
      AtNone(mem[1..], a);
    }
  }

  lemma {:induction false} AtIndex(mem: seq<Mapping>, i: nat, a: int)
    requires ValidMap(mem) && i < |mem| && mem[i].Has(a)
    ensures At(mem, a) == Some(PageOf(mem[i], a)) && SegmentStart(mem, a) == mem[i].km.start
  {
    hide PageOf;
    if i > 0 {
      AtIndex(mem[1..], i - 1, a);
    }
  }

  /** The pieces lie inside `m`. */
  ghost predicate Within(pieces: seq<Mapping>, m: Mapping) {
    forall i | 0 <= i < |pieces| :: m.km.start <= pieces[i].km.start && pieces[i].km.end <= m.km.end
  }

  function Replace(mem: seq<Mapping>, i: nat, pieces: seq<Mapping>): seq<Mapping>
    requires i < |mem|
  {
    mem[..i] + pieces + mem[i + 1..]
  }

  lemma ReplaceValid(mem: seq<Mapping>, i: nat, pieces: seq<Mapping>)
    requires ValidMap(mem) && i < |mem| && ValidMap(pieces) && Within(pieces, mem[i])
    ensures ValidMap(Replace(mem, i, pieces))
  {
    var r := Replace(mem, i, pieces);
    assert forall k | 0 <= k < |r| ::
      r[k] == if k < i then mem[k] else if k < i + |pieces| then pieces[k - i] else mem[k - |pieces| + 1];
    hide Mapping.Valid;
  }

  lemma ReplaceAt(mem: seq<Mapping>, i: nat, pieces: seq<Mapping>, a: int)
    requires ValidMap(mem) && i < |mem| && Within(pieces, mem[i])
    ensures At(Replace(mem, i, pieces), a) == if mem[i].Has(a) then At(pieces, a) else At(mem, a)
  {
    hide At, PageOf;
    AtConcat(mem[..i] + pieces, mem[i + 1..], a);
    AtConcat(mem[..i], pieces, a);
    AtConcat(mem[..i], [mem[i]] + mem[i + 1..], a);
    AtConcat([mem[i]], mem[i + 1..], a);
    assert mem[..i] + ([mem[i]] + mem[i + 1..]) == mem;
    if mem[i].Has(a) {
      AtNone(mem[..i], a);
      AtNone(mem[i + 1..], a);
    } else {
      AtNone([mem[i]], a);
      AtNone(pieces, a);
    }
  }

  // --------------------------------------------------------- munmap and mprotect

  /** What is done to the part of a mapping that lies in the region. */
  datatype Action = Unmapping | Protecting(prot: bv32) {
    predicate GrowsDown() { Protecting? && prot & PROT_GROWSDOWN != 0 }

    function Rewrite(page: Option<Page>): Option<Page> {
      if Protecting? && page.Some? then Some(page.value.SetProt(prot & PROT_MASK)) else None
    }
  }

  /** The part of `m` that is rewritten when `rem` remains to be examined. */
  function Affected(m: Mapping, rem: Range, action: Action): Range {
    Range(if action.GrowsDown() && m.km.start < rem.start then m.km.start else rem.start, rem.end)
  }

  predicate Hits(m: Mapping, r: Range) {
    m.Valid() && r.start < r.end && r.Aligned() && m.km.start < r.end && r.start < m.km.end
  }

  function Underflow(m: Mapping, r: Range): seq<Mapping>
    requires Hits(m, r)
  {
    if m.km.start < r.start then [m.Subrange(m.km.start, r.start)] else []
  }

  function Overflow(m: Mapping, r: Range): seq<Mapping>
    requires Hits(m, r)
  {
    if r.end < m.km.end then [m.Subrange(r.end, m.km.end)] else []
  }

  function Overlap(m: Mapping, r: Range, action: Action): seq<Mapping>
    requires Hits(m, r) && (action.Protecting? ==> m.km.start <= r.start)
  {
    match action
    case Unmapping => []
    case Protecting(prot) =>
      [m.Subrange(r.start, if r.end <= m.km.end then r.end else m.km.end).SetProt(prot & PROT_MASK)]
  }

  function Pieces(m: Mapping, r: Range, action: Action): seq<Mapping>
    requires Hits(m, r) && (action.Protecting? ==> m.km.start <= r.start)
  {
    Underflow(m, r) + Overlap(m, r, action) + Overflow(m, r)
  }

  /** A piece of a mapping says the same about its addresses. */
  lemma SubrangePage(m: Mapping, from: nat, to: nat, a: int)
    requires m.Valid() && m.km.start <= from <= to <= m.km.end
    ensures PageOf(m.Subrange(from, to), a) == PageOf(m, a)
  {
  }

  lemma PiecesValid(m: Mapping, r: Range, action: Action)
    requires Hits(m, r) && (action.Protecting? ==> m.km.start <= r.start)
    ensures ValidMap(Pieces(m, r, action)) && Within(Pieces(m, r, action), m)
  {
    var low, mid, high := Underflow(m, r), Overlap(m, r, action), Overflow(m, r);
    var pieces := Pieces(m, r, action);
    assert |low| <= 1 && |mid| <= 1 && |high| <= 1;
    assert forall i | 0 <= i < |low| :: low[i].Valid() && m.km.start == low[i].km.start && low[i].km.end == r.start;
    assert forall i | 0 <= i < |mid| ::
      mid[i].Valid() && m.km.start <= mid[i].km.start == r.start && mid[i].km.end <= r.end && mid[i].km.end <= m.km.end;
    assert forall i | 0 <= i < |high| :: high[i].Valid() && high[i].km.start == r.end && high[i].km.end == m.km.end;
    hide Underflow, Overlap, Overflow, Mapping.Valid;
    assert forall i | 0 <= i < |pieces| ::
      pieces[i] == if i < |low| then low[i] else if i < |low| + |mid| then mid[i - |low|] else high[i - |low| - |mid|];
  }

  lemma UnderflowAt(m: Mapping, r: Range, a: int)
    requires Hits(m, r) && m.Has(a)
    ensures At(Underflow(m, r), a) == if a < r.start then Some(PageOf(m, a)) else None
  {
    if m.km.start < r.start { SubrangePage(m, m.km.start, r.start, a); }
    hide PageOf;
  }

  lemma OverflowAt(m: Mapping, r: Range, a: int)
    requires Hits(m, r) && m.Has(a)
    ensures At(Overflow(m, r), a) == if r.end <= a then Some(PageOf(m, a)) else None
  {
    if r.end < m.km.end { SubrangePage(m, r.end, m.km.end, a); }
    hide PageOf;
  }

  lemma OverlapAt(m: Mapping, r: Range, action: Action, a: int)
    requires Hits(m, r) && m.Has(a) && (action.Protecting? ==> m.km.start <= r.start)
    ensures At(Overlap(m, r, action), a) == if r.Has(a) then action.Rewrite(Some(PageOf(m, a))) else None
  {
    if action.Protecting? {
      var piece := m.Subrange(r.start, if r.end <= m.km.end then r.end else m.km.end);
      SubrangePage(m, r.start, piece.km.end, a);
      assert PageOf(piece.SetProt(action.prot & PROT_MASK), a) == PageOf(m, a).SetProt(action.prot & PROT_MASK);
      assert Overlap(m, r, action) == [piece.SetProt(action.prot & PROT_MASK)];
      hide PageOf, Page.SetProt;
    }
  }

  /** Splitting a mapping around a range rewrites exactly the pages in the range. */
  lemma PiecesAt(m: Mapping, r: Range, action: Action, a: int)
    requires Hits(m, r) && m.Has(a) && (action.Protecting? ==> m.km.start <= r.start)
    ensures At(Pieces(m, r, action), a) == if r.Has(a) then action.Rewrite(Some(PageOf(m, a))) else Some(PageOf(m, a))
  {
    hide At, PageOf, Hits, Underflow, Overlap, Overflow, Action.Rewrite, Page.SetProt;
    AtConcat(Underflow(m, r) + Overlap(m, r, action), Overflow(m, r), a);
    AtConcat(Underflow(m, r), Overlap(m, r, action), a);
    UnderflowAt(m, r, a);
    OverlapAt(m, r, action, a);
    OverflowAt(m, r, a);
  }

  // ------------------------------------------------------------------ coalescing

  predicate OccursAt(text: string, what: string, i: nat) {
    i + |what| <= |text| && text[i..i + |what|] == what
  }

  const DELETED := " (deleted)"

  /** strip_deleted: drops the suffix when its first occurrence is at the very end. */
  function StripDeleted(name: string): string {
    if |name| >= |DELETED| && OccursAt(name, DELETED, |name| - |DELETED|)
       && forall i: nat | i < |name| - |DELETED| :: !OccursAt(name, DELETED, i)
    then name[..|name| - |DELETED|]
    else name
  }

  predicate IsStack(name: string) { "[stack" <= name }

  /** normalized_file_names_equal with RESPECT_HEAP. */
  predicate SameName(left: Kernel, right: Kernel) {
    IsStack(left.name) || IsStack(right.name) || StripDeleted(left.name) == StripDeleted(right.name)
  }

  /** is_adjacent_mapping with RESPECT_HEAP and all flags checked. */
  predicate Adjacent(left: Kernel, right: Kernel) {
    && left.end == right.start
    && left.flags == right.flags && left.prot == right.prot
    && SameName(left, right)
    && left.device == right.device && left.inode == right.inode
    && (left.Real() ==> left.offset + (left.end - left.start) == right.offset)
  }

  predicate Coalescable(left: Mapping, right: Mapping) {
    && Adjacent(left.km, right.km)
    && Adjacent(left.recorded, right.recorded)
    && left.flags == right.flags
  }

  /** `mem[first..last + 1]` is a chain of neighbours, each coalescable with the next. */
  ghost predicate Chain(mem: seq<Mapping>, first: nat, last: nat) {
    first <= last < |mem| && forall i | first <= i < last :: Coalescable(mem[i], mem[i + 1])
  }

  /** Neither end of the chain can be extended. */
  ghost predicate MaximalChain(mem: seq<Mapping>, first: nat, last: nat) {
    && Chain(mem, first, last)
    && (first > 0 ==> !Coalescable(mem[first - 1], mem[first]))
    && (last + 1 < |mem| ==> !Coalescable(mem[last], mem[last + 1]))
  }

  /** Offsets telescope: every mapping of a chain says about an address what the first says. */
  lemma {:induction false} ChainPage(mem: seq<Mapping>, first: nat, last: nat, a: int)
    requires ValidMap(mem) && Chain(mem, first, last)
    ensures PageOf(mem[last], a) == PageOf(mem[first], a)
    decreases last
  {
    if first < last {
      ChainPage(mem, first, last - 1, a);
      assert Coalescable(mem[last - 1], mem[last]);
      assert mem[last - 1].Valid();
      hide ValidMap, SameName;
    }
  }

  /** A chain covers its span without gaps. */
  lemma {:induction false} ChainCovers(mem: seq<Mapping>, first: nat, last: nat, a: int) returns (i: nat)
    requires ValidMap(mem) && Chain(mem, first, last) && mem[first].km.start <= a < mem[last].km.end
    ensures first <= i <= last && mem[i].Has(a)
    decreases last
  {
    if mem[last].Has(a) {
      i := last;
    } else {
      assert Coalescable(mem[last - 1], mem[last]);
      i := ChainCovers(mem, first, last - 1, a);
    }
  }

  function Merge(mem: seq<Mapping>, first: nat, last: nat): seq<Mapping>
    requires first <= last < |mem|
  {
    mem[..first] + [mem[first].Extend(mem[last].km.end)] + mem[last + 1..]
  }

  lemma MergeValid(mem: seq<Mapping>, first: nat, last: nat)
    requires ValidMap(mem) && Chain(mem, first, last)
    ensures ValidMap(Merge(mem, first, last))
  {
    var r := Merge(mem, first, last);
    assert mem[first].Valid() && mem[last].Valid();
    assert mem[first].km.end <= mem[last].km.end by {
      if first < last { assert mem[first].km.end <= mem[last].km.start; }
    }
    assert r[first].Valid();
    assert forall k | 0 <= k < |r| ::
      if k < first then r[k] == mem[k]
      else if k == first then r[k].km.start == mem[first].km.start && r[k].km.end == mem[last].km.end
      else r[k] == mem[k - first + last];
    hide Chain, Mapping.Valid, Mapping.Extend;
  }

  lemma MergeAtInside(mem: seq<Mapping>, first: nat, last: nat, a: int)
    requires ValidMap(mem) && Chain(mem, first, last) && mem[first].km.start <= a < mem[last].km.end
    ensures At(Merge(mem, first, last), a) == At(mem, a)
  {
    MergeValid(mem, first, last);
    hide PageOf, At, Chain, ValidMap, SegmentStart;
    var i := ChainCovers(mem, first, last, a);
    AtIndex(mem, i, a);
    AtIndex(Merge(mem, first, last), first, a);
    ChainPrefix(mem, first, i, last);
    ChainPage(mem, first, i, a);
    ExtendPage(mem[first], mem[last].km.end, a);
  }

  /** Merging a chain leaves the page table as it was. */
  lemma MergeAt(mem: seq<Mapping>, first: nat, last: nat, a: int)
    requires ValidMap(mem) && Chain(mem, first, last)
    ensures At(Merge(mem, first, last), a) == At(mem, a)
  {
    assert first <= last < |mem|;
    hide PageOf, At, Chain, SegmentStart, ValidMap;
    if mem[first].km.start <= a < mem[last].km.end {
      MergeAtInside(mem, first, last, a);
    } else {
      var low, span, high := mem[..first], mem[first..last + 1], mem[last + 1..];
      SpanMisses(mem, first, last, span, a);
      SwapAt(low, span, high, [mem[first].Extend(mem[last].km.end)], a);
      assert low + span + high == mem;
    }
  }

  lemma SpanMisses(mem: seq<Mapping>, first: nat, last: nat, span: seq<Mapping>, a: int)
    requires ValidMap(mem) && first <= last < |mem| && !(mem[first].km.start <= a < mem[last].km.end)
    requires span == mem[first..last + 1]
    ensures forall i | 0 <= i < |span| :: !span[i].Has(a)
  {
    forall i | 0 <= i < |span| ensures !span[i].Has(a) {
      InsideSpan(mem, first, first + i, last);
      hide ValidMap;
    }
  }

  /** Exchanging parts that do not hold an address does not change its page. */
  lemma SwapAt(low: seq<Mapping>, mid: seq<Mapping>, high: seq<Mapping>, other: seq<Mapping>, a: int)
    requires forall i | 0 <= i < |mid| :: !mid[i].Has(a)
    requires forall i | 0 <= i < |other| :: !other[i].Has(a)
    ensures At(low + mid + high, a) == At(low + other + high, a)
  {
    AtNone(mid, a);
    AtNone(other, a);
    AtConcat(low + mid, high, a);
    AtConcat(low, mid, a);
    AtConcat(low + other, high, a);
    AtConcat(low, other, a);
    hide *;
  }

  lemma InsideSpan(mem: seq<Mapping>, first: nat, i: nat, last: nat)
    requires ValidMap(mem) && first <= i <= last < |mem|
    ensures mem[first].km.start <= mem[i].km.start && mem[i].km.end <= mem[last].km.end
  {
    assert mem[first].Valid() && mem[i].Valid() && mem[last].Valid();
  }

  lemma ChainPrefix(mem: seq<Mapping>, first: nat, i: nat, last: nat)
    requires Chain(mem, first, last) && first <= i <= last
    ensures Chain(mem, first, i)
  {
  }

  lemma ExtendPage(m: Mapping, to: nat, a: int)
    ensures PageOf(m.Extend(to), a) == PageOf(m, a)
  {
  }
}
