/**
 Searching the address space for free memory: the randomised two-direction search of chaos
 mode and the first-fit search for rr's own mappings.
 */
module FreeMemory {
  import opened Options
  import opened MemoryRange
  import opened MemoryMap
  import opened MapWalk

  datatype Arch = X86 | X86_64 | Aarch64 {
    /** One past the last address user space can have. */
    function AddressLimit(): nat {
      match this
      case X86 => 0x1_0000_0000
      case X86_64 => 0x8000_0000_0000
      case Aarch64 => 0x1_0000_0000_0000
    }

    function UsableEnd(): nat { AddressLimit() - PAGE }

    /** The rr page and the pages around it that belong to the preload library. */
    function RrPages(): Range {
      var size := if this == Aarch64 then 65536 else 4096;
      Range(0x7000_0000 - size, 0x7000_0000 + size)
    }
  }

  const ADDR_SPACE_START := 0x40000
  const MIN_STACK_SIZE := 8 * 1024 * 1024
  const ALL_MEMORY := Range(0, 0xffff_ffff_ffff_ffff)

  /** The window of chaos mode leaves the last three usable pages alone. */
  function WindowEnd(arch: Arch): nat { arch.UsableEnd() - 3 * PAGE }

  /** adjust_range_for_stack_growth: subtracting from a small address wraps around 64 bits. */
  function Grown(k: Kernel): (r: Range)
    ensures r.start <= k.start && r.end == k.end
    ensures k.flags & MAP_GROWSDOWN != 0 && k.end >= MIN_STACK_SIZE ==> r.end - r.start >= MIN_STACK_SIZE
    ensures r.start < k.start <= k.end ==> k.flags & MAP_GROWSDOWN != 0 && r.end - r.start == MIN_STACK_SIZE
  {
    var low := if k.end >= MIN_STACK_SIZE then k.end - MIN_STACK_SIZE
               else k.end + 0x1_0000_0000_0000_0000 - MIN_STACK_SIZE;
    Range(if k.flags & MAP_GROWSDOWN != 0 && low < k.start then low else k.start, k.end)
  }

  /** What the search must keep away from besides mappings. */
  datatype Reserved = Reserved(rrPages: Range, exclusion: Range, excluded: seq<Range>) {
    ghost predicate Has(r: Range) { r == rrPages || r == exclusion || r in excluded }
  }

  /** The block of `len` bytes at `p` touches `r`. */
  predicate Blocks(r: Range, p: nat, len: nat) { r.start < p + len && p < r.end }

  /** No mapping and no reserved range touches the block. */
  ghost predicate Free(mem: seq<Mapping>, reserved: Reserved, p: nat, len: nat) {
    && (forall i | 0 <= i < |mem| :: !Blocks(mem[i].km.AsRange(), p, len))
    && (forall r | reserved.Has(r) :: !Range(p, p + len).Intersects(r))
  }

  /** Some mapping, with room to grow, or some reserved range touches the block. */
  ghost predicate Taken(mem: seq<Mapping>, reserved: Reserved, p: nat, len: nat) {
    || (exists i :: 0 <= i < |mem| && Blocks(Grown(mem[i].km), p, len))
    || (exists r :: reserved.Has(r) && Range(p, p + len).Intersects(r))
  }

  /** `o` is a mapping with room to grow, or a reserved range that can be in the way of `len` bytes. */
  ghost predicate InTheWay(mem: seq<Mapping>, reserved: Reserved, len: nat, o: Range) {
    || (exists i :: 0 <= i < |mem| && o == Grown(mem[i].km))
    || (reserved.Has(o) && o.start < o.end && len > 0)
  }

  /** maps_containing_or_after: the first mapping that ends behind `addr`. */
  method ContainingOrAfter(mem: seq<Mapping>, addr: nat) returns (n: nat)
    requires ValidMap(mem)
    ensures Next(mem, addr, n)
  {
    n := 0;
    while n < |mem| && mem[n].km.end <= addr
      invariant n <= |mem| && forall j | 0 <= j < n :: mem[j].km.end <= addr
    {
      n := n + 1;
    }
  }

  /** overlaps_excluded_range: some excluded range that intersects `range`, if there is one. */
  method OverlapsExcluded(excluded: seq<Range>, range: Range) returns (r: Option<Range>)
    ensures r.Some? ==> r.value in excluded && r.value.Intersects(range)
    ensures r.None? ==> forall e | e in excluded :: !e.Intersects(range)
  {
    for i := 0 to |excluded|
      invariant forall j | 0 <= j < i :: !excluded[j].Intersects(range)
    {
      if excluded[i].Intersects(range) {
        return Some(excluded[i]);
      }
    }
    return None;
  }

  /** Anything that touches the block at `addr`; nothing only if the block is free. */
  method Overlapping(mem: seq<Mapping>, reserved: Reserved, addr: nat, len: nat) returns (o: Option<Range>)
    requires ValidMap(mem) && len % PAGE == 0
    ensures o.None? ==> Free(mem, reserved, addr, len)
    ensures o.Some? ==> Blocks(o.value, addr, len) && InTheWay(mem, reserved, len, o.value)
  {
    var n := ContainingOrAfter(mem, addr);
    if n < |mem| && Grown(mem[n].km).start < addr + len {
      return Some(Grown(mem[n].km));
    }
    assert forall i | 0 <= i < |mem| :: !Blocks(mem[i].km.AsRange(), addr, len) by {
      assert forall i | n < i < |mem| :: mem[n].km.end <= mem[i].km.start;
      assert n < |mem| ==> mem[n].Valid();
      hide Mapping.Valid;
    }
    var block := Range(addr, addr + CeilPage(len));
    assert block.end == addr + len;
    hide ValidMap, CeilPage;
    if block.Intersects(reserved.rrPages) {
      return Some(reserved.rrPages);
    }
    if block.Intersects(reserved.exclusion) {
      return Some(reserved.exclusion);
    }
    o := OverlapsExcluded(reserved.excluded, block);
  }

  /** Every place for the block in [from, to] is taken. */
  ghost predicate AllTaken(mem: seq<Mapping>, reserved: Reserved, len: nat, from: int, to: int) {
    forall p: nat | from <= p <= to :: Taken(mem, reserved, p, len)
  }

  lemma TakenBy(mem: seq<Mapping>, reserved: Reserved, len: nat, o: Range, p: nat)
    requires Blocks(o, p, len) && InTheWay(mem, reserved, len, o)
    ensures Taken(mem, reserved, p, len)
  {
    assert o.start < o.end && len > 0 ==> Range(p, p + len).Intersects(o);
  }

  lemma AllTakenBy(mem: seq<Mapping>, reserved: Reserved, len: nat, o: Range, from: int, to: int)
    requires o.start < from + len && to < o.end && InTheWay(mem, reserved, len, o)
    ensures AllTaken(mem, reserved, len, from, to)
  {
    forall p: nat | from <= p <= to ensures Taken(mem, reserved, p, len) {
      TakenBy(mem, reserved, len, o, p);
    }
  }

  lemma AllTakenJoin(mem: seq<Mapping>, reserved: Reserved, len: nat, from: int, mid: int, next: int, to: int)
    requires AllTaken(mem, reserved, len, from, mid) && AllTaken(mem, reserved, len, next, to) && next <= mid + 1
    ensures AllTaken(mem, reserved, len, from, to)
  {
    hide Taken;
  }

  /** One direction of the search, from anywhere: a free block with nothing but taken places
      between it and `start`, or all of the window on that side of `start` is taken. A search
      that starts in the window stays in it. */
  method SearchOneWay(mem: seq<Mapping>, reserved: Reserved, len: nat, low: nat, high: nat, start: nat, forward: bool)
    returns (found: Option<nat>)
    requires ValidMap(mem) && len % PAGE == 0
    ensures found.Some? ==> Free(mem, reserved, found.value, len)
    ensures found.Some? && low <= start && start + len <= high ==> low <= found.value && found.value + len <= high
    ensures found.Some? && forward ==> start <= found.value && AllTaken(mem, reserved, len, start, found.value - 1)
    ensures found.Some? && !forward ==> found.value <= start && AllTaken(mem, reserved, len, found.value + 1, start)
    ensures found.None? && forward ==> AllTaken(mem, reserved, len, start, high - len)
    ensures found.None? && !forward ==> AllTaken(mem, reserved, len, low, start)
    ensures found != Some(start) ==> Taken(mem, reserved, start, len)
  {
    var addr: nat := start;
    while true
      invariant low <= start && start + len <= high ==> low <= addr && addr + len <= high
      invariant forward ==> start <= addr && AllTaken(mem, reserved, len, start, addr - 1)
      invariant !forward ==> addr <= start && AllTaken(mem, reserved, len, addr + 1, start)
      invariant addr != start ==> Taken(mem, reserved, start, len)
      decreases if forward then (if addr <= high then high - addr else 0) else addr
    {
      hide ValidMap, Free, Taken, AllTaken, InTheWay;
      var o := Overlapping(mem, reserved, addr, len);
      if o.None? {
        return Some(addr);
      }
      if addr == start { TakenBy(mem, reserved, len, o.value, start); }
      if !forward {
        if o.value.start < low + len {
          AllTakenBy(mem, reserved, len, o.value, low, addr);
          AllTakenJoin(mem, reserved, len, low, addr, addr + 1, start);
          return None;
        }
        AllTakenBy(mem, reserved, len, o.value, o.value.start - len + 1, addr);
        AllTakenJoin(mem, reserved, len, o.value.start - len + 1, addr, addr + 1, start);
        addr := o.value.start - len;
      } else {
        if o.value.end + len > high {
          AllTakenBy(mem, reserved, len, o.value, addr, high - len);
          AllTakenJoin(mem, reserved, len, start, addr - 1, addr, high - len);
          return None;
        }
        AllTakenBy(mem, reserved, len, o.value, addr, o.value.end - 1);
        AllTakenJoin(mem, reserved, len, start, addr - 1, addr, o.value.end - 1);
        addr := o.value.end;
      }
    }
  }

  /** Why lengths are whole pages: the block just below a range in the way is tested as far as
      the next page, and so meets that range again, exactly if its length is not one. */
  lemma BelowMeetsAgainIff(o: Range, len: nat)
    requires o.start < o.end && len <= o.start
    ensures Range(o.start - len, o.start - len + CeilPage(len)).Intersects(o) <==> len % PAGE != 0
  {
    assert CeilPage(len) == len <==> len % PAGE == 0;
  }

  /** What random() decides: to drop the hint, to start anywhere or at a mapping, and the
      direction. */
  datatype Choice = Choice(dropHint: bool, anywhere: bool, bits: nat, mapIndex: nat, forward: bool)

  predicate UsesHint(hint: nat, choice: Choice) { hint != 0 && !choice.dropHint }

  function StartAddress(mem: seq<Mapping>, hint: nat, choice: Choice, arch: Arch): nat
    requires UsesHint(hint, choice) || choice.anywhere || choice.mapIndex < |mem|
  {
    if UsesHint(hint, choice) then hint
    else if choice.anywhere then FloorPage(choice.bits % arch.AddressLimit())
    else mem[choice.mapIndex].km.start
  }

  /** Where the search starts: in the usable address space if the block fits into it. The
      subtraction wraps around 64 bits. */
  function Clamp(start: nat, len: nat, end: nat): nat {
    var start := if start < ADDR_SPACE_START then ADDR_SPACE_START else start;
    var last := if len <= end then end - len else (end - len) % 0x1_0000_0000_0000_0000;
    if start > last then last else start
  }

  /** chaos_mode_find_free_memory, for every random choice and every length: it ends, what it
      finds is free, it lies in the window if and only if the length fits into the window, and
      the search gives up only if every place in the window is taken. */
  method ChaosFindFreeMemory(mem: seq<Mapping>, exclusion: Range, excluded: seq<Range>, len: nat, hint: nat,
                             choice: Choice, arch: Arch)
    returns (found: Option<nat>)
    requires ValidMap(mem) && (UsesHint(hint, choice) || choice.anywhere || choice.mapIndex < |mem|)
    requires len % PAGE == 0
    ensures ALL_MEMORY in excluded ==> found.None?
    ensures found.Some? ==>
      found.value != 0 && Free(mem, Reserved(arch.RrPages(), exclusion, excluded), found.value, len)
    ensures found.Some? ==>
      (ADDR_SPACE_START <= found.value && found.value + len <= WindowEnd(arch) <==>
        ADDR_SPACE_START + len <= WindowEnd(arch))
    ensures var start := Clamp(StartAddress(mem, hint, choice, arch), len, WindowEnd(arch));
      ALL_MEMORY !in excluded && start != 0
        && !Taken(mem, Reserved(arch.RrPages(), exclusion, excluded), start, len) ==>
        found == Some(start)
    ensures found.None? && ALL_MEMORY !in excluded ==>
      AllTaken(mem, Reserved(arch.RrPages(), exclusion, excluded), len, ADDR_SPACE_START, WindowEnd(arch) - len)
  {
    if ALL_MEMORY in excluded {
      return None;
    }
    var reserved := Reserved(arch.RrPages(), exclusion, excluded);
    var end := WindowEnd(arch);
    var start := Clamp(StartAddress(mem, hint, choice, arch), len, end);
    hide Free, AllTaken, Taken;
    found := SearchOneWay(mem, reserved, len, ADDR_SPACE_START, end, start, choice.forward);
    if found.None? {
      found := SearchOneWay(mem, reserved, len, ADDR_SPACE_START, end, start, !choice.forward);
      if found.None? {
        AllTakenJoin(mem, reserved, len, ADDR_SPACE_START, start, start, end - len);
      }
    }
    // Address 0 means that nothing was found; only a block that does not fit can get it.
    if found == Some(0) {
      NoPlace(mem, reserved, len, end - len);
      found := None;
    }
  }

  lemma NoPlace(mem: seq<Mapping>, reserved: Reserved, len: nat, last: int)
    requires last < ADDR_SPACE_START
    ensures AllTaken(mem, reserved, len, ADDR_SPACE_START, last)
  {
  }

  /** A length that does not fit and still gets an address, above everything that is mapped. */
  method OversizedBlock(m: Mapping, choice: Choice) returns (found: Option<nat>)
    requires m.Valid() && m.km.end <= 0x8000_0000 && !choice.dropHint
    ensures found == Some(0x8000_0000) && 0x8000_0000 + 0x8000_0000_0000 > WindowEnd(X86_64)
  {
    ghost var reserved := Reserved(X86_64.RrPages(), Range(0, 0), []);
    assert Clamp(0x8000_0000, 0x8000_0000_0000, WindowEnd(X86_64)) == 0x8000_0000;
    assert !Taken([m], reserved, 0x8000_0000, 0x8000_0000_0000);
    found := ChaosFindFreeMemory([m], Range(0, 0), [], 0x8000_0000_0000, 0x8000_0000, choice, X86_64);
  }

  // --------------------------------------------------------------------- first fit

  /** Behind mapping `i` there is room for `required` bytes. */
  predicate Fits(mem: seq<Mapping>, i: nat, required: nat, end: nat)
    requires i < |mem|
  {
    mem[i].km.end + required <= end && (i + 1 < |mem| ==> mem[i].km.end + required <= mem[i + 1].km.start)
  }

  lemma FitsIsFree(mem: seq<Mapping>, i: nat, required: nat, end: nat)
    requires ValidMap(mem) && i < |mem| && Fits(mem, i, required, end)
    ensures forall j | 0 <= j < |mem| :: !Blocks(mem[j].km.AsRange(), mem[i].km.end, required)
  {
    forall j | 0 <= j < |mem| ensures !Blocks(mem[j].km.AsRange(), mem[i].km.end, required) {
      assert mem[i].Valid() && (i + 1 < |mem| ==> mem[i + 1].Valid());
    }
  }

  /** Mapping `i` is the first from `after` on that is followed by enough room. */
  ghost predicate FirstFrom(mem: seq<Mapping>, i: nat, required: nat, after: nat, end: nat) {
    && i < |mem| && mem[i].km.start >= after && Fits(mem, i, required, end)
    && NoneBefore(mem, i, required, after, end)
  }

  ghost predicate NoneBefore(mem: seq<Mapping>, n: nat, required: nat, after: nat, end: nat)
    requires n <= |mem|
  {
    forall i | 0 <= i < n && mem[i].km.start >= after :: !Fits(mem, i, required, end)
  }

  /** One pass over the mappings that start at `after` or behind it. */
  method FirstFit(mem: seq<Mapping>, required: nat, after: nat, end: nat) returns (found: Option<nat>)
    requires ValidMap(mem)
    ensures found.Some? ==> FirstFrom(mem, found.value, required, after, end)
    ensures found.None? ==> NoneBefore(mem, |mem|, required, after, end)
  {
    for i := 0 to |mem|
      invariant NoneBefore(mem, i, required, after, end)
    {
      if mem[i].km.start >= after && Fits(mem, i, required, end) {
        return Some(i);
      }
    }
    return None;
  }

  /** find_free_memory: the block it finds is free, usable and the first from where it starts
      to look, or else the first of all; and it fails exactly when no
      mapping it may look at is followed by enough room. */
  method FindFreeMemory(mem: seq<Mapping>, required: nat, after: nat, lastFree: nat, useHint: bool, arch: Arch)
    returns (found: Option<nat>)
    requires ValidMap(mem)
    ensures found.Some? ==> found.value + required <= arch.UsableEnd()
    ensures found.Some? ==> forall j | 0 <= j < |mem| :: !Blocks(mem[j].km.AsRange(), found.value, required)
    ensures found.Some? ==> exists i ::
      && 0 <= i < |mem| && found.value == mem[i].km.end
      && var from := if useHint && after < lastFree then lastFree else after;
         || FirstFrom(mem, i, required, from, arch.UsableEnd())
         || (NoneBefore(mem, |mem|, required, from, arch.UsableEnd())
             && FirstFrom(mem, i, required, ADDR_SPACE_START, arch.UsableEnd()))
    ensures var from := if useHint && after < lastFree then lastFree else after;
      found.None? <==> forall i | 0 <= i < |mem| && (mem[i].km.start >= from || mem[i].km.start >= ADDR_SPACE_START) ::
        !Fits(mem, i, required, arch.UsableEnd())
  {
    var from := if useHint && after < lastFree then lastFree else after;
    var i := FirstFit(mem, required, from, arch.UsableEnd());
    if i.None? && from != 0 {
      i := FirstFit(mem, required, ADDR_SPACE_START, arch.UsableEnd());
    }
    if i.None? {
      return None;
    }
    FitsIsFree(mem, i.value, required, arch.UsableEnd());
    return Some(mem[i.value].km.end);
  }
}
