/**
 Searching the tracee's memory for a byte string, window by window, against the naive scan.
 */
module MemorySearch {
  import opened Options
  import opened MemoryRange
  import opened MemoryMap

  /** The byte at an address, if it can be read. */
  type Memory = nat -> Option<bv8>

  /** Whether an address can be read depends on its page only. */
  ghost predicate ByPage(mem: Memory) {
    forall a: nat, b: nat | FloorPage(a) == FloorPage(b) :: mem(a).Some? == mem(b).Some?
  }

  /** All of the pattern can be read at `q`. */
  ghost predicate MatchAt(mem: Memory, find: seq<bv8>, q: nat) {
    forall k: nat | k < |find| :: mem(q + k) == Some(find[k])
  }

  /** `q` is a place in `where` that starts inside some mapping and begins a match. */
  ghost predicate IsMatch(mem: Memory, maps: seq<Mapping>, where: Range, find: seq<bv8>, q: nat) {
    && where.start <= q && q + |find| <= where.end && MatchAt(mem, find, q)
    && exists i :: 0 <= i < |maps| && maps[i].Has(q)
  }

  /** Reads the longest readable prefix; if something is asked for and nothing can be read, that
      is an error and the returned size is negative. */
  method ReadBytes(mem: Memory, addr: nat, len: nat) returns (buf: seq<bv8>, nread: int)
    ensures nread == if len > 0 && mem(addr) == None then -1 else |buf|
    ensures nread < 0 ==> buf == []
    ensures |buf| <= len && forall k: nat | k < |buf| :: mem(addr + k) == Some(buf[k])
    ensures |buf| < len ==> mem(addr + |buf|) == None
  {
    buf := [];
    while |buf| < len && mem(addr + |buf|).Some?
      invariant |buf| <= len && forall k: nat | k < |buf| :: mem(addr + k) == Some(buf[k])
      decreases len - |buf|
    {
      buf := buf + [mem(addr + |buf|).value];
    }
    assert buf != [] ==> mem(addr + 0) == Some(buf[0]);
    nread := if len > 0 && buf == [] then -1 else |buf|;
  }

  /** memmem: the lowest place of the pattern in the buffer. */
  method FindIn(buf: seq<bv8>, find: seq<bv8>) returns (at: Option<nat>)
    ensures at.Some? ==> OccursIn(buf, find, at.value) && forall j: nat | j < at.value :: !OccursIn(buf, find, j)
    ensures at.None? ==> forall j: nat :: !OccursIn(buf, find, j)
    ensures find == [] ==> at == Some(0)
  {
    var j := 0;
    assert find == [] ==> OccursIn(buf, find, 0);
    while j + |find| <= |buf|
      invariant forall i: nat | i < j :: !OccursIn(buf, find, i)
      decreases |buf| - j
    {
      if OccursIn(buf, find, j) {
        return Some(j);
      }
      j := j + 1;
    }
    return None;
  }

  predicate OccursIn(buf: seq<bv8>, find: seq<bv8>, j: nat) {
    j + |find| <= |buf| && buf[j..j + |find|] == find
  }

  /** A match that lies in what was read is in the buffer, and the other way round. */
  lemma InBuffer(mem: Memory, find: seq<bv8>, s: nat, buf: seq<bv8>, q: nat)
    requires forall k: nat | k < |buf| :: mem(s + k) == Some(buf[k])
    requires s <= q && q + |find| <= s + |buf|
    ensures MatchAt(mem, find, q) <==> OccursIn(buf, find, q - s)
  {
    var part := buf[q - s..q - s + |find|];
    assert forall k: nat | k < |find| :: mem(q + k) == Some(part[k]) by {
      forall k: nat | k < |find| ensures mem(q + k) == Some(part[k]) {
        assert q + k == s + (q - s + k);
      }
    }
    if MatchAt(mem, find, q) {
      assert forall k: nat | k < |find| :: part[k] == find[k];
      assert part == find;
    }
  }

  /** A match that begins in the page of the window is read completely. */
  lemma WindowReaches(mem: Memory, find: seq<bv8>, s: nat, len: nat, buf: seq<bv8>, q: nat)
    requires ByPage(mem) && MatchAt(mem, find, q) && |find| > 0
    requires |buf| <= len && (|buf| < len ==> mem(s + |buf|) == None)
    requires s <= q < FloorPage(s) + PAGE && q + |find| <= s + len
    ensures q + |find| <= s + |buf|
  {
    if |buf| < len && s + |buf| < q + |find| {
      AllReadable(mem, find, s, q, s + |buf|);
    }
  }

  lemma AllReadable(mem: Memory, find: seq<bv8>, s: nat, q: nat, b: nat)
    requires ByPage(mem) && MatchAt(mem, find, q) && |find| > 0
    requires s <= q < FloorPage(s) + PAGE && s <= b < q + |find|
    ensures mem(b).Some?
  {
    if b < q {
      assert mem(q + 0) == Some(find[0]);
      SamePage(s, b);
      SamePage(s, q);
    } else {
      assert mem(q + (b - q)) == Some(find[b - q]);
    }
  }

  lemma SamePage(s: nat, q: nat)
    requires s <= q < FloorPage(s) + PAGE
    ensures FloorPage(q) == FloorPage(s)
  {
  }

  ghost predicate NoMatchIn(mem: Memory, find: seq<bv8>, from: nat, to: nat, end: nat) {
    forall q: nat | from <= q < to && q + |find| <= end :: !MatchAt(mem, find, q)
  }

  lemma NothingInWindow(mem: Memory, find: seq<bv8>, s: nat, end: nat, buf: seq<bv8>)
    requires ByPage(mem) && |find| > 0 && s <= end
    requires forall k: nat | k < |buf| :: mem(s + k) == Some(buf[k])
    requires var len := if PAGE + |find| - 1 <= end - s then PAGE + |find| - 1 else end - s;
      |buf| <= len && (|buf| < len ==> mem(s + |buf|) == None)
    requires forall j: nat :: !OccursIn(buf, find, j)
    ensures NoMatchIn(mem, find, s, FloorPage(s) + PAGE, end)
  {
    var len := if PAGE + |find| - 1 <= end - s then PAGE + |find| - 1 else end - s;
    forall q: nat | s <= q < FloorPage(s) + PAGE && q + |find| <= end ensures !MatchAt(mem, find, q) {
      if MatchAt(mem, find, q) {
        WindowReaches(mem, find, s, len, buf, q);
        InBuffer(mem, find, s, buf, q);
      }
    }
  }

  /** The windows of one mapping: the lowest match that ends by `end`, if there is one. The empty
      pattern is always found, at the start exactly if there is nothing to read or it can be read. */
  method SearchRange(mem: Memory, start: nat, end: nat, find: seq<bv8>) returns (result: Option<nat>)
    requires ByPage(mem) && start <= end
    ensures result.Some? ==> start <= result.value && result.value + |find| <= end && MatchAt(mem, find, result.value)
    ensures result.Some? && find != [] ==> NoMatchIn(mem, find, start, result.value, end)
    ensures result.None? ==> find != [] && NoMatchIn(mem, find, start, end, end)
    ensures find == [] ==> (result == Some(start) <==> start == end || mem(start).Some?)
  {
    var s := start;
    while end - s >= |find|
      invariant start <= s <= end && (find != [] ==> NoMatchIn(mem, find, start, s, end))
      invariant find == [] && s != start ==> start < end && mem(start) == None
      decreases end - s
    {
      hide ByPage, OccursIn, MatchAt;
      var len := if PAGE + |find| - 1 <= end - s then PAGE + |find| - 1 else end - s;
      var buf, nread := ReadBytes(mem, s, len);
      if nread >= |find| {
        var at := FindIn(buf, find);
        if at.Some? {
          FoundLowest(mem, find, s, end, buf, at.value);
          return Some(s + at.value);
        }
      }
      if find != [] {
        if |buf| < |find| { TooShort(buf, find); }
        NothingInWindow(mem, find, s, end, buf);
      }
      var next := FloorPage(s) + PAGE;
      s := if end <= next then end else next;
    }
    return None;
  }

  lemma TooShort(buf: seq<bv8>, find: seq<bv8>)
    requires |buf| < |find|
    ensures forall j: nat :: !OccursIn(buf, find, j)
  {
  }

  lemma FoundLowest(mem: Memory, find: seq<bv8>, s: nat, end: nat, buf: seq<bv8>, at: nat)
    requires forall k: nat | k < |buf| :: mem(s + k) == Some(buf[k])
    requires OccursIn(buf, find, at) && (forall j: nat | j < at :: !OccursIn(buf, find, j))
    ensures MatchAt(mem, find, s + at) && NoMatchIn(mem, find, s, s + at, end)
  {
    InBuffer(mem, find, s, buf, s + at);
    forall q: nat | s <= q < s + at ensures !MatchAt(mem, find, q) {
      InBuffer(mem, find, s, buf, q);
      assert !OccursIn(buf, find, q - s);
      hide MatchAt, OccursIn;
    }
  }

  /** The part of `where` in which a match may start in `m`, with room for the pattern. */
  function Clip(m: Mapping, where: Range, size: nat): Range
    requires m.Valid()
  {
    var start := if m.km.start >= where.start then m.km.start else where.start;
    var end := if m.km.end + size - 1 <= where.end then m.km.end + size - 1 else where.end;
    Range(start, if end >= start then end else start)
  }

  ghost predicate Candidate(mem: Memory, where: Range, find: seq<bv8>, q: nat) {
    where.start <= q && q + |find| <= where.end && MatchAt(mem, find, q)
  }

  /** `p` is what the naive scan returns. */
  ghost predicate LowestMatch(mem: Memory, maps: seq<Mapping>, where: Range, find: seq<bv8>, p: nat) {
    IsMatch(mem, maps, where, find, p) && forall q: nat | IsMatch(mem, maps, where, find, q) :: p <= q
  }

  /** What the empty pattern is found right for: the first mapping, cut to `where`, starts at a
      mapped address of `where`, and that address can be read or the cut is empty. */
  ghost predicate EmptyFits(mem: Memory, maps: seq<Mapping>, where: Range)
    requires maps != [] && maps[0].Valid()
  {
    var r := Clip(maps[0], where, 0);
    && r.start <= where.end && (r.start == r.end || mem(r.start).Some?)
    && exists i :: 0 <= i < |maps| && maps[i].Has(r.start)
  }

  lemma EmptyIsRightIff(mem: Memory, maps: seq<Mapping>, where: Range, p: nat)
    requires ValidMap(maps) && maps != [] && maps[0].Valid()
    requires var r := Clip(maps[0], where, 0);
      r.start <= p <= r.end && (p == r.start <==> r.start == r.end || mem(r.start).Some?)
    ensures LowestMatch(mem, maps, where, [], p) <==> EmptyFits(mem, maps, where)
  {
    var r := Clip(maps[0], where, 0);
    forall q: nat | IsMatch(mem, maps, where, [], q) ensures r.start <= q {
      var i :| 0 <= i < |maps| && maps[i].Has(q);
      assert i > 0 ==> maps[0].km.end <= maps[i].km.start;
    }
    if LowestMatch(mem, maps, where, [], p) && p != r.start {
      assert maps[0].Has(r.start);
      assert IsMatch(mem, maps, where, [], r.start);
    }
  }

  /** search_memory agrees with the naive scan: the lowest match, or none at all. The empty
      pattern is found whenever anything is mapped, and at the right place exactly if it fits
      the first mapping. */
  method SearchMemory(mem: Memory, maps: seq<Mapping>, where: Range, find: seq<bv8>) returns (result: Option<nat>)
    requires ByPage(mem) && ValidMap(maps)
    ensures find != [] && result.Some? ==> LowestMatch(mem, maps, where, find, result.value)
    ensures find != [] && result.None? ==> forall q: nat :: !IsMatch(mem, maps, where, find, q)
    ensures find == [] ==> (result.None? <==> maps == [])
    ensures find == [] && maps != [] ==>
      maps[0].Valid() && (LowestMatch(mem, maps, where, find, result.value) <==> EmptyFits(mem, maps, where))
  {
    for i := 0 to |maps|
      invariant find == [] ==> i == 0
      invariant forall j, q: nat | 0 <= j < i && maps[j].Has(q) :: !Candidate(mem, where, find, q)
    {
      assert maps[i].Valid();
      hide ByPage, MatchAt;
      var r := Clip(maps[i], where, |find|);
      result := SearchRange(mem, r.start, r.end, find);
      if find == [] {
        EmptyIsRightIff(mem, maps, where, result.value);
        return;
      }
      if result.Some? {
        FoundHere(mem, maps, where, find, i, result.value);
        return;
      }
    }
    forall q: nat ensures !IsMatch(mem, maps, where, find, q) {
      if Candidate(mem, where, find, q) {
        assert forall j | 0 <= j < |maps| :: !maps[j].Has(q);
      }
    }
    return None;
  }

  /** The empty pattern looked for before everything that is mapped: an answer where there is none. */
  method EmptyPatternMisses(mem: Memory, m: Mapping, where: Range) returns (result: Option<nat>)
    requires ByPage(mem) && m.Valid() && where.end < m.km.start
    ensures result.Some? && forall q: nat :: !IsMatch(mem, [m], where, [], q)
  {
    result := SearchMemory(mem, [m], where, []);
  }

  lemma FoundHere(mem: Memory, maps: seq<Mapping>, where: Range, find: seq<bv8>, i: nat, p: nat)
    requires ValidMap(maps) && find != [] && i < |maps| && maps[i].Valid()
    requires forall j, q: nat | 0 <= j < i && maps[j].Has(q) :: !Candidate(mem, where, find, q)
    requires var r := Clip(maps[i], where, |find|);
      r.start <= p && p + |find| <= r.end && MatchAt(mem, find, p) && NoMatchIn(mem, find, r.start, p, r.end)
    ensures LowestMatch(mem, maps, where, find, p)
  {
    hide MatchAt;
    assert maps[i].Has(p);
    forall q: nat | IsMatch(mem, maps, where, find, q) ensures p <= q {
      assert Candidate(mem, where, find, q);
      var j :| 0 <= j < |maps| && maps[j].Has(q);
      assert j > i ==> maps[i].km.end <= maps[j].km.start;
    }
  }
}
