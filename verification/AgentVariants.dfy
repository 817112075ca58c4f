/**
 The programs gdb may have meant: all combinations of narrower widths at the sign and zero
 extensions of a bytecode program.
 */
module AgentVariants {
  import opened Options
  import opened AgentBytecode

  // -------------------------------------------------------------------- counting

  /** count_variants. */
  function CountVariants(bits: bv8): (n: nat)
    ensures 1 <= n <= 4
  {
    1 + (if bits > 8 then 1 else 0) + (if bits > 16 then 1 else 0) + (if bits > 32 then 1 else 0)
  }

  /** An extension with its operand present. */
  predicate Varies(code: Code, pc: nat) { pc + 1 < |code| && Extends(code[pc]) }

  function Factor(code: Code, pc: nat): (n: nat)
    ensures 1 <= n <= 4
  {
    if Varies(code, pc) then CountVariants(code[pc + 1]) else 1
  }

  /** The number of combinations at the marked extensions before `n`. */
  function Combinations(code: Code, marks: seq<bool>, n: nat): (c: nat)
    requires n <= |marks|
    ensures c >= 1
  {
    if n == 0 then 1
    else if marks[n - 1] then Combinations(code, marks, n - 1) * Factor(code, n - 1)
    else Combinations(code, marks, n - 1)
  }

  lemma {:induction false} MarkOne(code: Code, marks: seq<bool>, pc: nat, n: nat)
    requires pc < |marks| && !marks[pc] && n <= |marks|
    ensures Combinations(code, marks[pc := true], n) ==
      Combinations(code, marks, n) * (if pc < n then Factor(code, pc) else 1)
  {
    if n > 0 {
      MarkOne(code, marks, pc, n - 1);
      if pc < n - 1 && marks[n - 1] {
        Commute(Combinations(code, marks, n - 1), Factor(code, pc), Factor(code, n - 1));
      }
    }
  }

  lemma Commute(x: nat, f: nat, g: nat)
    ensures x * f * g == x * g * f
  {
    assert x * f * g == x * (f * g);
    assert x * g * f == x * (g * f);
  }

  lemma {:induction false} MoreMarks(code: Code, marks: seq<bool>, more: seq<bool>, n: nat)
    requires |marks| == |more| && n <= |marks| && forall i | 0 <= i < |marks| && marks[i] :: more[i]
    ensures Combinations(code, marks, n) <= Combinations(code, more, n)
  {
    if n > 0 {
      MoreMarks(code, marks, more, n - 1);
      var c, d, f := Combinations(code, marks, n - 1), Combinations(code, more, n - 1), Factor(code, n - 1);
      assert c * f <= d * f && d <= d * f;
    }
  }

  // -------------------------------------------------------------------- worklist

  /** The instructions of the program. */
  ghost function Instructions(code: Code): (marks: seq<bool>)
    ensures |marks| == |code| && forall i | 0 <= i < |code| :: marks[i] == Reachable(code, i)
  {
    seq(|code|, i requires 0 <= i < |code| => Reachable(code, i))
  }

  /** How many programs there are. */
  ghost function Total(code: Code): nat { Combinations(code, Instructions(code), |code|) }

  function Unmarked(marks: seq<bool>): nat {
    if marks == [] then 0 else (if marks[0] then 0 else 1) + Unmarked(marks[1..])
  }

  lemma {:induction false} UnmarkedFalls(marks: seq<bool>, pc: nat)
    requires pc < |marks| && !marks[pc]
    ensures Unmarked(marks[pc := true]) == Unmarked(marks) - 1
  {
    if pc == 0 {
      assert marks[pc := true][1..] == marks[1..];
    } else {
      UnmarkedFalls(marks[1..], pc - 1);
      assert marks[pc := true][1..] == marks[1..][pc - 1 := true];
    }
  }

  ghost predicate OnlyReachable(code: Code, marks: seq<bool>, waiting: seq<nat>) {
    && |marks| == |code|
    && (forall i | 0 <= i < |marks| && marks[i] :: Reachable(code, i))
    && (forall i | 0 <= i < |waiting| :: Reachable(code, waiting[i]))
  }

  /** The start is marked, waiting or outside the code. */
  ghost predicate Started(code: Code, marks: seq<bool>, waiting: seq<nat>)
    requires |marks| == |code|
  {
    |code| > 0 ==> marks[0] || 0 in waiting
  }

  lemma VisitReachable(code: Code, marks: seq<bool>, waiting: seq<nat>, pc: nat)
    requires OnlyReachable(code, marks, waiting + [pc]) && pc < |code|
    ensures OnlyReachable(code, marks[pc := true], waiting + Successors(code, pc))
  {
    hide Reachable, Successors;
    assert (waiting + [pc])[|waiting|] == pc;
    assert forall i | 0 <= i < |waiting| :: (waiting + [pc])[i] == waiting[i];
    forall i | 0 <= i < |Successors(code, pc)| ensures Reachable(code, Successors(code, pc)[i]) {
      ReachableNext(code, pc, Successors(code, pc)[i]);
    }
  }

  lemma VisitClosed(code: Code, marks: seq<bool>, waiting: seq<nat>, pc: nat)
    requires |marks| == |code| && pc < |code| && Closed(code, marks, waiting + [pc])
    requires Started(code, marks, waiting + [pc])
    ensures Closed(code, marks[pc := true], waiting + Successors(code, pc))
    ensures Started(code, marks[pc := true], waiting + Successors(code, pc))
  {
    hide Successors;
    var after := marks[pc := true];
    forall p, next: nat | 0 <= p < |code| && after[p] && next in Successors(code, p)
      ensures next >= |code| || after[next] || next in waiting + Successors(code, pc)
    {
      if p != pc {
        assert next >= |code| || marks[next] || next in waiting + [pc];
      }
    }
  }

  lemma SkipClosed(code: Code, marks: seq<bool>, waiting: seq<nat>, pc: nat)
    requires |marks| == |code| && (pc >= |code| || marks[pc])
    requires Closed(code, marks, waiting + [pc]) && Started(code, marks, waiting + [pc])
    ensures Closed(code, marks, waiting) && Started(code, marks, waiting)
  {
    hide Successors;
    forall p, next: nat | 0 <= p < |code| && marks[p] && next in Successors(code, p)
      ensures next >= |code| || marks[next] || next in waiting
    {
      assert next >= |code| || marks[next] || next in waiting + [pc];
    }
  }

  lemma AllMarked(code: Code, marks: seq<bool>)
    requires OnlyReachable(code, marks, []) && Closed(code, marks, []) && Started(code, marks, [])
    ensures marks == Instructions(code)
  {
    forall i | 0 <= i < |code| && Reachable(code, i) ensures marks[i] {
      var path :| Path(code, path) && path[|path| - 1] == i;
      PathIsMarked(code, marks, path, |path| - 1);
    }
  }

  /** The worklist of the GdbExpression constructor: it marks exactly the reachable
      instructions, and gives up exactly when they make up more than 64 programs. */
  method FindInstructions(code: Code) returns (marks: seq<bool>, ok: bool)
    ensures ok <==> Total(code) <= 64
    ensures ok ==> marks == Instructions(code)
  {
    marks := seq(|code|, _ => false);
    var variants := 1;
    var unvisited := [0];
    ReachableStart(code);
    NoMarks(code, marks, |code|);
    assert Started(code, marks, unvisited) by { assert unvisited[0] == 0; }
    while unvisited != []
      invariant OnlyReachable(code, marks, unvisited)
      invariant Closed(code, marks, unvisited) && Started(code, marks, unvisited)
      invariant variants == Combinations(code, marks, |code|) <= 64
      decreases Unmarked(marks), |unvisited|
    {
      var pc := unvisited[|unvisited| - 1];
      var rest := unvisited[..|unvisited| - 1];
      assert unvisited == rest + [pc];
      unvisited := rest;
      hide Reachable, Successors, Closed, Started, Combinations, Unmarked;
      if pc >= |code| || marks[pc] {
        SkipClosed(code, marks, rest, pc);
        OnlyReachableSkip(code, marks, rest, pc);
        continue;
      }
      VisitReachable(code, marks, rest, pc);
      VisitClosed(code, marks, rest, pc);
      MarkOne(code, marks, pc, |code|);
      UnmarkedFalls(marks, pc);
      marks := marks[pc := true];
      variants := variants * Factor(code, pc);
      if variants > 64 {
        MoreMarks(code, marks, Instructions(code), |code|);
        return marks, false;
      }
      unvisited := unvisited + Successors(code, pc);
    }
    AllMarked(code, marks);
    ok := true;
  }

  lemma OnlyReachableSkip(code: Code, marks: seq<bool>, waiting: seq<nat>, pc: nat)
    requires OnlyReachable(code, marks, waiting + [pc])
    ensures OnlyReachable(code, marks, waiting)
  {
    hide Reachable;
    assert forall i | 0 <= i < |waiting| :: (waiting + [pc])[i] == waiting[i];
  }

  lemma {:induction false} NoMarks(code: Code, marks: seq<bool>, n: nat)
    requires n <= |marks| && forall i | 0 <= i < |marks| :: !marks[i]
    ensures Combinations(code, marks, n) == 1
  {
    if n > 0 { NoMarks(code, marks, n - 1); }
  }

  // -------------------------------------------------------------------- variants

  /** The widths tried for an operand: the narrower ones of 8, 16 and 32, then its own. */
  function Widths(bits: bv8): (w: seq<bv8>)
    ensures |w| == CountVariants(bits)
  {
    (if bits > 8 then [8] else []) + (if bits > 16 then [16] else []) + (if bits > 32 then [32] else []) + [bits]
  }

  /** What a variant may hold at `j`, when the instructions before `n` vary. */
  predicate Allowed(code: Code, marks: seq<bool>, n: nat, j: nat, b: bv8)
    requires |marks| == |code| && n <= |code| && j < |code|
  {
    if 0 < j <= n && marks[j - 1] && Varies(code, j - 1) then b in Widths(code[j]) else b == code[j]
  }

  /** `v` is `code` with any of the widths at each of the marked extensions before `n`. */
  ghost predicate IsVariant(code: Code, marks: seq<bool>, n: nat, v: Code)
    requires |marks| == |code| && n <= |code|
  {
    |v| == |code| && forall j | 0 <= j < |code| :: Allowed(code, marks, n, j, v[j])
  }

  ghost predicate Distinct(vs: seq<Code>) {
    forall i, j | 0 <= i < j < |vs| :: vs[i] != vs[j]
  }

  /** `v` with each of the widths at `at`. */
  function Narrowed(v: Code, at: nat, widths: seq<bv8>): (r: seq<Code>)
    requires at < |v|
    ensures |r| == |widths|
  {
    seq(|widths|, k requires 0 <= k < |widths| => v[at := widths[k]])
  }

  function Expand(vs: seq<Code>, at: nat, widths: seq<bv8>): seq<Code>
    requires forall i | 0 <= i < |vs| :: at < |vs[i]|
  {
    if vs == [] then [] else Expand(vs[..|vs| - 1], at, widths) + Narrowed(vs[|vs| - 1], at, widths)
  }

  lemma {:induction false} ExpandCount(vs: seq<Code>, at: nat, widths: seq<bv8>)
    requires forall i | 0 <= i < |vs| :: at < |vs[i]|
    ensures |Expand(vs, at, widths)| == |vs| * |widths|
  {
    if vs != [] {
      ExpandCount(vs[..|vs| - 1], at, widths);
      assert |vs| * |widths| == (|vs| - 1) * |widths| + |widths|;
    }
  }

  /** The expansion holds exactly the programs that agree with one of `vs` but for the width. */
  lemma {:induction false} ExpandMembers(vs: seq<Code>, at: nat, widths: seq<bv8>, bits: bv8, v: Code)
    requires forall i | 0 <= i < |vs| :: at < |vs[i]| && vs[i][at] == bits
    ensures v in Expand(vs, at, widths) <==> at < |v| && v[at] in widths && v[at := bits] in vs
  {
    if vs != [] {
      var init, last := vs[..|vs| - 1], vs[|vs| - 1];
      ExpandMembers(init, at, widths, bits, v);
      assert vs == init + [last];
      NarrowedMembers(last, at, widths, v);
    }
  }

  lemma NarrowedMembers(last: Code, at: nat, widths: seq<bv8>, v: Code)
    requires at < |last|
    ensures v in Narrowed(last, at, widths) <==> at < |v| && v[at] in widths && v[at := last[at]] == last
  {
    if k :| 0 <= k < |widths| && v == Narrowed(last, at, widths)[k] {
      assert v[at := last[at]] == last;
    }
    if at < |v| && v[at] in widths && v[at := last[at]] == last {
      var k :| 0 <= k < |widths| && widths[k] == v[at];
      assert Narrowed(last, at, widths)[k] == v;
    }
  }

  lemma {:induction false} ExpandDistinct(vs: seq<Code>, at: nat, widths: seq<bv8>, bits: bv8)
    requires forall i | 0 <= i < |vs| :: at < |vs[i]| && vs[i][at] == bits
    requires Distinct(vs) && forall i, j | 0 <= i < j < |widths| :: widths[i] != widths[j]
    ensures Distinct(Expand(vs, at, widths))
  {
    if vs != [] {
      var init, last := vs[..|vs| - 1], vs[|vs| - 1];
      ExpandDistinct(init, at, widths, bits);
      var left, right := Expand(init, at, widths), Narrowed(last, at, widths);
      forall i, j | 0 <= i < |left| && 0 <= j < |right| ensures left[i] != right[j] {
        ExpandMembers(init, at, widths, bits, left[i]);
        NarrowedMembers(last, at, widths, right[j]);
        assert left[i] in left && right[j] in right;
        hide Expand, Narrowed;
      }
      forall i, j | 0 <= i < j < |right| ensures right[i] != right[j] {
        assert right[i][at] == widths[i] && right[j][at] == widths[j];
      }
      hide Expand, Narrowed;
      DistinctConcat(left, right);
    }
  }

  lemma DistinctConcat(left: seq<Code>, right: seq<Code>)
    requires Distinct(left) && Distinct(right)
    requires forall i, j | 0 <= i < |left| && 0 <= j < |right| :: left[i] != right[j]
    ensures Distinct(left + right)
  {
    var all := left + right;
    assert forall i | 0 <= i < |all| :: all[i] == if i < |left| then left[i] else right[i - |left|];
  }

  /** All variants so far: each once. */
  ghost predicate AllVariants(code: Code, marks: seq<bool>, n: nat, vs: seq<Code>)
    requires |marks| == |code| && n <= |code|
  {
    && (forall v :: v in vs <==> IsVariant(code, marks, n, v))
    && Distinct(vs)
    && |vs| == Combinations(code, marks, n)
  }

  lemma VaryOne(code: Code, marks: seq<bool>, n: nat, v: Code)
    requires |marks| == |code| && n < |code| && marks[n] && Varies(code, n)
    ensures IsVariant(code, marks, n + 1, v) <==>
      n + 1 < |v| && v[n + 1] in Widths(code[n + 1]) && IsVariant(code, marks, n, v[n + 1 := code[n + 1]])
  {
    assert n + 1 < |code|;
    hide Varies, Widths;
    if |v| == |code| {
      var w := v[n + 1 := code[n + 1]];
      forall j | 0 <= j < |code|
        ensures Allowed(code, marks, n + 1, j, v[j]) <==>
          if j == n + 1 then v[j] in Widths(code[j]) else Allowed(code, marks, n, j, w[j])
      {
      }
      if IsVariant(code, marks, n + 1, v) {
        assert forall j | 0 <= j < |code| :: Allowed(code, marks, n + 1, j, v[j]);
        assert v[n + 1] in Widths(code[n + 1]);
      }
      assert Allowed(code, marks, n, n + 1, w[n + 1]);
    }
  }

  lemma VaryStep(code: Code, marks: seq<bool>, n: nat, vs: seq<Code>)
    requires |marks| == |code| && n < |code| && marks[n] && Varies(code, n) && AllVariants(code, marks, n, vs)
    ensures forall i | 0 <= i < |vs| :: n + 1 < |vs[i]|
    ensures AllVariants(code, marks, n + 1, Expand(vs, n + 1, Widths(code[n + 1])))
  {
    var at, bits := n + 1, code[n + 1];
    var widths := Widths(bits);
    assert forall i, j | 0 <= i < j < |widths| :: widths[i] != widths[j];
    forall i | 0 <= i < |vs| ensures at < |vs[i]| && vs[i][at] == bits {
      assert vs[i] in vs;
      assert Allowed(code, marks, n, at, vs[i][at]);
    }
    hide Widths, IsVariant, Expand, Distinct;
    ExpandCount(vs, at, widths);
    ExpandDistinct(vs, at, widths, bits);
    forall v ensures v in Expand(vs, at, widths) <==> IsVariant(code, marks, at, v) {
      ExpandMembers(vs, at, widths, bits, v);
      VaryOne(code, marks, n, v);
    }
  }

  lemma KeepStep(code: Code, marks: seq<bool>, n: nat, vs: seq<Code>)
    requires |marks| == |code| && n < |code| && !(marks[n] && Varies(code, n)) && AllVariants(code, marks, n, vs)
    ensures AllVariants(code, marks, n + 1, vs)
  {
    hide Varies, Distinct, Widths;
    forall v ensures IsVariant(code, marks, n, v) <==> IsVariant(code, marks, n + 1, v) {
      if |v| == |code| {
        forall j | 0 <= j < |code|
          ensures Allowed(code, marks, n, j, v[j]) <==> Allowed(code, marks, n + 1, j, v[j])
        {
        }
      }
    }
    hide IsVariant, Allowed;
  }

  /** Replaces every program by its variants at one operand, narrow widths first. */
  method ExpandAll(vs: seq<Code>, at: nat, bits: bv8) returns (result: seq<Code>)
    requires forall i | 0 <= i < |vs| :: at < |vs[i]| && vs[i][at] == bits
    ensures result == Expand(vs, at, Widths(bits))
  {
    result := [];
    for i := 0 to |vs|
      invariant result == Expand(vs[..i], at, Widths(bits))
    {
      var b := vs[i];
      ghost var before := result;
      if bits > 8 { result := result + [b[at := 8]]; }
      if bits > 16 { result := result + [b[at := 16]]; }
      if bits > 32 { result := result + [b[at := 32]]; }
      result := result + [b];
      assert b[at := bits] == b;
      assert result == before + Narrowed(b, at, Widths(bits));
      assert vs[..i + 1][..i] == vs[..i] && vs[..i + 1][i] == b;
    }
    assert vs[..|vs|] == vs;
  }

  /** The GdbExpression constructor: every combination of widths at the instructions of the
      program, each exactly once, the program itself among them; nothing if there are more
      than 64. */
  method Variants(code: Code) returns (vs: seq<Code>)
    ensures vs == [] <==> Total(code) > 64
    ensures vs != [] ==> AllVariants(code, Instructions(code), |code|, vs) && |vs| == Total(code) && code in vs
  {
    hide Widths;
    var marks, ok := FindInstructions(code);
    if !ok {
      return [];
    }
    vs := [code];
    OneVariant(code, marks);
    for n := 0 to |code|
      invariant AllVariants(code, marks, n, vs)
    {
      if marks[n] && Varies(code, n) {
        VaryStep(code, marks, n, vs);
        OperandIs(code, marks, n, vs);
        hide *;
        vs := ExpandAll(vs, n + 1, code[n + 1]);
      } else {
        KeepStep(code, marks, n, vs);
        hide *;
      }
    }
    IsItself(code, marks);
  }

  lemma OperandIs(code: Code, marks: seq<bool>, n: nat, vs: seq<Code>)
    requires |marks| == |code| && n + 1 < |code| && AllVariants(code, marks, n, vs)
    ensures forall i | 0 <= i < |vs| :: n + 1 < |vs[i]| && vs[i][n + 1] == code[n + 1]
  {
    forall i | 0 <= i < |vs| ensures n + 1 < |vs[i]| && vs[i][n + 1] == code[n + 1] {
      assert vs[i] in vs;
      assert Allowed(code, marks, n, n + 1, vs[i][n + 1]);
    }
  }

  lemma OneVariant(code: Code, marks: seq<bool>)
    requires |marks| == |code|
    ensures AllVariants(code, marks, 0, [code])
  {
    forall v ensures v in [code] <==> IsVariant(code, marks, 0, v) {
      if IsVariant(code, marks, 0, v) {
        assert forall j | 0 <= j < |code| :: Allowed(code, marks, 0, j, v[j]);
        assert v == code;
      }
    }
  }

  lemma IsItself(code: Code, marks: seq<bool>)
    requires |marks| == |code|
    ensures IsVariant(code, marks, |code|, code)
  {
    forall j | 0 <= j < |code| ensures Allowed(code, marks, |code|, j, code[j]) {
      var w := Widths(code[j]);
      assert w[|w| - 1] == code[j];
    }
  }

  // ------------------------------------------------------ instructions of a variant

  /** The byte at `j` differs between variants. */
  ghost predicate Varied(code: Code, j: nat)
    requires j < |code|
  {
    0 < j && Reachable(code, j - 1) && Varies(code, j - 1) && CountVariants(code[j]) > 1
  }

  predicate Jumps(op: bv8) { op == OP_IF_GOTO || op == OP_GOTO }

  /** Its narrower widths, read as opcodes, lead on to the next byte just as the byte itself. */
  predicate Straight(op: bv8) { op <= 32 && op != OP_EXT && op != OP_IF_GOTO }

  lemma StraightOn(code: Code, pc: nat)
    requires pc < |code| && Straight(code[pc])
    ensures Successors(code, pc) == [pc + 1]
  {
  }

  lemma NarrowerIsStraight(op: bv8, w: bv8)
    requires Straight(op) && w in Widths(op)
    ensures Straight(w)
  {
  }

  /** No byte that varies is read as a jump target, nor as an opcode that is not straight. */
  ghost predicate Tidy(code: Code) {
    forall j: nat | j < |code| && Varied(code, j) ::
      && (Reachable(code, j) ==> Straight(code[j]))
      && forall pc: nat | pc + 2 < |code| && Reachable(code, pc) && Jumps(code[pc]) :: j != pc + 1 && j != pc + 2
  }

  ghost predicate VariantOf(code: Code, v: Code) { IsVariant(code, Instructions(code), |code|, v) }

  lemma UnvariedByte(code: Code, v: Code, j: nat)
    requires VariantOf(code, v) && j < |code|
    ensures |v| == |code| && v[j] in Widths(code[j]) && (!Varied(code, j) ==> v[j] == code[j])
  {
    assert Allowed(code, Instructions(code), |code|, j, v[j]);
    assert code[j] == Widths(code[j])[|Widths(code[j])| - 1];
  }

  lemma SameSuccessors(code: Code, v: Code, pc: nat)
    requires Tidy(code) && VariantOf(code, v) && pc < |code| && Reachable(code, pc)
    ensures |v| == |code| && Successors(v, pc) == Successors(code, pc)
  {
    hide Varied, VariantOf, Reachable, Widths, Straight;
    UnvariedByte(code, v, pc);
    if Varied(code, pc) {
      NarrowerIsStraight(code[pc], v[pc]);
      StraightOn(code, pc);
      StraightOn(v, pc);
    } else if Jumps(code[pc]) && pc + 2 < |code| {
      UnvariedByte(code, v, pc + 1);
      UnvariedByte(code, v, pc + 2);
    }
  }

  /** The program with width `w` at `j`. */
  lemma OneWidth(code: Code, j: nat, w: bv8)
    requires j < |code| && Varied(code, j) && w in Widths(code[j])
    ensures VariantOf(code, code[j := w])
  {
    IsItself(code, Instructions(code));
    var v := code[j := w];
    forall i | 0 <= i < |code| ensures Allowed(code, Instructions(code), |code|, i, v[i]) {
      assert Allowed(code, Instructions(code), |code|, i, code[i]);
    }
  }

  /** Every variant steps from the instructions of the program as the program does. */
  ghost predicate SameSteps(code: Code) {
    forall v, pc: nat | VariantOf(code, v) && pc < |code| && Reachable(code, pc) ::
      |v| == |code| && Successors(v, pc) == Successors(code, pc)
  }

  lemma CrookedStep(code: Code, j: nat, w: bv8)
    requires j < |code| && !Straight(code[j]) && w == if code[j] > 32 then 32 else 8
    ensures Successors(code[j := w], j) != Successors(code, j)
  {
    var there, here := Successors(code[j := w], j), Successors(code, j);
    if code[j] > 32 {
      assert |there| == 2 && |here| < 2;
    } else {
      StraightOn(code[j := w], j);
      assert code[j] == OP_EXT ==> here[0] == j + 2;
    }
  }

  lemma CrookedOpcode(code: Code, j: nat)
    requires j < |code| && Varied(code, j) && Reachable(code, j) && !Straight(code[j])
    ensures !SameSteps(code)
  {
    var w: bv8 := if code[j] > 32 then 32 else 8;
    assert w in Widths(code[j]) by {
      assert w == Widths(code[j])[if code[j] > 32 then 2 else 0];
    }
    OneWidth(code, j, w);
    CrookedStep(code, j, w);
  }

  lemma CrookedTarget(code: Code, j: nat, pc: nat)
    requires pc + 2 < |code| && j < |code| && Varied(code, j) && Reachable(code, pc) && Jumps(code[pc])
    requires j == pc + 1 || j == pc + 2
    ensures !SameSteps(code)
  {
    assert 8 in Widths(code[j]) by {
      assert 8 == Widths(code[j])[0];
    }
    OneWidth(code, j, 8);
    hide Widths, VariantOf, Reachable;
    var v := code[j := 8];
    assert Target(v, pc + 1) != Target(code, pc + 1);
    assert Successors(v, pc)[0] == Target(v, pc + 1) && Successors(code, pc)[0] == Target(code, pc + 1);
  }

  /** Exactly when all variants take the steps of the program. */
  lemma SameStepsIff(code: Code)
    ensures SameSteps(code) <==> Tidy(code)
  {
    if Tidy(code) {
      forall v, pc: nat | VariantOf(code, v) && pc < |code| && Reachable(code, pc)
        ensures |v| == |code| && Successors(v, pc) == Successors(code, pc)
      {
        SameSuccessors(code, v, pc);
      }
    } else {
      hide SameSteps, Varied, Reachable;
      var j: nat :| j < |code| && Varied(code, j) && !(
        && (Reachable(code, j) ==> Straight(code[j]))
        && forall pc: nat | pc + 2 < |code| && Reachable(code, pc) && Jumps(code[pc]) :: j != pc + 1 && j != pc + 2);
      if Reachable(code, j) && !Straight(code[j]) {
        CrookedOpcode(code, j);
      } else {
        var pc: nat :| pc + 2 < |code| && Reachable(code, pc) && Jumps(code[pc]) && (j == pc + 1 || j == pc + 2);
        CrookedTarget(code, j, pc);
      }
    }
  }

  /** The way to a place of a path is a path. */
  lemma PathReaches(code: Code, path: seq<nat>, k: nat)
    requires Path(code, path) && k < |path|
    ensures Reachable(code, path[k])
  {
    var way := path[..k + 1];
    assert Path(code, way) && way[|way| - 1] == path[k];
  }

  lemma SamePathThere(code: Code, v: Code, path: seq<nat>)
    requires Tidy(code) && VariantOf(code, v) && Path(code, path)
    ensures Path(v, path)
  {
    forall k | 0 <= k < |path| - 1 ensures path[k] < |v| && path[k + 1] in Successors(v, path[k]) {
      PathReaches(code, path, k);
      SameSuccessors(code, v, path[k]);
    }
  }

  lemma {:induction false} SamePathBack(code: Code, v: Code, path: seq<nat>)
    requires Tidy(code) && VariantOf(code, v) && Path(v, path)
    ensures Path(code, path)
    decreases |path|
  {
    if |path| > 1 {
      var init, k := path[..|path| - 1], |path| - 2;
      assert Path(v, init);
      SamePathBack(code, v, init);
      PathReaches(code, init, k);
      SameSuccessors(code, v, path[k]);
      assert forall i | 0 <= i < |init| :: init[i] == path[i];
    }
  }

  /** Of a tidy program every variant has the same instructions, so the marks that were made
      for the program fit all that are run. */
  lemma VariantsKeepInstructions(code: Code, v: Code)
    requires Tidy(code) && VariantOf(code, v)
    ensures Instructions(v) == Instructions(code)
    ensures forall pc :: Reachable(v, pc) <==> Reachable(code, pc)
  {
    forall pc ensures Reachable(v, pc) <==> Reachable(code, pc) {
      if path :| Path(code, path) && path[|path| - 1] == pc { SamePathThere(code, v, path); }
      if path :| Path(v, path) && path[|path| - 1] == pc { SamePathBack(code, v, path); }
    }
  }

  /** A run of a variant of a tidy program only stands at instructions of the program. */
  lemma VariantStaysReachable(env: Env, code: Code, v: Code, n: nat)
    requires Tidy(code) && VariantOf(code, v) && After(env, v, n).Running()
    ensures Reachable(code, After(env, v, n).pc)
  {
    InterpreterStaysReachable(env, v, n);
    VariantsKeepInstructions(code, v);
  }

  /** A program that jumps into the width of an extension, and a variant of it. */
  const UNTIDY: Code := [OP_IF_GOTO, 0, 4, OP_EXT, OP_CONST8, OP_END, OP_END]
  const NARROWED: Code := [OP_IF_GOTO, 0, 4, OP_EXT, 8, OP_END, OP_END]

  lemma UntidyPaths()
    ensures Reachable(UNTIDY, 3) && Reachable(UNTIDY, 6)
  {
    assert Successors(UNTIDY, 0) == [4, 3] && Successors(UNTIDY, 4) == [6];
    assert Path(UNTIDY, [0, 3]) && Path(UNTIDY, [0, 4, 6]);
    PathReaches(UNTIDY, [0, 3], 1);
    PathReaches(UNTIDY, [0, 4, 6], 2);
  }

  lemma NarrowedPaths()
    ensures !Reachable(NARROWED, 6)
  {
    var marks := [true, false, false, true, true, true, false];
    assert Successors(NARROWED, 0) == [4, 3] && Successors(NARROWED, 3) == [5];
    assert Successors(NARROWED, 4) == [5] && Successors(NARROWED, 5) == [];
    assert Closed(NARROWED, marks, []) by { hide Successors; }
    if path :| Path(NARROWED, path) && path[|path| - 1] == 6 {
      PathIsMarked(NARROWED, marks, path, |path| - 1);
    }
  }

  /** An instruction of the program that is none of its variant. */
  lemma UntidyProgram()
    ensures VariantOf(UNTIDY, NARROWED) && Reachable(UNTIDY, 6) && !Reachable(NARROWED, 6)
  {
    UntidyPaths();
    NarrowedPaths();
    hide Reachable;
    assert 8 in Widths(UNTIDY[4]) by {
      assert 8 == Widths(UNTIDY[4])[0];
    }
    OneWidth(UNTIDY, 4, 8);
    assert NARROWED == UNTIDY[4 := 8];
  }

  // ------------------------------------------------------------------- evaluation

  const MAX_STEPS := 10000

  /** The value a program leaves, if it ends in time and without an error. */
  function Outcome(env: Env, code: Code): Option<int> {
    var s := After(env, code, MAX_STEPS);
    if s.end && !s.error && s.stack != [] then Some(s.stack[|s.stack| - 1]) else None
  }

  lemma {:induction false} StopsForGood(env: Env, code: Code, n: nat, m: nat)
    requires n <= m && !After(env, code, n).Running()
    ensures After(env, code, m) == After(env, code, n)
    decreases m
  {
    if n < m { StopsForGood(env, code, n, m - 1); }
  }

  method RunProgram(env: Env, code: Code) returns (v: Option<int>)
    ensures v == Outcome(env, code)
  {
    var s := START;
    var steps := 0;
    while !s.end
      invariant steps <= MAX_STEPS && s == After(env, code, steps)
      decreases MAX_STEPS - steps
    {
      hide Step;
      if steps >= MAX_STEPS {
        return None;
      }
      if s.error {
        StopsForGood(env, code, steps, MAX_STEPS);
        return None;
      }
      s := Step(env, code, s);
      steps := steps + 1;
    }
    StopsForGood(env, code, steps, MAX_STEPS);
    if s.stack == [] || s.error {
      return None;
    }
    return Some(s.stack[|s.stack| - 1]);
  }

  /** GdbExpression::evaluate: a value exactly when there are programs and they all leave it. */
  method Evaluate(env: Env, vs: seq<Code>) returns (r: Option<int>)
    ensures r.Some? ==> vs != [] && forall i | 0 <= i < |vs| :: Outcome(env, vs[i]) == r
    ensures r.None? ==> vs == [] || exists i, j ::
      0 <= i < |vs| && 0 <= j < |vs| && (Outcome(env, vs[i]).None? || Outcome(env, vs[i]) != Outcome(env, vs[j]))
  {
    r := None;
    for k := 0 to |vs|
      invariant k > 0 <==> r.Some?
      invariant forall i | 0 <= i < k :: Outcome(env, vs[i]) == r
    {
      hide Outcome;
      var v := RunProgram(env, vs[k]);
      if v.None? {
        assert Outcome(env, vs[k]).None?;
        return None;
      }
      if k == 0 {
        r := v;
      } else if r != v {
        assert Outcome(env, vs[0]) != Outcome(env, vs[k]);
        return None;
      }
    }
  }
}
