/**
 The bytecode of gdb agent expressions: how it is interpreted, and which of its bytes a static
 walk finds to be instructions.
 */
module AgentBytecode {
  import opened Options

  const OP_LOG_NOT: bv8 := 0x0e
  const OP_BIT_NOT: bv8 := 0x12
  const OP_EXT: bv8 := 0x16
  const OP_REF8: bv8 := 0x17
  const OP_REF64: bv8 := 0x1a
  const OP_IF_GOTO: bv8 := 0x20
  const OP_GOTO: bv8 := 0x21
  const OP_CONST8: bv8 := 0x22
  const OP_CONST16: bv8 := 0x23
  const OP_CONST32: bv8 := 0x24
  const OP_CONST64: bv8 := 0x25
  const OP_REG: bv8 := 0x26
  const OP_END: bv8 := 0x27
  const OP_DUP: bv8 := 0x28
  const OP_POP: bv8 := 0x29
  const OP_ZERO_EXT: bv8 := 0x2a
  const OP_SWAP: bv8 := 0x2b
  const OP_PICK: bv8 := 0x32
  const OP_ROT: bv8 := 0x33

  type Code = seq<bv8>

  predicate Extends(op: bv8) { op == OP_EXT || op == OP_ZERO_EXT }

  predicate Binary(op: bv8) {
    0x02 <= op <= 0x0b || 0x0f <= op <= 0x11 || 0x13 <= op <= 0x15
  }

  predicate Loads(op: bv8) { OP_REF8 <= op <= OP_REF64 }

  /** A big-endian 16-bit operand; all ones where the code is too short. */
  function Target(code: Code, pc: nat): nat {
    if pc + 2 > |code| then 65535 else code[pc] as nat * 256 + code[pc + 1] as nat
  }

  // ------------------------------------------------------------------ static walk

  /** Where the walk goes from an instruction at `pc`, in the order it is put on the worklist. */
  function Successors(code: Code, pc: nat): seq<nat>
    requires pc < |code|
  {
    var op := code[pc];
    if Extends(op) || op == OP_PICK || op == OP_CONST8 then [pc + 2]
    else if op == OP_IF_GOTO then [Target(code, pc + 1), pc + 3]
    else if op == OP_GOTO then [Target(code, pc + 1)]
    else if op == OP_CONST16 || op == OP_REG then [pc + 3]
    else if op == OP_CONST32 then [pc + 5]
    else if op == OP_CONST64 then [pc + 9]
    else if op == OP_END then []
    else [pc + 1]
  }

  /** Every step of the path goes from an instruction to one of its successors. */
  ghost predicate Path(code: Code, path: seq<nat>) {
    && path != [] && path[0] == 0
    && forall k | 0 <= k < |path| - 1 :: path[k] < |code| && path[k + 1] in Successors(code, path[k])
  }

  ghost predicate Reachable(code: Code, pc: nat) {
    exists path :: Path(code, path) && path[|path| - 1] == pc
  }

  lemma ReachableStart(code: Code)
    ensures Reachable(code, 0)
  {
    assert Path(code, [0]);
    assert [0][|[0]| - 1] == 0;
  }

  lemma ReachableNext(code: Code, pc: nat, next: nat)
    requires Reachable(code, pc) && pc < |code| && next in Successors(code, pc)
    ensures Reachable(code, next)
  {
    hide Successors;
    var path :| Path(code, path) && path[|path| - 1] == pc;
    var longer := path + [next];
    assert forall k | 0 <= k < |path| :: longer[k] == path[k];
    assert Path(code, longer);
    assert longer[|longer| - 1] == next;
  }

  /** Marked instructions have all their successors marked, outside the code or waiting. */
  ghost predicate Closed(code: Code, marks: seq<bool>, waiting: seq<nat>)
    requires |marks| == |code|
  {
    forall pc, next: nat | 0 <= pc < |code| && marks[pc] && next in Successors(code, pc) ::
      next >= |code| || marks[next] || next in waiting
  }

  lemma {:induction false} PathIsMarked(code: Code, marks: seq<bool>, path: seq<nat>, k: nat)
    requires |marks| == |code| && Closed(code, marks, []) && (|code| > 0 ==> marks[0])
    requires Path(code, path) && k < |path| && path[k] < |code|
    ensures marks[path[k]]
  {
    if k > 0 {
      PathIsMarked(code, marks, path, k - 1);
      assert path[k] in Successors(code, path[k - 1]);
    }
  }

  // ------------------------------------------------------------------ interpreter

  /** What the interpreter takes from elsewhere: arithmetic, the tracee's memory and registers.
      No value means an error. */
  datatype Env = Env(
    binary: (bv8, int, int) -> Option<int>, unary: (bv8, int) -> int, extend: (bv8, bv8, int) -> Option<int>,
    load: (bv8, int) -> Option<int>, reg: nat -> Option<int>, constant: (Code, nat) -> int)

  datatype State = State(stack: seq<int>, pc: nat, error: bool, end: bool) {
    predicate Running() { !error && !end }

    function Fail(): State { this.(error := true) }

    function Push(v: Option<int>): State {
      if v.None? then Fail() else this.(stack := stack + [v.value])
    }

    /** Pops `n` values; it is an error if there are fewer. */
    function Drop(n: nat): State {
      if n > |stack| then this.(stack := [], error := true) else this.(stack := stack[..|stack| - n])
    }

    function Top(i: nat): int { if i < |stack| then stack[|stack| - 1 - i] else -1 }
  }

  /** The size of the operand that follows an opcode in the interpreter. */
  function OperandSize(op: bv8): nat {
    if Extends(op) || op == OP_PICK || op == OP_CONST8 then 1
    else if op == OP_IF_GOTO || op == OP_GOTO || op == OP_CONST16 || op == OP_REG then 2
    else if op == OP_CONST32 then 4
    else if op == OP_CONST64 then 8
    else 0
  }

  function Execute(env: Env, code: Code, op: bv8, at: nat, s: State): State
    requires at + OperandSize(op) <= |code| && s.pc == at + OperandSize(op)
  {
    if Binary(op) then s.Drop(2).Push(env.binary(op, s.Top(1), s.Top(0)))
    else if op == OP_LOG_NOT || op == OP_BIT_NOT then s.Drop(1).Push(Some(env.unary(op, s.Top(0))))
    else if Extends(op) then
      var bits := code[at];
      var s := if op == OP_EXT && bits == 0 then s.Fail() else s;
      if bits >= 64 then s else s.Drop(1).Push(env.extend(op, bits, s.Top(0)))
    else if Loads(op) then (if s.Drop(1).error then s.Drop(1) else s.Drop(1).Push(env.load(op, s.Top(0))))
    else if op == OP_DUP then (if s.stack == [] then s.Fail() else s.Push(Some(s.Top(0))))
    else if op == OP_SWAP then s.Drop(2).Push(Some(s.Top(0))).Push(Some(s.Top(1)))
    else if op == OP_POP then s.Drop(1)
    else if op == OP_PICK then
      (if code[at] as nat >= |s.stack| then s.Fail() else s.Push(Some(s.Top(code[at] as nat))))
    else if op == OP_ROT then s.Drop(3).Push(Some(s.Top(0))).Push(Some(s.Top(1))).Push(Some(s.Top(2)))
    else if op == OP_IF_GOTO then (if s.Top(0) != 0 then s.Drop(1).(pc := Target(code, at)) else s.Drop(1))
    else if op == OP_GOTO then s.(pc := Target(code, at))
    else if op == OP_CONST8 || op == OP_CONST16 || op == OP_CONST32 || op == OP_CONST64 then
      s.Push(Some(env.constant(code, at)))
    else if op == OP_REG then s.Push(env.reg(Target(code, at)))
    else if op == OP_END then s.(end := true)
    else s.Fail()
  }

  /** ExpressionState::step. Once an operand is missing the error is final. */
  function Step(env: Env, code: Code, s: State): State
    requires s.Running()
  {
    if s.pc + 1 > |code| then s.Fail()
    else
      var op := code[s.pc];
      if s.pc + 1 + OperandSize(op) > |code| then s.Fail()
      else Execute(env, code, op, s.pc + 1, s.(pc := s.pc + 1 + OperandSize(op)))
  }

  /** One step of the interpreter follows the static successor relation. */
  lemma StepFollows(env: Env, code: Code, s: State)
    requires s.Running() && Step(env, code, s).Running()
    ensures s.pc < |code| && Step(env, code, s).pc in Successors(code, s.pc)
  {
    var op := code[s.pc];
    var at := s.pc + 1;
    var t := s.(pc := at + OperandSize(op));
    assert Step(env, code, s) == Execute(env, code, op, at, t);
    ExecutePc(env, code, op, at, t);
    hide Execute, Step;
    assert op == OP_IF_GOTO ==> Successors(code, s.pc)[0] == Target(code, at) && Successors(code, s.pc)[1] == s.pc + 3;
    assert Successors(code, s.pc) != [] ==> Successors(code, s.pc)[0] in Successors(code, s.pc);
  }

  lemma ExecutePc(env: Env, code: Code, op: bv8, at: nat, s: State)
    requires at + OperandSize(op) <= |code| && s.pc == at + OperandSize(op)
    requires Execute(env, code, op, at, s).Running()
    ensures op != OP_END
    ensures op == OP_GOTO ==> Execute(env, code, op, at, s).pc == Target(code, at)
    ensures op == OP_IF_GOTO ==>
      Execute(env, code, op, at, s).pc == Target(code, at) || Execute(env, code, op, at, s).pc == s.pc
    ensures op != OP_GOTO && op != OP_IF_GOTO ==> Execute(env, code, op, at, s).pc == s.pc
  {
  }

  const START := State([], 0, false, false)

  /** The state `n` steps after `s`, or where the interpreter stopped before. */
  function AfterFrom(env: Env, code: Code, s: State, n: nat): State {
    if n == 0 then s
    else
      var before := AfterFrom(env, code, s, n - 1);
      if before.Running() then Step(env, code, before) else before
  }

  function After(env: Env, code: Code, n: nat): State { AfterFrom(env, code, START, n) }

  /** Whatever the arithmetic, the memory and the registers are, the interpreter only ever
      stands at places the static walk can reach. */
  lemma {:induction false} InterpreterStaysReachable(env: Env, code: Code, n: nat)
    requires After(env, code, n).Running()
    ensures Reachable(code, After(env, code, n).pc)
  {
    if n == 0 {
      ReachableStart(code);
    } else {
      var s := After(env, code, n - 1);
      InterpreterStaysReachable(env, code, n - 1);
      StepFollows(env, code, s);
      ReachableNext(code, s.pc, Step(env, code, s).pc);
    }
  }

  // ------------------------------------------------------------------------ stack

  /** The same state with `base` below its stack. */
  function Above(base: seq<int>, s: State): State { s.(stack := base + s.stack) }

  lemma DropAbove(base: seq<int>, s: State, n: nat)
    requires n <= |s.stack|
    ensures Above(base, s).Drop(n) == Above(base, s.Drop(n))
  {
    assert (base + s.stack)[..|base| + |s.stack| - n] == base + s.stack[..|s.stack| - n];
  }

  lemma PushAbove(base: seq<int>, s: State, v: Option<int>)
    ensures Above(base, s).Push(v) == Above(base, s.Push(v))
  {
    if v.Some? { assert base + s.stack + [v.value] == base + (s.stack + [v.value]); }
  }

  lemma TopAbove(base: seq<int>, s: State, i: nat)
    requires i < |s.stack|
    ensures Above(base, s).Top(i) == s.Top(i)
  {
  }

  /** Popping and pushing commute with putting values below. */
  lemma ReplaceAbove(base: seq<int>, s: State, n: nat, v: Option<int>)
    requires n <= |s.stack|
    ensures Above(base, s).Drop(n).Push(v) == Above(base, s.Drop(n).Push(v))
  {
    DropAbove(base, s, n);
    PushAbove(base, s.Drop(n), v);
  }

  lemma ShuffleAbove(base: seq<int>, s: State, n: nat, u: int, v: int, w: int)
    requires n <= |s.stack|
    ensures Above(base, s).Drop(n).Push(Some(u)).Push(Some(v)) == Above(base, s.Drop(n).Push(Some(u)).Push(Some(v)))
    ensures Above(base, s).Drop(n).Push(Some(u)).Push(Some(v)).Push(Some(w))
      == Above(base, s.Drop(n).Push(Some(u)).Push(Some(v)).Push(Some(w)))
  {
    ReplaceAbove(base, s, n, Some(u));
    PushAbove(base, s.Drop(n).Push(Some(u)), Some(v));
    PushAbove(base, s.Drop(n).Push(Some(u)).Push(Some(v)), Some(w));
  }

  /** How many values an instruction takes from the stack. */
  function Takes(code: Code, op: bv8, at: nat): nat
    requires at + OperandSize(op) <= |code|
  {
    if Binary(op) || op == OP_SWAP then 2
    else if op == OP_ROT then 3
    else if Extends(op) then (if code[at] >= 64 then 0 else 1)
    else if op == OP_PICK then code[at] as nat + 1
    else if op == OP_LOG_NOT || op == OP_BIT_NOT || Loads(op) || op == OP_POP || op == OP_IF_GOTO || op == OP_DUP then 1
    else 0
  }

  lemma FindsEnough(env: Env, code: Code, op: bv8, at: nat, s: State)
    requires at + OperandSize(op) <= |code| && s.pc == at + OperandSize(op)
    requires !Execute(env, code, op, at, s).error
    ensures Takes(code, op, at) <= |s.stack|
  {
  }

  lemma ExecuteAbove(env: Env, code: Code, op: bv8, at: nat, s: State, base: seq<int>)
    requires at + OperandSize(op) <= |code| && s.pc == at + OperandSize(op)
    requires !Execute(env, code, op, at, s).error
    ensures Execute(env, code, op, at, Above(base, s)) == Above(base, Execute(env, code, op, at, s))
  {
    FindsEnough(env, code, op, at, s);
    var n := |s.stack|;
    forall i: nat | i < n ensures Above(base, s).Top(i) == s.Top(i) { TopAbove(base, s, i); }
    forall k: nat, v | k <= n ensures Above(base, s).Drop(k).Push(v) == Above(base, s.Drop(k).Push(v)) {
      ReplaceAbove(base, s, k, v);
    }
    forall k: nat | k <= n ensures Above(base, s).Drop(k) == Above(base, s.Drop(k)) { DropAbove(base, s, k); }
    forall v ensures Above(base, s).Push(v) == Above(base, s.Push(v)) { PushAbove(base, s, v); }
    if op == OP_SWAP { ShuffleAbove(base, s, 2, s.Top(0), s.Top(1), 0); }
    if op == OP_ROT { ShuffleAbove(base, s, 3, s.Top(0), s.Top(1), s.Top(2)); }
    hide State.Drop, State.Push, State.Top;
  }

  lemma StepAbove(env: Env, code: Code, s: State, base: seq<int>)
    requires s.Running() && !Step(env, code, s).error
    ensures Step(env, code, Above(base, s)) == Above(base, Step(env, code, s))
  {
    hide Execute, OperandSize;
    var op, at := code[s.pc], s.pc + 1;
    var t := s.(pc := at + OperandSize(op));
    ExecuteAbove(env, code, op, at, t, base);
    assert Above(base, s).(pc := at + OperandSize(op)) == Above(base, t);
  }

  /** A run that does not fail neither reads nor changes what lies below the values it starts
      with: put anything there and every state of the run is the same but for that. */
  lemma {:induction false} RunAbove(env: Env, code: Code, s: State, base: seq<int>, n: nat)
    requires !AfterFrom(env, code, s, n).error
    ensures AfterFrom(env, code, Above(base, s), n) == Above(base, AfterFrom(env, code, s, n))
  {
    hide Step;
    if n > 0 {
      var t := AfterFrom(env, code, s, n - 1);
      RunAbove(env, code, s, base, n - 1);
      if t.Running() { StepAbove(env, code, t, base); }
    }
  }

  /** The order appendix F.2 of the GDB manual gives for `rot`: a b c becomes c a b. */
  function ManualRot(stack: seq<int>): seq<int>
    requires |stack| >= 3
  {
    var n := |stack|;
    stack[..n - 3] + [stack[n - 1], stack[n - 3], stack[n - 2]]
  }

  /** The interpreter reverses the three values instead. On any stack that holds three, it
      agrees with the manual if and only if the lower two are equal. */
  lemma RotIsManualIff(env: Env, code: Code, at: nat, s: State)
    requires at <= |code| && s.pc == at && |s.stack| >= 3
    ensures var n := |s.stack|;
      Execute(env, code, OP_ROT, at, s).stack == ManualRot(s.stack) <==> s.stack[n - 3] == s.stack[n - 2]
  {
    var n := |s.stack|;
    var code3 := s.stack[..n - 3] + [s.stack[n - 1], s.stack[n - 2], s.stack[n - 3]];
    assert Execute(env, code, OP_ROT, at, s).stack == code3;
    assert code3[n - 2] == s.stack[n - 2] && ManualRot(s.stack)[n - 2] == s.stack[n - 3];
  }
}
