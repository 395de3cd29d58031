/** The rewriting of the code before it is run, and why nothing can tell that it was rewritten
  (libaleth-interpreter/VMOpt.cpp:42-165, with constant pool and constant jumps switched on). */
module VmOptimize {
  import opened Bytes
  import opened VmCode

  const EXTRA_BYTES := 33
  const POOL_OFFSETS := 0x1_0000

  function Zeros(n: nat): (zeros: Bytes)
    ensures |zeros| == n && forall i :: 0 <= i < n ==> zeros[i] == 0
  {
    seq(n, _ => 0)
  }

  /** copyCode: zero bytes behind the code stand for what a push at the end reads. */
  function Extended(source: Bytes): (extended: Bytes)
    ensures |extended| == |source| + EXTRA_BYTES
  {
    source + Zeros(EXTRA_BYTES)
  }

  // ---------------------------------------------------------------- instruction boundaries

  /** Where instructions start when the code is read from pc on; the last one is at or past n. */
  function Starts(code: Bytes, pc: nat, n: nat): (starts: seq<nat>)
    requires n <= |code|
    ensures |starts| >= 1 && starts[0] == pc
    decreases n - pc
  {
    if pc >= n then [pc] else [pc] + Starts(code, NextPc(code, pc), n)
  }

  lemma {:induction false} StartsStep(code: Bytes, pc: nat, n: nat, i: nat)
    requires n <= |code| && i < |Starts(code, pc, n)|
    ensures var starts := Starts(code, pc, n);
      if i < |starts| - 1 then starts[i] < n && starts[i + 1] == NextPc(code, starts[i]) else starts[i] >= n
    decreases i
  {
    if pc < n && i > 0 {
      StartsStep(code, NextPc(code, pc), n, i - 1);
    }
  }

  lemma {:induction false} StartsGrow(code: Bytes, pc: nat, n: nat, i: nat, j: nat)
    requires n <= |code| && i < j < |Starts(code, pc, n)|
    ensures Starts(code, pc, n)[i] < n
    ensures NextPc(code, Starts(code, pc, n)[i]) <= Starts(code, pc, n)[j]
    decreases j
  {
    StartsStep(code, pc, n, i);
    if i + 1 < j {
      StartsGrow(code, pc, n, i, j - 1);
      StartsStep(code, pc, n, j - 1);
    }
  }

  lemma StartsBound(code: Bytes, n: nat, i: nat)
    requires n <= |code| && i < |Starts(code, 0, n)|
    ensures Starts(code, 0, n)[i] <= n + 32
  {
    StartsStep(code, 0, n, i);
    if i > 0 {
      StartsStep(code, 0, n, i - 1);
    }
  }

  /** Codes whose instructions have the same widths have the same boundaries. */
  lemma {:induction false} SameStarts(a: Bytes, b: Bytes, pc: nat, n: nat)
    requires n <= |a| == |b|
    requires forall s :: s in Starts(a, pc, n) && s < n ==> Width(a[s]) == Width(b[s])
    ensures Starts(a, pc, n) == Starts(b, pc, n)
    decreases n - pc
  {
    if pc < n {
      assert pc in Starts(a, pc, n);
      SameStarts(a, b, NextPc(a, pc), n);
    }
  }

  // ---------------------------------------------------------------- what is run without the optimisations

  predicate Synthetic(op: Byte) {
    op == PUSHC || op == JUMPC || op == JUMPCI
  }

  /** Optimised instructions in the user's code are invalid. */
  function Masked(op: Byte): Byte {
    if Synthetic(op) then INVALID else op
  }

  ghost function Plain(source: Bytes): (plain: Bytes)
    ensures |plain| == |source| + EXTRA_BYTES
  {
    var extended := Extended(source);
    var starts := Starts(extended, 0, |source|);
    seq(|extended|, p requires 0 <= p < |extended| => if p in starts then Masked(extended[p]) else extended[p])
  }

  lemma PlainAt(source: Bytes, p: nat)
    requires p < |Plain(source)|
    ensures Plain(source)[p]
      == if p in Starts(Extended(source), 0, |source|) then Masked(Extended(source)[p]) else Extended(source)[p]
    ensures p >= |source| ==> Plain(source)[p] == STOP
  {
    hide Starts;
  }

  ghost function StartsOf(source: Bytes): (starts: seq<nat>)
    ensures |starts| >= 1 && starts[0] == 0
  {
    Starts(Plain(source), 0, |source|)
  }

  lemma SourceStarts(source: Bytes)
    ensures StartsOf(source) == Starts(Extended(source), 0, |source|)
  {
    hide Starts, Width, Plain, Extended;
    forall p | p in Starts(Extended(source), 0, |source|) && p < |source|
      ensures Width(Extended(source)[p]) == Width(Plain(source)[p])
    {
      PlainAt(source, p);
      MaskedWidth(Extended(source)[p]);
    }
    SameStarts(Extended(source), Plain(source), 0, |source|);
  }

  lemma MaskedWidth(op: Byte)
    ensures Width(Masked(op)) == Width(op)
  {
  }

  ghost function Op(source: Bytes, j: nat): Byte
    requires j < |StartsOf(source)|
  {
    StartsBound(Plain(source), |source|, j);
    Plain(source)[StartsOf(source)[j]]
  }

  /** The last of the boundaries is behind the code. */
  ghost predicate Inside(source: Bytes, j: nat) {
    j < |StartsOf(source)| - 1
  }

  lemma StartOf(source: Bytes, j: nat)
    requires j < |StartsOf(source)|
    ensures StartsOf(source)[j] < |Plain(source)| && !Synthetic(Op(source, j))
    ensures Inside(source, j) ==>
      && StartsOf(source)[j] < |source|
      && StartsOf(source)[j + 1] == StartsOf(source)[j] + 1 + Width(Op(source, j)) < |Plain(source)|
    ensures !Inside(source, j) ==> Op(source, j) == STOP
  {
    hide Plain, Starts, Extended;
    SourceStarts(source);
    StartsStep(Plain(source), 0, |source|, j);
    StartsBound(Plain(source), |source|, j);
    PlainAt(source, StartsOf(source)[j]);
    assert StartsOf(source)[j] in StartsOf(source);
    if Inside(source, j) {
      StartsBound(Plain(source), |source|, j + 1);
    }
  }

  lemma StartsApart(source: Bytes, i: nat, j: nat)
    requires i < |StartsOf(source)| && Inside(source, j)
    ensures i <= j ==> StartsOf(source)[i] <= StartsOf(source)[j]
    ensures i > j ==> StartsOf(source)[i] >= StartsOf(source)[j + 1]
    ensures StartsOf(source)[j] < StartsOf(source)[j + 1]
  {
    hide Plain, Starts;
    StartOf(source, j);
    if i < j {
      StartsGrow(Plain(source), 0, |source|, i, j);
    } else if j + 1 < i {
      StartsGrow(Plain(source), 0, |source|, j + 1, i);
    }
  }

  /** Between two instructions the code is not touched by masking. */
  lemma BetweenStarts(source: Bytes, j: nat, q: nat)
    requires Inside(source, j) && StartsOf(source)[j] < q < StartsOf(source)[j + 1]
    ensures q < |Plain(source)| && Plain(source)[q] == Extended(source)[q]
  {
    hide Plain, Starts, Extended;
    StartOf(source, j);
    forall i | 0 <= i < |StartsOf(source)|
      ensures StartsOf(source)[i] != q
    {
      StartsApart(source, i, j);
    }
    SourceStarts(source);
    PlainAt(source, q);
  }

  /** The constant pushed by instruction j. */
  ghost function Constant(source: Bytes, j: nat): Word
    requires Inside(source, j)
  {
    StartOf(source, j);
    Pushed(Plain(source), StartsOf(source)[j])
  }

  /** The destinations among the first `count` instructions. */
  ghost function Dests(source: Bytes, count: nat): seq<nat>
    requires count < |StartsOf(source)|
  {
    if count == 0 then []
    else Dests(source, count - 1) + if Op(source, count - 1) == JUMPDEST then [StartsOf(source)[count - 1]] else []
  }

  ghost function AllDests(source: Bytes): seq<nat> {
    Dests(source, |StartsOf(source)| - 1)
  }

  ghost function Unoptimized(source: Bytes): Program {
    Program(Plain(source), AllDests(source), [])
  }

  // ---------------------------------------------------------------- what the optimisations make of it

  /** Constants of more than five bytes go into the pool. */
  predicate Wide(op: Byte) {
    Width(op) > 5
  }

  /** The constant the instruction before pushes, if it is a push. */
  ghost function ConstantBefore(source: Bytes, j: nat): Option<Word>
    requires j < |StartsOf(source)|
  {
    if j > 0 && Width(Op(source, j - 1)) > 0 then Some(Constant(source, j - 1)) else None
  }

  /** A jump to a constant destination that was looked up beforehand. */
  ghost function JumpOp(source: Bytes, j: nat): Byte
    requires j < |StartsOf(source)|
  {
    var op, constant := Op(source, j), ConstantBefore(source, j);
    if constant.Some? && Lands(AllDests(source), constant.value) then
      if op == JUMP then JUMPC else if op == JUMPI then JUMPCI else op
    else op
  }

  /** The constants of the pool, from the first `count` instructions. */
  ghost function Pooled(source: Bytes, count: nat): seq<Word>
    requires count < |StartsOf(source)|
  {
    if count == 0 then []
    else Pooled(source, count - 1) + if Wide(Op(source, count - 1)) then [Constant(source, count - 1)] else []
  }

  ghost function PoolOffset(source: Bytes, j: nat): (offset: nat)
    requires j < |StartsOf(source)|
    ensures offset < POOL_OFFSETS
  {
    |Pooled(source, j)| % POOL_OFFSETS
  }

  /** Instruction j as it is after both passes. */
  ghost predicate Rewritten(source: Bytes, code: Bytes, j: nat)
    requires j < |StartsOf(source)| && |code| == |Plain(source)|
  {
    StartOf(source, j);
    var plain, start := Plain(source), StartsOf(source)[j];
    if Wide(Op(source, j)) then
      && code[start] == PUSHC
      && code[start + 1] == PoolOffset(source, j) / 0x100 && code[start + 2] == PoolOffset(source, j) % 0x100
      && code[start + 3] == Width(Op(source, j)) - 2
    else
      && code[start] == JumpOp(source, j)
      && (Inside(source, j) ==>
        code[start + 1..StartsOf(source)[j + 1]] == plain[start + 1..StartsOf(source)[j + 1]])
  }

  ghost predicate Optimized(source: Bytes, p: Program) {
    && |p.code| == |Plain(source)|
    && p.jumpDests == AllDests(source)
    && p.pool == Pooled(source, |StartsOf(source)| - 1)
    && forall j :: 0 <= j < |StartsOf(source)| ==> Rewritten(source, p.code, j)
  }

  /** A constant can be read back through its two-byte offset. */
  predicate ReadsBack(pool: seq<Word>, i: nat) {
    i < |pool| ==> pool[i % POOL_OFFSETS] == pool[i]
  }

  ghost predicate PoolReadable(pool: seq<Word>) {
    forall i: nat :: ReadsBack(pool, i)
  }

  lemma SmallPoolReadable(pool: seq<Word>)
    ensures |pool| <= POOL_OFFSETS ==> PoolReadable(pool)
  {
  }

  // ---------------------------------------------------------------- simulation

  /** The machine is at instruction j, and at a jump that was looked up beforehand its destination is on the stack. */
  ghost predicate At<W>(source: Bytes, m: Machine<W>, j: nat) {
    && j < |StartsOf(source)| && m.pc == StartsOf(source)[j]
    && (Synthetic(JumpOp(source, j)) ==> m.stack != [] && Some(m.stack[0]) == ConstantBefore(source, j))
  }

  lemma {:induction false} DestIsStart(source: Bytes, count: nat, dest: nat) returns (j: nat)
    requires count < |StartsOf(source)| && dest in Dests(source, count)
    ensures j < count && StartsOf(source)[j] == dest && Op(source, j) == JUMPDEST
  {
    hide Op, StartsOf;
    if dest in Dests(source, count - 1) {
      j := DestIsStart(source, count - 1, dest);
    } else {
      j := count - 1;
    }
  }

  /** A jump destination among the first instructions is noted. */
  lemma {:induction false} Noted(source: Bytes, j: nat, count: nat)
    requires j < count < |StartsOf(source)| && Op(source, j) == JUMPDEST
    ensures StartsOf(source)[j] in Dests(source, count)
  {
    hide Op, StartsOf;
    if j < count - 1 {
      Noted(source, j, count - 1);
    }
  }

  /** The linear reading: behind an instruction comes the next one, and behind PUSHn its n bytes of data come first. */
  lemma LinearReading(source: Bytes, j: nat)
    requires j < |StartsOf(source)|
    ensures StartsOf(source)[0] == 0
    ensures j == |StartsOf(source)| - 1 <==> StartsOf(source)[j] >= |source|
    ensures j < |StartsOf(source)| - 1 ==>
      var start := StartsOf(source)[j];
      var op := source[start];
      StartsOf(source)[j + 1] == start + 1 + (if 0x60 <= op <= 0x7f then op - 0x5f else 0)
  {
    hide Plain, Starts;
    SourceStarts(source);
    StartsStep(Extended(source), 0, |source|, j);
  }

  /** The jump destinations are the bytes 0x5b that the linear reading comes to, and not those in the data of a push. */
  lemma DestsExact(source: Bytes, dest: nat)
    ensures dest in AllDests(source) <==>
      dest < |source| && source[dest] == 0x5b && exists j :: 0 <= j < |StartsOf(source)| && StartsOf(source)[j] == dest
  {
    hide Plain, Starts, StartsOf, Op, Dests;
    var last := |StartsOf(source)| - 1;
    if dest in AllDests(source) {
      var j := DestIsStart(source, last, dest);
      OpIsByte(source, j);
    }
    if j :| 0 <= j < |StartsOf(source)| && StartsOf(source)[j] == dest && dest < |source| && source[dest] == 0x5b {
      LinearReading(source, j);
      OpIsByte(source, j);
      Noted(source, j, last);
    }
  }

  /** Of the user's instructions only the three that are reserved for the optimised code change: they are invalid. */
  lemma OpIsByte(source: Bytes, j: nat)
    requires Inside(source, j)
    ensures StartsOf(source)[j] < |source|
    ensures var op := source[StartsOf(source)[j]]; Op(source, j) == if 0xac <= op <= 0xae then 0xfe else op
  {
    hide Plain, Starts;
    StartOf(source, j);
    SourceStarts(source);
    PlainAt(source, StartsOf(source)[j]);
    assert StartsOf(source)[j] in StartsOf(source);
  }

  /** A jump that lands is at an instruction that no optimisation touches. */
  lemma LandedAt<W>(source: Bytes, m: Machine<W>)
    requires m.pc in AllDests(source)
    ensures exists j :: At(source, m, j)
  {
    hide Op, StartsOf, Dests, ConstantBefore;
    var j := DestIsStart(source, |StartsOf(source)| - 1, m.pc);
    assert At(source, m, j);
  }

  /** Going on past an instruction that is not a push. */
  lemma PassedAt<W>(source: Bytes, m: Machine<W>, j: nat)
    requires Inside(source, j) && m.pc == StartsOf(source)[j] + 1 && Width(Op(source, j)) == 0
    ensures At(source, m, j + 1)
  {
    hide Op, StartsOf, Dests, Constant;
    StartOf(source, j);
    StartOf(source, j + 1);
  }

  /** Going on past a push. */
  lemma PushedAt<W>(source: Bytes, m: Machine<W>, j: nat)
    requires Inside(source, j) && m.pc == StartsOf(source)[j + 1] && Width(Op(source, j)) > 0
    requires m.stack != [] && m.stack[0] == Constant(source, j)
    ensures At(source, m, j + 1)
  {
    hide Op, StartsOf, Dests, Constant;
  }

  lemma {:induction false} PooledPrefix(source: Bytes, i: nat, j: nat)
    requires i <= j < |StartsOf(source)|
    ensures Pooled(source, i) <= Pooled(source, j)
  {
    hide Op, StartsOf, Constant;
    if i < j {
      PooledPrefix(source, i, j - 1);
    }
  }

  lemma WideConstant(source: Bytes, j: nat)
    requires Inside(source, j) && Wide(Op(source, j))
    ensures var pool := Pooled(source, |StartsOf(source)| - 1);
      |Pooled(source, j)| < |pool| && pool[|Pooled(source, j)|] == Constant(source, j)
  {
    hide Op, StartsOf, Constant;
    PooledPrefix(source, j + 1, |StartsOf(source)| - 1);
  }

  /** The interpreter's own stop instruction does not go on. */
  ghost predicate StopStops<W(!new)>(others: Others<W>) {
    forall m: Machine<W> :: !others(STOP, m).Next?
  }

  /** What one instruction has to satisfy: both codes do the same, nothing is read that is not there, and the machine
    goes on at an instruction. */
  ghost predicate Agrees<W(!new)>(source: Bytes, p: Program, metrics: Metrics, others: Others<W>, m: Machine<W>) {
    var outcome := Step(p, metrics, others, m);
    && outcome == Step(Unoptimized(source), metrics, others, m)
    && outcome != Astray
    && (outcome.Going? ==> exists j :: At(source, outcome.m, j))
  }

  /** A push whose bytes have not been touched. */
  lemma NarrowPush<W(!new)>(a: Program, b: Program, metrics: Metrics, others: Others<W>, m: Machine<W>)
    requires m.pc < |a.code| == |b.code| && a.code[m.pc] == b.code[m.pc] && Width(b.code[m.pc]) > 0
    requires NextPc(b.code, m.pc) <= |b.code|
    requires a.code[m.pc + 1..NextPc(b.code, m.pc)] == b.code[m.pc + 1..NextPc(b.code, m.pc)]
    ensures Step(a, metrics, others, m) == Step(b, metrics, others, m)
  {
    hide WordOf;
  }

  /** A push that has become a read of the pool. */
  lemma WidePush<W(!new)>(a: Program, b: Program, table: Metrics, others: Others<W>, m: Machine<W>, offset: nat)
    requires m.pc < |a.code| == |b.code| && Wide(b.code[m.pc]) && NextPc(b.code, m.pc) <= |b.code| && Standard(table)
    requires a.code[m.pc] == PUSHC && a.code[m.pc + 3] == Width(b.code[m.pc]) - 2
    requires offset < POOL_OFFSETS && a.code[m.pc + 1] == offset / 0x100 && a.code[m.pc + 2] == offset % 0x100
    requires offset < |a.pool| && a.pool[offset] == Pushed(b.code, m.pc)
    ensures Step(a, InitMetrics(table), others, m) == Step(b, InitMetrics(table), others, m)
  {
    hide WordOf;
  }

  lemma PushAgrees<W(!new)>(source: Bytes, p: Program, table: Metrics, others: Others<W>, m: Machine<W>, j: nat)
    requires Optimized(source, p) && Standard(table) && Inside(source, j) && At(source, m, j)
    requires Width(Op(source, j)) > 0 && (Wide(Op(source, j)) ==> ReadsBack(p.pool, |Pooled(source, j)|))
    ensures Agrees(source, p, InitMetrics(table), others, m)
  {
    hide Step, Plain, Starts, Pooled, Dests, ConstantBefore, Pushed, Standard, InitMetrics;
    StartOf(source, j);
    assert Rewritten(source, p.code, j);
    if Wide(Op(source, j)) {
      WideConstant(source, j);
      WidePush(p, Unoptimized(source), table, others, m, PoolOffset(source, j));
    } else {
      assert p.code[m.pc] == Op(source, j);
      NarrowPush(p, Unoptimized(source), InitMetrics(table), others, m);
    }
    PushGoesOn(source, table, others, m, j);
  }

  lemma PushGoesOn<W(!new)>(source: Bytes, table: Metrics, others: Others<W>, m: Machine<W>, j: nat)
    requires Inside(source, j) && At(source, m, j) && Width(Op(source, j)) > 0
    ensures var outcome := Step(Unoptimized(source), InitMetrics(table), others, m);
      outcome != Astray && (outcome.Going? ==> At(source, outcome.m, j + 1))
  {
    hide Plain, Starts, Dests, WordOf, ConstantBefore, InitMetrics;
    StartOf(source, j);
    var outcome := Step(Unoptimized(source), InitMetrics(table), others, m);
    if outcome.Going? {
      PushedAt(source, outcome.m, j);
    }
  }

  lemma JumpAgrees<W(!new)>(source: Bytes, p: Program, table: Metrics, others: Others<W>, m: Machine<W>, j: nat)
    requires Optimized(source, p) && Standard(table) && Inside(source, j) && At(source, m, j)
    requires Op(source, j) == JUMP || Op(source, j) == JUMPI
    ensures Agrees(source, p, InitMetrics(table), others, m)
  {
    hide Plain, Starts, Pooled, Dests, Constant;
    StartOf(source, j);
    assert Rewritten(source, p.code, j);
    var outcome := Step(Unoptimized(source), InitMetrics(table), others, m);
    if outcome.Going? {
      if Op(source, j) == JUMPI && m.stack[1] == 0 {
        PassedAt(source, outcome.m, j);
      } else {
        LandedAt(source, outcome.m);
      }
    }
  }

  lemma OtherAgrees<W(!new)>(source: Bytes, p: Program, table: Metrics, others: Others<W>, m: Machine<W>, j: nat)
    requires Optimized(source, p) && At(source, m, j) && StopStops(others)
    requires Width(Op(source, j)) == 0 && Op(source, j) != JUMP && Op(source, j) != JUMPI
    ensures Agrees(source, p, InitMetrics(table), others, m)
  {
    hide Plain, Starts, Pooled, Dests, ConstantBefore;
    StartOf(source, j);
    assert Rewritten(source, p.code, j);
    var outcome := Step(Unoptimized(source), InitMetrics(table), others, m);
    if outcome.Going? {
      PassedAt(source, outcome.m, j);
    }
  }

  /** One instruction does the same in both codes, at every instruction of the linear reading. */
  lemma StepAgrees<W(!new)>(source: Bytes, p: Program, table: Metrics, others: Others<W>, m: Machine<W>, j: nat)
    requires Optimized(source, p) && Standard(table) && StopStops(others) && At(source, m, j)
    requires Wide(Op(source, j)) ==> ReadsBack(p.pool, |Pooled(source, j)|)
    ensures Agrees(source, p, InitMetrics(table), others, m)
  {
    hide Plain, Starts, Pooled, Dests, ConstantBefore, Agrees, ReadsBack, Step, Optimized, Standard;
    StartOf(source, j);
    if Width(Op(source, j)) > 0 {
      PushAgrees(source, p, table, others, m, j);
    } else if Op(source, j) == JUMP || Op(source, j) == JUMPI {
      JumpAgrees(source, p, table, others, m, j);
    } else {
      OtherAgrees(source, p, table, others, m, j);
    }
  }

  /** The simulation: from any instruction, any number of steps leaves both codes in the same state, and no step reads
    outside the code, the pool or the stack. */
  lemma {:induction false} RunAgrees<W(!new)>(source: Bytes, p: Program, table: Metrics, others: Others<W>, m: Machine<W>,
      j: nat, steps: nat)
    requires Optimized(source, p) && PoolReadable(p.pool) && Standard(table) && StopStops(others) && At(source, m, j)
    ensures var outcome := Run(p, InitMetrics(table), others, m, steps);
      && outcome == Run(Unoptimized(source), InitMetrics(table), others, m, steps)
      && outcome != Astray
      && (outcome.Going? ==> exists i :: At(source, outcome.m, i))
    decreases steps
  {
    hide Step, At, Optimized, Standard, StopStops, InitMetrics, Plain, Starts, AllDests;
    if steps > 0 {
      StepAgrees(source, p, table, others, m, j);
      var outcome := Step(p, InitMetrics(table), others, m);
      if outcome.Going? {
        var i :| At(source, outcome.m, i);
        RunAgrees(source, p, table, others, outcome.m, i, steps - 1);
      }
    }
  }

  lemma Simulation<W(!new)>(source: Bytes, p: Program, table: Metrics, others: Others<W>, gas: nat, world: W, steps: nat)
    requires Optimized(source, p) && |p.pool| <= POOL_OFFSETS && Standard(table) && StopStops(others)
    ensures var start := Machine(0, [], gas, world);
      && Run(p, InitMetrics(table), others, start, steps) == Run(Unoptimized(source), InitMetrics(table), others, start, steps)
      && Run(p, InitMetrics(table), others, start, steps) != Astray
  {
    hide Run, Optimized, Standard, StopStops, Plain, Starts;
    StartOf(source, 0);
    SmallPoolReadable(p.pool);
    assert At(source, Machine(0, [], gas, world), 0);
    RunAgrees(source, p, table, others, Machine(0, [], gas, world), 0, steps);
  }

  /** Over all states, reachable or not: the codes do the same at every instruction, whatever the stack and gas, if and
    only if each constant is what its offset reads back. */
  lemma SimulationExact<W(!new)>(source: Bytes, p: Program, table: Metrics, others: Others<W>, world: W)
    requires Optimized(source, p) && Standard(table) && StopStops(others)
    ensures PoolReadable(p.pool)
      <==> forall m: Machine<W>, j: nat :: At(source, m, j) ==> Agrees(source, p, InitMetrics(table), others, m)
  {
    hide Agrees, Pooled, Plain, Starts, At, Rewritten, Step;
    if PoolReadable(p.pool) {
      forall m: Machine<W>, j: nat | At(source, m, j)
        ensures Agrees(source, p, InitMetrics(table), others, m)
      {
        assert j < |StartsOf(source)| by {
          AtInside(source, m, j);
        }
        StepAgrees(source, p, table, others, m, j);
      }
    } else {
      var i: nat :| !ReadsBack(p.pool, i);
      var j := PooledFrom(source, i, |StartsOf(source)| - 1);
      Misread(source, p, table, others, Machine(StartsOf(source)[j], [], table(PUSH1).cost, world), j);
    }
  }

  lemma AtInside<W>(source: Bytes, m: Machine<W>, j: nat)
    requires At(source, m, j)
    ensures j < |StartsOf(source)|
  {
  }

  /** The instruction a pooled constant comes from. */
  lemma {:induction false} PooledFrom(source: Bytes, i: nat, count: nat) returns (j: nat)
    requires count < |StartsOf(source)| && i < |Pooled(source, count)|
    ensures j < count && |Pooled(source, j)| == i && Wide(Op(source, j))
  {
    hide Op, StartsOf, Constant;
    if i < |Pooled(source, count - 1)| {
      j := PooledFrom(source, i, count - 1);
    } else {
      j := count - 1;
    }
  }

  /** The machine is at a long push, and has the stack and the gas for it. */
  ghost predicate PushesLong<W>(source: Bytes, table: Metrics, m: Machine<W>, j: nat) {
    && j < |StartsOf(source)| && m.pc == StartsOf(source)[j] && Wide(Op(source, j))
    && |m.stack| < STACK_LIMIT && m.gas >= table(PUSH1).cost
  }

  /** The machine has gone on with this entry of the pool on top of the stack. */
  ghost predicate Shows<W>(outcome: Outcome<W>, pool: seq<Word>, i: nat, stack: seq<Word>) {
    outcome.Going? && i < |pool| && outcome.m.stack == [pool[i]] + stack
  }

  /** A constant that is not read back is pushed wrong from every state with the stack and the gas for it. */
  lemma Misread<W(!new)>(source: Bytes, p: Program, table: Metrics, others: Others<W>, m: Machine<W>, j: nat)
    requires Optimized(source, p) && Standard(table) && PushesLong(source, table, m, j)
    requires !ReadsBack(p.pool, |Pooled(source, j)|)
    ensures At(source, m, j) && !Agrees(source, p, InitMetrics(table), others, m)
    ensures var wrong := Step(p, InitMetrics(table), others, m);
      var right := Step(Unoptimized(source), InitMetrics(table), others, m);
      && wrong != right
      && Shows(wrong, p.pool, PoolOffset(source, j), m.stack) && Shows(right, p.pool, |Pooled(source, j)|, m.stack)
  {
    hide Step, Optimized, Standard, Pooled, StartsOf, Op, Unoptimized, At, Constant, InitMetrics;
    LongAt(source, table, m, j);
    WideConstant(source, j);
    PoolOf(source, p);
    PushDone(source, table, others, m, j);
    PooledDone(source, p, table, others, m, j);
    var wrong := Step(p, InitMetrics(table), others, m);
    var right := Step(Unoptimized(source), InitMetrics(table), others, m);
    assert wrong.m.stack[0] != right.m.stack[0];
  }

  lemma LongAt<W>(source: Bytes, table: Metrics, m: Machine<W>, j: nat)
    requires PushesLong(source, table, m, j)
    ensures At(source, m, j) && Inside(source, j) && Width(Op(source, j)) > 0
  {
    hide Plain, Starts, ConstantBefore, Dests;
    StartOf(source, j);
  }

  lemma PoolOf(source: Bytes, p: Program)
    requires Optimized(source, p)
    ensures p.pool == Pooled(source, |StartsOf(source)| - 1)
  {
    hide Rewritten, StartsOf, Pooled, AllDests;
  }

  /** A push puts its constant on the stack. */
  lemma PushDone<W(!new)>(source: Bytes, table: Metrics, others: Others<W>, m: Machine<W>, j: nat)
    requires Inside(source, j) && m.pc == StartsOf(source)[j] && Width(Op(source, j)) > 0 && Standard(table)
    requires |m.stack| < STACK_LIMIT && m.gas >= table(PUSH1).cost
    ensures Step(Unoptimized(source), InitMetrics(table), others, m)
      == Going(Machine(StartsOf(source)[j + 1], [Constant(source, j)] + m.stack, m.gas - table(PUSH1).cost, m.world))
  {
    hide Plain, Starts, Dests, WordOf;
    StartOf(source, j);
  }

  /** What a long push has become puts on the stack what its offset reads. */
  lemma PooledDone<W(!new)>(source: Bytes, p: Program, table: Metrics, others: Others<W>, m: Machine<W>, j: nat)
    requires Optimized(source, p) && Standard(table) && PushesLong(source, table, m, j) && Inside(source, j)
    requires |Pooled(source, j)| < |p.pool|
    ensures Shows(Step(p, InitMetrics(table), others, m), p.pool, PoolOffset(source, j), m.stack)
  {
    hide Step, InitMetrics, Standard, Plain, Starts, Pooled, Constant, JumpOp;
    StartOf(source, j);
    assert Rewritten(source, p.code, j);
    PoolRead(p, table, others, m, PoolOffset(source, j));
  }

  lemma PoolRead<W(!new)>(p: Program, table: Metrics, others: Others<W>, m: Machine<W>, offset: nat)
    requires m.pc + 3 < |p.code| && p.code[m.pc] == PUSHC && Standard(table)
    requires offset < |p.pool| && p.code[m.pc + 1] == offset / 0x100 && p.code[m.pc + 2] == offset % 0x100
    requires |m.stack| < STACK_LIMIT && m.gas >= table(PUSH1).cost
    ensures Shows(Step(p, InitMetrics(table), others, m), p.pool, offset, m.stack)
  {
  }

  /** A long push for which stack or gas are too short fails alike in both codes, whatever its constant. */
  lemma FailsAlike<W(!new)>(source: Bytes, p: Program, table: Metrics, others: Others<W>, m: Machine<W>, j: nat)
    requires Optimized(source, p) && Standard(table) && At(source, m, j)
    requires Wide(Op(source, j)) && !PushesLong(source, table, m, j)
    ensures var outcome := Step(p, InitMetrics(table), others, m);
      outcome == Step(Unoptimized(source), InitMetrics(table), others, m) && !outcome.Going?
  {
    hide Plain, Starts, Pooled, WordOf, ConstantBefore, Dests;
    StartOf(source, j);
    assert Rewritten(source, p.code, j);
  }

  // ---------------------------------------------------------------- exactly which runs agree

  /** A long push is about to get through whose constant is not read back. */
  ghost predicate Misreads<W>(source: Bytes, pool: seq<Word>, table: Metrics, m: Machine<W>, j: nat) {
    PushesLong(source, table, m, j) && !ReadsBack(pool, |Pooled(source, j)|)
  }

  /** Every long push that the unrewritten code gets through in these steps has a constant that is read back. */
  ghost predicate ConstantsRead<W(!new)>(source: Bytes, pool: seq<Word>, table: Metrics, others: Others<W>, m: Machine<W>,
      steps: nat)
    decreases steps
  {
    steps == 0 ||
    (&& (forall j: nat :: !Misreads(source, pool, table, m, j))
     && var outcome := Step(Unoptimized(source), InitMetrics(table), others, m);
       (outcome.Going? ==> ConstantsRead(source, pool, table, others, outcome.m, steps - 1)))
  }

  ghost predicate AgreesAfter<W>(source: Bytes, p: Program, metrics: Metrics, others: Others<W>, m: Machine<W>, k: nat) {
    Run(p, metrics, others, m, k) == Run(Unoptimized(source), metrics, others, m, k)
  }

  /** A run of both codes from one state agrees at all times if and only if every long push on the way has a constant
    that is read back. */
  lemma {:induction false} RunsAgreeExactly<W(!new)>(source: Bytes, p: Program, table: Metrics, others: Others<W>,
      m: Machine<W>, i: nat, steps: nat)
    requires Optimized(source, p) && Standard(table) && StopStops(others) && At(source, m, i)
    ensures (forall k: nat :: k <= steps ==> AgreesAfter(source, p, InitMetrics(table), others, m, k))
      <==> ConstantsRead(source, p.pool, table, others, m, steps)
    decreases steps
  {
    hide Step, At, Optimized, Standard, StopStops, InitMetrics, Unoptimized, ReadsBack, PushesLong, StartsOf, Op, Pooled;
    var metrics := InitMetrics(table);
    if steps > 0 {
      if j: nat :| Misreads(source, p.pool, table, m, j) {
        Misread(source, p, table, others, m, j);
        assert !AgreesAfter(source, p, metrics, others, m, 1);
      } else {
        SameStep(source, p, table, others, m, i);
        var outcome := Step(p, metrics, others, m);
        assert AgreesAfter(source, p, metrics, others, m, 0);
        if outcome.Going? {
          var next :| At(source, outcome.m, next);
          RunsAgreeExactly(source, p, table, others, outcome.m, next, steps - 1);
          forall k: nat | k < steps
            ensures AgreesAfter(source, p, metrics, others, m, k + 1)
              <==> AgreesAfter(source, p, metrics, others, outcome.m, k)
          {
          }
          OneLater(source, p, metrics, others, m, outcome.m, steps);
        } else {
          forall k: nat | 0 < k <= steps
            ensures AgreesAfter(source, p, metrics, others, m, k)
          {
          }
        }
      }
    }
  }

  lemma OneLater<W(!new)>(source: Bytes, p: Program, metrics: Metrics, others: Others<W>, m: Machine<W>, next: Machine<W>,
      steps: nat)
    requires steps > 0 && AgreesAfter(source, p, metrics, others, m, 0)
    requires forall k: nat :: k < steps ==>
      (AgreesAfter(source, p, metrics, others, m, k + 1) <==> AgreesAfter(source, p, metrics, others, next, k))
    ensures (forall k: nat :: k <= steps ==> AgreesAfter(source, p, metrics, others, m, k))
      <==> (forall k: nat :: k <= steps - 1 ==> AgreesAfter(source, p, metrics, others, next, k))
  {
    hide AgreesAfter;
    if forall k: nat :: k <= steps ==> AgreesAfter(source, p, metrics, others, m, k) {
      forall k: nat | k <= steps - 1
        ensures AgreesAfter(source, p, metrics, others, next, k)
      {
        assert AgreesAfter(source, p, metrics, others, m, k + 1);
      }
    }
    if forall k: nat :: k <= steps - 1 ==> AgreesAfter(source, p, metrics, others, next, k) {
      forall k: nat | k <= steps
        ensures AgreesAfter(source, p, metrics, others, m, k)
      {
        assert k > 0 ==> AgreesAfter(source, p, metrics, others, next, k - 1);
      }
    }
  }

  /** One step, if a long push that gets through is read back. */
  lemma SameStep<W(!new)>(source: Bytes, p: Program, table: Metrics, others: Others<W>, m: Machine<W>, i: nat)
    requires Optimized(source, p) && Standard(table) && StopStops(others) && At(source, m, i)
    requires forall j: nat :: !Misreads(source, p.pool, table, m, j)
    ensures var outcome := Step(p, InitMetrics(table), others, m);
      && outcome == Step(Unoptimized(source), InitMetrics(table), others, m)
      && (outcome.Going? ==> exists j :: At(source, outcome.m, j))
  {
    hide Step, Optimized, Standard, StopStops, InitMetrics, Unoptimized, ReadsBack, StartsOf, Op, Pooled, PushesLong, Wide;
    AtInside(source, m, i);
    if Wide(Op(source, i)) && !PushesLong(source, table, m, i) {
      FailsAlike(source, p, table, others, m, i);
    } else {
      assert !Misreads(source, p.pool, table, m, i);
      StepAgrees(source, p, table, others, m, i);
    }
  }

  // ---------------------------------------------------------------- a code whose pool is too long

  const PUSH3: Byte := 0x62
  const PUSH6: Byte := 0x65

  /** A number in three and in six bytes. */
  function ThreeBytes(i: nat): (bytes: Bytes)
    ensures |bytes| == 3
  {
    [i / 0x1_0000 % 0x100, i / 0x100 % 0x100, i % 0x100]
  }

  function SixBytes(i: nat): Bytes {
    [0, 0, 0] + ThreeBytes(i)
  }

  /** The code that pushes 0, 1, 2 and so on, each as six bytes. */
  function Pushes(n: nat): (code: Bytes)
    ensures |code| == 7 * n
  {
    if n == 0 then [] else Pushes(n - 1) + ([PUSH6] + SixBytes(n - 1))
  }

  lemma {:induction false} PushesAt(n: nat, j: nat)
    requires j < n
    ensures Pushes(n)[7 * j] == PUSH6
    ensures Pushes(n)[7 * j + 1..7 * j + 7] == SixBytes(j)
  {
    if j < n - 1 {
      PushesAt(n - 1, j);
      assert Pushes(n)[7 * j + 1..7 * j + 7] == Pushes(n - 1)[7 * j + 1..7 * j + 7];
    }
  }

  /** Jumps over n such pushes and pushes n behind them. */
  function Leap(n: nat): (code: Bytes)
    ensures |code| == 13 + 7 * n
  {
    [PUSH3] + ThreeBytes(5 + 7 * n) + [JUMP] + Pushes(n) + [JUMPDEST] + ([PUSH6] + SixBytes(n))
  }

  /** Where instruction i of it starts, what it is, and what it pushes. */
  function LeapPlace(n: nat, i: nat): nat {
    if i == 0 then 0 else if i == 1 then 4 else if i <= n + 2 then 5 + 7 * (i - 2) else if i == n + 3 then 6 + 7 * n else 13 + 7 * n
  }

  function LeapOp(n: nat, i: nat): Byte {
    if i == 0 then PUSH3 else if i == 1 then JUMP else if i == n + 2 then JUMPDEST else PUSH6
  }

  function LeapData(n: nat, i: nat): Bytes {
    if i == 0 then ThreeBytes(5 + 7 * n) else if i == 1 || i == n + 2 then []
    else SixBytes(if i == n + 3 then n else i - 2)
  }

  lemma Within(head: Bytes, middle: Bytes, tail: Bytes, from: nat, to: nat)
    requires from < to <= |middle|
    ensures (head + middle + tail)[|head| + from..|head| + to] == middle[from..to]
    ensures (head + middle + tail)[|head| + from] == middle[from]
  {
  }

  lemma LeapBytes(n: nat, i: nat)
    requires i < n + 4
    ensures LeapPlace(n, i + 1) == LeapPlace(n, i) + 1 + |LeapData(n, i)| <= |Leap(n)|
    ensures Leap(n)[LeapPlace(n, i)] == LeapOp(n, i) && Width(LeapOp(n, i)) == |LeapData(n, i)|
    ensures Leap(n)[LeapPlace(n, i) + 1..LeapPlace(n, i + 1)] == LeapData(n, i)
  {
    hide Pushes, ThreeBytes;
    if 2 <= i < n + 2 {
      PushesAt(n, i - 2);
      var head, tail := [PUSH3] + ThreeBytes(5 + 7 * n) + [JUMP], [JUMPDEST] + ([PUSH6] + SixBytes(n));
      assert Leap(n) == head + Pushes(n) + tail;
      Within(head, Pushes(n), tail, 7 * (i - 2), 7 * (i - 2) + 1);
      Within(head, Pushes(n), tail, 7 * (i - 2) + 1, 7 * (i - 2) + 7);
    }
  }

  lemma {:induction false} LeapStarts(n: nat, i: nat)
    requires i <= n + 4
    ensures |StartsOf(Leap(n))| > i && StartsOf(Leap(n))[i] == LeapPlace(n, i)
    ensures i == n + 4 ==> |StartsOf(Leap(n))| == n + 5
  {
    hide Starts, Plain, Leap, LeapData;
    var source := Leap(n);
    SourceStarts(source);
    if i > 0 {
      LeapStarts(n, i - 1);
      LeapBytes(n, i - 1);
      StartsStep(Extended(source), 0, |source|, i - 1);
    }
    StartsStep(Extended(source), 0, |source|, i);
  }

  lemma LeapOps(n: nat, i: nat)
    requires i < n + 4
    ensures Inside(Leap(n), i) && Op(Leap(n), i) == LeapOp(n, i)
    ensures Constant(Leap(n), i) == WordOf(LeapData(n, i))
  {
    hide Starts, Plain, Leap, LeapData, WordOf;
    var source, place, next := Leap(n), LeapPlace(n, i), LeapPlace(n, i + 1);
    LeapStarts(n, i);
    LeapStarts(n, i + 1);
    LeapStarts(n, n + 4);
    LeapBytes(n, i);
    SourceStarts(source);
    StartOf(source, i);
    PlainAt(source, place);
    assert place in StartsOf(source);
    forall q | place < q < next
      ensures Plain(source)[q] == Leap(n)[q]
    {
      BetweenStarts(source, i, q);
    }
    assert Plain(source)[place + 1..next] == Leap(n)[place + 1..next];
  }

  lemma ThreeBytesValue(i: nat)
    requires i < 0x100_0000
    ensures FromBigEndian(ThreeBytes(i)) == i && FromBigEndian(SixBytes(i)) == i
  {
    hide FromBigEndian;
    var high: Byte, middle: Byte, low: Byte := i / 0x1_0000 % 0x100, i / 0x100 % 0x100, i % 0x100;
    ThreeZeros();
    LastByte([], high);
    LastByte([high], middle);
    LastByte([high, middle], low);
    assert [] + [high] == [high] && [high] + [middle] == [high, middle] && [high, middle] + [low] == ThreeBytes(i);
    LastByte([0, 0, 0], high);
    LastByte([0, 0, 0] + [high], middle);
    LastByte([0, 0, 0] + [high] + [middle], low);
    assert SixBytes(i) == [0, 0, 0] + [high] + [middle] + [low];
    ThreeDigits(i);
  }

  lemma ThreeDigits(i: nat)
    requires i < 0x100_0000
    ensures i == ((i / 0x1_0000 % 0x100) * 0x100 + i / 0x100 % 0x100) * 0x100 + i % 0x100
  {
  }

  lemma ThreeZeros()
    ensures FromBigEndian([0, 0, 0]) == 0
  {
    LastByte([], 0);
    LastByte([0], 0);
    LastByte([0, 0], 0);
    assert [] + [0] == [0] && [0] + [0] == [0, 0] && [0, 0] + [0] == [0, 0, 0];
  }

  lemma LastByte(front: Bytes, last: Byte)
    ensures FromBigEndian(front + [last]) == FromBigEndian(front) * 0x100 + last
    ensures FromBigEndian([]) == 0
  {
    assert (front + [last])[..|front|] == front;
  }

  /** What the long pushes are. */
  lemma LeapPushes(n: nat, i: nat)
    requires n < 0x20_0000 && i < n + 4
    ensures Inside(Leap(n), i) && (Wide(Op(Leap(n), i)) <==> i >= 2 && i != n + 2)
    ensures 2 <= i < n + 2 ==> Constant(Leap(n), i) == i - 2
    ensures i == n + 3 ==> Constant(Leap(n), i) == n
  {
    hide StartsOf, Op, Constant, Leap, FromBigEndian, SixBytes;
    LeapOps(n, i);
    if i == n + 3 {
      ThreeBytesValue(n);
    } else if 2 <= i < n + 2 {
      ThreeBytesValue(i - 2);
    }
  }

  /** The pool holds the numbers from 0 to n, one for each long push. */
  lemma {:induction false} LeapPool(n: nat, count: nat)
    requires n < 0x20_0000 && count <= n + 4
    ensures count < |StartsOf(Leap(n))|
    ensures var pool := Pooled(Leap(n), count);
      && |pool| == (if count < 2 then 0 else if count <= n + 2 then count - 2 else if count == n + 3 then n else n + 1)
      && forall i :: 0 <= i < |pool| ==> pool[i] == i
  {
    hide StartsOf, Op, Constant, Leap, Wide;
    LeapStarts(n, count);
    if count > 0 {
      LeapPool(n, count - 1);
      LeapPushes(n, count - 1);
    }
  }

  /** What is taken of the JUMPDEST instruction: it costs its gas and changes nothing. */
  ghost predicate JumpdestGoesOn<W(!new)>(table: Metrics, others: Others<W>) {
    && table(JUMPDEST).args == 0 && table(JUMPDEST).returned == 0
    && forall m: Machine<W> :: m.gas >= table(JUMPDEST).cost ==>
         others(JUMPDEST, m) == Next(m.stack, m.gas - table(JUMPDEST).cost, m.world)
  }

  lemma JumpDone<W(!new)>(source: Bytes, table: Metrics, others: Others<W>, m: Machine<W>, j: nat)
    requires j < |StartsOf(source)| && m.pc == StartsOf(source)[j] && Op(source, j) == JUMP && Standard(table)
    requires 0 < |m.stack| <= STACK_LIMIT && m.gas >= table(JUMP).cost && Lands(AllDests(source), m.stack[0])
    ensures Step(Unoptimized(source), InitMetrics(table), others, m)
      == Going(Machine(m.stack[0], m.stack[1..], m.gas - table(JUMP).cost, m.world))
  {
    hide Plain, Starts, Dests;
    StartOf(source, j);
  }

  lemma JumpdestDone<W(!new)>(source: Bytes, table: Metrics, others: Others<W>, m: Machine<W>, j: nat)
    requires j < |StartsOf(source)| && m.pc == StartsOf(source)[j] && Op(source, j) == JUMPDEST
    requires JumpdestGoesOn(table, others) && |m.stack| <= STACK_LIMIT && m.gas >= table(JUMPDEST).cost
    ensures Step(Unoptimized(source), InitMetrics(table), others, m)
      == Going(Machine(m.pc + 1, m.stack, m.gas - table(JUMPDEST).cost, m.world))
  {
    hide Plain, Starts, Dests;
    StartOf(source, j);
  }

  lemma FourSteps<W(!new)>(p: Program, metrics: Metrics, others: Others<W>, m0: Machine<W>, m1: Machine<W>, m2: Machine<W>,
      m3: Machine<W>)
    requires Step(p, metrics, others, m0) == Going(m1) && Step(p, metrics, others, m1) == Going(m2)
    requires Step(p, metrics, others, m2) == Going(m3)
    ensures Run(p, metrics, others, m0, 4) == Step(p, metrics, others, m3)
  {
    hide Step;
  }

  /** The jump lands behind the pushes. */
  lemma LeapLands(n: nat)
    requires n < 0x20_0000
    ensures |StartsOf(Leap(n))| == n + 5 && Constant(Leap(n), 0) == 5 + 7 * n && Lands(AllDests(Leap(n)), 5 + 7 * n)
  {
    hide Leap, Op, StartsOf, Constant, Dests;
    LeapOps(n, 0);
    ThreeBytesValue(5 + 7 * n);
    LeapStarts(n, n + 4);
    LeapStarts(n, n + 2);
    LeapOps(n, n + 2);
    Noted(Leap(n), n + 2, n + 4);
  }

  /** The first three instructions do the same in both codes. */
  lemma LeapReached<W(!new)>(n: nat, p: Program, table: Metrics, others: Others<W>, gas: nat, world: W)
    requires n < 0x20_0000 && Optimized(Leap(n), p)
    requires Standard(table) && StopStops(others) && JumpdestGoesOn(table, others)
    requires gas >= table(PUSH1).cost + table(JUMP).cost + table(JUMPDEST).cost
    ensures var metrics, m0 := InitMetrics(table), Machine(0, [], gas, world);
      var m3 := Machine(6 + 7 * n, [], gas - table(PUSH1).cost - table(JUMP).cost - table(JUMPDEST).cost, world);
      && Run(p, metrics, others, m0, 4) == Step(p, metrics, others, m3)
      && Run(Unoptimized(Leap(n)), metrics, others, m0, 4) == Step(Unoptimized(Leap(n)), metrics, others, m3)
  {
    hide Leap, Step, Run, Optimized, StopStops, Standard, JumpdestGoesOn, Unoptimized, Op, StartsOf, Pooled, InitMetrics, Dests,
         Constant;
    var source, metrics := Leap(n), InitMetrics(table);
    var m0 := Machine(0, [], gas, world);
    var m1 := Machine(4, [5 + 7 * n], gas - table(PUSH1).cost, world);
    var m2 := Machine(5 + 7 * n, [], m1.gas - table(JUMP).cost, world);
    var m3 := Machine(6 + 7 * n, [], m2.gas - table(JUMPDEST).cost, world);
    LeapLands(n);
    LeapOps(n, 0);
    LeapOps(n, 1);
    LeapOps(n, n + 2);
    LeapStarts(n, 0);
    LeapStarts(n, 1);
    LeapStarts(n, n + 2);
    PushDone(source, table, others, m0, 0);
    StepAgrees(source, p, table, others, m0, 0);
    JumpDone(source, table, others, m1, 1);
    JumpAgrees(source, p, table, others, m1, 1);
    JumpdestDone(source, table, others, m2, n + 2);
    OtherAgrees(source, p, table, others, m2, n + 2);
    FourSteps(p, metrics, others, m0, m1, m2, m3);
    FourSteps(Unoptimized(source), metrics, others, m0, m1, m2, m3);
  }

  /** The push behind them reads another constant. */
  lemma LeapMisreads<W(!new)>(n: nat, p: Program, table: Metrics, m: Machine<W>)
    requires POOL_OFFSETS <= n < 0x20_0000 && Optimized(Leap(n), p)
    requires m.pc == 6 + 7 * n && m.stack == [] && m.gas >= table(PUSH1).cost
    ensures PushesLong(Leap(n), table, m, n + 3) && Inside(Leap(n), n + 3)
    ensures |Pooled(Leap(n), n + 3)| == n < |p.pool| && p.pool[n] == n && p.pool[n % POOL_OFFSETS] == n % POOL_OFFSETS
  {
    hide Leap, Optimized, Op, StartsOf, Pooled, LeapData, Constant;
    LeapStarts(n, n + 3);
    LeapStarts(n, n + 4);
    LeapOps(n, n + 3);
    LeapPool(n, n + 3);
    LeapPool(n, n + 4);
    PoolOf(Leap(n), p);
  }

  /** With more than 65536 long pushes a run from the start can go wrong: behind the jump over n of them, push number n puts
    n % 65536 on the stack where the unrewritten code puts n. */
  lemma TooManyConstants<W(!new)>(n: nat, p: Program, table: Metrics, others: Others<W>, gas: nat, world: W)
    requires POOL_OFFSETS <= n < 0x20_0000 && Optimized(Leap(n), p)
    requires Standard(table) && StopStops(others) && JumpdestGoesOn(table, others)
    requires gas >= 2 * table(PUSH1).cost + table(JUMP).cost + table(JUMPDEST).cost
    ensures var start := Machine(0, [], gas, world);
      var wrong := Run(p, InitMetrics(table), others, start, 4);
      var right := Run(Unoptimized(Leap(n)), InitMetrics(table), others, start, 4);
      && wrong.Going? && wrong.m.stack == [n % POOL_OFFSETS]
      && right.Going? && right.m.stack == [n] && wrong != right
  {
    hide Leap, Step, Run, Optimized, StopStops, Standard, JumpdestGoesOn, Unoptimized, StartsOf, Pooled, Agrees, At;
    hide InitMetrics, PushesLong;
    LeapReached(n, p, table, others, gas, world);
    var left := gas - table(PUSH1).cost - table(JUMP).cost - table(JUMPDEST).cost;
    var m := Machine(6 + 7 * n, [], left, world);
    LeapMisreads(n, p, table, m);
    Misread(Leap(n), p, table, others, m, n + 3);
  }
}
