/** What the interpreter does with the code it runs: fetching, pushing constants and jumping
  (libaleth-interpreter/VM.cpp:185-238, 1156-1278; VMCalls.cpp:86-101; VMOpt.cpp:25-40).

  All other instructions are a parameter: they see the machine but not the code, and go on with the next byte, finish,
  or fail. The top of the stack is at index 0, as m_SP[0] is. */
module VmCode {
  import opened Bytes

  const WORD_LIMIT := 0x1_0000_0000_0000_0000_0000_0000_0000_0000_0000_0000_0000_0000_0000_0000_0000_0000
  type Word = w: int | 0 <= w < WORD_LIMIT

  const STACK_LIMIT := 1024
  const INT63_MAX := 0x7FFF_FFFF_FFFF_FFFF

  const STOP: Byte := 0x00
  const JUMP: Byte := 0x56
  const JUMPI: Byte := 0x57
  const JUMPDEST: Byte := 0x5b
  const PUSH1: Byte := 0x60
  const PUSH32: Byte := 0x7f
  const PUSHC: Byte := 0xac
  const JUMPC: Byte := 0xad
  const JUMPCI: Byte := 0xae
  const INVALID: Byte := 0xfe

  datatype Error = OutOfGas | StackUnderflow | OutOfStack | BadJumpDestination | BadInstruction | OtherError(code: nat)

  /** A row of the instruction metrics table. */
  datatype Metric = Metric(args: nat, returned: nat, cost: nat)
  type Metrics = Byte -> Metric

  datatype Machine<W> = Machine(pc: nat, stack: seq<Word>, gas: nat, world: W)

  /** What an instruction other than a push or a jump does. */
  datatype Effect<W> = Next(stack: seq<Word>, gas: nat, world: W) | Finish(gas: nat, world: W) | Fail(error: Error)
  type Others<!W> = (Byte, Machine<W>) -> Effect<W>

  /** Astray is a read outside the code, the pool or the stack, which nothing in the interpreter checks for. */
  datatype Outcome<W> = Going(m: Machine<W>) | Stopped(gas: nat, world: W) | Thrown(error: Error) | Astray

  /** The code as it is run, with the tables made from it. */
  datatype Program = Program(code: Bytes, jumpDests: seq<nat>, pool: seq<Word>)

  /** How many bytes of data follow a push instruction. */
  function Width(op: Byte): (width: nat)
    ensures width <= 32
  {
    if PUSH1 <= op <= PUSH32 then op - PUSH1 + 1 else 0
  }

  function NextPc(code: Bytes, pc: nat): nat
    requires pc < |code|
  {
    pc + 1 + Width(code[pc])
  }

  lemma {:induction false} FromBigEndianBound(s: Bytes)
    ensures FromBigEndian(s) < Power256(|s|)
  {
    if s != [] {
      FromBigEndianBound(s[..|s| - 1]);
    }
  }

  lemma {:induction false} PowerGrows(a: nat, b: nat)
    requires a <= b
    ensures Power256(a) <= Power256(b)
  {
    if a < b {
      PowerGrows(a, b - 1);
    }
  }

  lemma WordBytes()
    ensures Power256(32) == WORD_LIMIT
  {
    Power256Eight();
    assert Power256(12) == 0x1_0000_0000 * Power256(8);
    assert Power256(16) == 0x1_0000_0000 * Power256(12);
    assert Power256(20) == 0x1_0000_0000 * Power256(16);
    assert Power256(24) == 0x1_0000_0000 * Power256(20);
    assert Power256(28) == 0x1_0000_0000 * Power256(24);
    assert Power256(32) == 0x1_0000_0000 * Power256(28);
  }

  /** The big-endian value of up to 32 bytes. */
  function WordOf(data: Bytes): Word
    requires |data| <= 32
  {
    FromBigEndianBound(data);
    PowerGrows(|data|, 32);
    WordBytes();
    FromBigEndian(data)
  }

  /** The constant a push instruction puts on the stack. */
  function Pushed(code: Bytes, pc: nat): Word
    requires pc < |code| && NextPc(code, pc) <= |code|
  {
    WordOf(code[pc + 1..NextPc(code, pc)])
  }

  /** verifyJumpDest. */
  predicate Lands(jumpDests: seq<nat>, dest: Word) {
    dest <= INT63_MAX && dest in jumpDests
  }

  /** initMetrics: the optimised instructions cost what they stand for. */
  function InitMetrics(table: Metrics): Metrics {
    (op: Byte) => if op == PUSHC then table(PUSH1) else if op == JUMPC then table(JUMP) else if op == JUMPCI then table(JUMPI)
          else table(op)
  }

  /** What is taken of the metrics table: every push has one row, and jumps take their operands. */
  ghost predicate Standard(table: Metrics) {
    && (forall op: Byte :: Width(op) > 0 ==> table(op) == table(PUSH1))
    && table(PUSH1).args == 0 && table(PUSH1).returned == 1
    && table(JUMP).args == 1 && table(JUMP).returned == 0
    && table(JUMPI).args == 2 && table(JUMPI).returned == 0
  }

  /** One instruction: fetchInstruction, then its case. */
  function Step<W>(p: Program, metrics: Metrics, others: Others<W>, m: Machine<W>): Outcome<W> {
    if m.pc >= |p.code| then Astray
    else
      var op := p.code[m.pc];
      var metric := metrics(op);
      if |m.stack| < metric.args then Thrown(StackUnderflow)
      else if |m.stack| - metric.args + metric.returned > STACK_LIMIT then Thrown(OutOfStack)
      else if Width(op) > 0 then
        if m.gas < metric.cost then Thrown(OutOfGas) else Push(p, m, metric.cost)
      else if op == PUSHC then
        if m.gas < metric.cost then Thrown(OutOfGas) else PushConstant(p, m, metric.cost)
      else if op == JUMP || op == JUMPI || op == JUMPC || op == JUMPCI then
        if m.gas < metric.cost then Thrown(OutOfGas) else JumpTo(p, op, m, metric.cost)
      else
        match others(op, m)
        case Next(stack, gas, world) => Going(Machine(m.pc + 1, stack, gas, world))
        case Finish(gas, world) => Stopped(gas, world)
        case Fail(error) => Thrown(error)
  }

  function Push<W>(p: Program, m: Machine<W>, cost: nat): Outcome<W>
    requires m.pc < |p.code| && cost <= m.gas
  {
    if NextPc(p.code, m.pc) > |p.code| then Astray
    else Going(Machine(NextPc(p.code, m.pc), [Pushed(p.code, m.pc)] + m.stack, m.gas - cost, m.world))
  }

  /** PUSHC: two bytes of offset into the pool, then how many bytes to skip. */
  function PushConstant<W>(p: Program, m: Machine<W>, cost: nat): Outcome<W>
    requires cost <= m.gas
  {
    if m.pc + 3 >= |p.code| then Astray
    else
      var high: int, low: int := p.code[m.pc + 1], p.code[m.pc + 2];
      var offset := high * 0x100 + low;
      if offset >= |p.pool| then Astray
      else Going(Machine(m.pc + 3 + p.code[m.pc + 3], [p.pool[offset]] + m.stack, m.gas - cost, m.world))
  }

  /** JUMP and JUMPI look the destination up, JUMPC and JUMPCI do not. */
  function JumpTo<W>(p: Program, op: Byte, m: Machine<W>, cost: nat): Outcome<W>
    requires cost <= m.gas
  {
    var args := if op == JUMP || op == JUMPC then 1 else 2;
    if |m.stack| < args then Astray
    else if args == 2 && m.stack[1] == 0 then Going(Machine(m.pc + 1, m.stack[2..], m.gas - cost, m.world))
    else if (op == JUMPC || op == JUMPCI) || Lands(p.jumpDests, m.stack[0]) then
      Going(Machine(m.stack[0] % 0x1_0000_0000_0000_0000, m.stack[args..], m.gas - cost, m.world))
    else Thrown(BadJumpDestination)
  }

  function Run<W>(p: Program, metrics: Metrics, others: Others<W>, m: Machine<W>, steps: nat): Outcome<W>
    decreases steps
  {
    if steps == 0 then Going(m)
    else
      var outcome := Step(p, metrics, others, m);
      if outcome.Going? then Run(p, metrics, others, outcome.m, steps - 1) else outcome
  }

  // ---------------------------------------------------------------- single instructions, outright

  /** The instruction has its operands, room for its results, and its gas. */
  ghost predicate Affordable<W>(p: Program, metrics: Metrics, m: Machine<W>) {
    && m.pc < |p.code|
    && var metric := metrics(p.code[m.pc]);
      metric.args <= |m.stack| && |m.stack| - metric.args + metric.returned <= 1024 && metric.cost <= m.gas
  }

  /** The table gives the operands of the jumps. */
  ghost predicate JumpsTake(metrics: Metrics) {
    && metrics(0x56).args == 1 && metrics(0xad).args == 1
    && metrics(0x57).args == 2 && metrics(0xae).args == 2
  }

  /** A destination is legal if it is one of those noted and fits 63 bits. */
  ghost predicate LegalDest(p: Program, dest: Word) {
    dest in p.jumpDests && dest < 0x8000_0000_0000_0000
  }

  /** JUMP takes its operand and goes to the destination if it is legal; anything else is an exception. */
  lemma JumpGoes<W(!new)>(p: Program, metrics: Metrics, others: Others<W>, m: Machine<W>)
    requires Affordable(p, metrics, m) && JumpsTake(metrics) && p.code[m.pc] == 0x56
    ensures var outcome := Step(p, metrics, others, m);
      && (LegalDest(p, m.stack[0]) ==>
            outcome == Going(Machine(m.stack[0], m.stack[1..], m.gas - metrics(0x56).cost, m.world)))
      && (!LegalDest(p, m.stack[0]) ==> outcome == Thrown(BadJumpDestination))
  {
  }

  /** JUMPI takes two operands, the destination and the condition. It goes on with the next byte if the condition is zero,
    whatever the destination; with any other condition it is a JUMP. */
  lemma JumpIfGoes<W(!new)>(p: Program, metrics: Metrics, others: Others<W>, m: Machine<W>)
    requires Affordable(p, metrics, m) && JumpsTake(metrics) && p.code[m.pc] == 0x57
    ensures var outcome, gas := Step(p, metrics, others, m), m.gas - metrics(0x57).cost;
      && (m.stack[1] == 0 ==> outcome == Going(Machine(m.pc + 1, m.stack[2..], gas, m.world)))
      && (m.stack[1] != 0 && LegalDest(p, m.stack[0]) ==> outcome == Going(Machine(m.stack[0], m.stack[2..], gas, m.world)))
      && (m.stack[1] != 0 && !LegalDest(p, m.stack[0]) ==> outcome == Thrown(BadJumpDestination))
  {
  }

  /** JUMPC and JUMPCI do the same without looking the destination up; of a destination that does not fit 64 bits the low
    bits are taken. */
  lemma ConstantJumpGoes<W(!new)>(p: Program, metrics: Metrics, others: Others<W>, m: Machine<W>)
    requires Affordable(p, metrics, m) && JumpsTake(metrics)
    ensures var outcome, op := Step(p, metrics, others, m), p.code[m.pc];
      && (op == 0xad ==>
            outcome == Going(Machine(m.stack[0] % 0x1_0000_0000_0000_0000, m.stack[1..], m.gas - metrics(0xad).cost, m.world)))
      && (op == 0xae && m.stack[1] != 0 ==>
            outcome == Going(Machine(m.stack[0] % 0x1_0000_0000_0000_0000, m.stack[2..], m.gas - metrics(0xae).cost, m.world)))
      && (op == 0xae && m.stack[1] == 0 ==>
            outcome == Going(Machine(m.pc + 1, m.stack[2..], m.gas - metrics(0xae).cost, m.world)))
  {
  }

  /** PUSHn, for n from 1 to 32, puts the number its n bytes of data are on the stack and goes on behind them. */
  lemma PushGoes<W(!new)>(p: Program, metrics: Metrics, others: Others<W>, m: Machine<W>, n: nat)
    requires Affordable(p, metrics, m) && 1 <= n <= 32 && p.code[m.pc] == 0x5f + n && m.pc + n < |p.code|
    ensures var outcome, data := Step(p, metrics, others, m), p.code[m.pc + 1..m.pc + 1 + n];
      && outcome.Going? && outcome.m.pc == m.pc + 1 + n && outcome.m.world == m.world
      && outcome.m.gas == m.gas - metrics(p.code[m.pc]).cost
      && |outcome.m.stack| == |m.stack| + 1 && outcome.m.stack[1..] == m.stack
      && outcome.m.stack[0] == FromBigEndian(data)
  {
  }

  /** PUSHC puts the constant at its two-byte offset on the stack and skips what its last byte says. */
  lemma PoolGoes<W(!new)>(p: Program, metrics: Metrics, others: Others<W>, m: Machine<W>, offset: nat)
    requires Affordable(p, metrics, m) && p.code[m.pc] == 0xac && m.pc + 3 < |p.code|
    requires offset == p.code[m.pc + 1] * 256 + p.code[m.pc + 2] < |p.pool|
    ensures Step(p, metrics, others, m)
      == Going(Machine(m.pc + 3 + p.code[m.pc + 3], [p.pool[offset]] + m.stack, m.gas - metrics(0xac).cost, m.world))
  {
  }

  /** Every instruction fails if operands are missing or the stack would hold more than 1024 words, and pushes and jumps
    if the gas does not suffice. */
  lemma FailsShort<W(!new)>(p: Program, metrics: Metrics, others: Others<W>, m: Machine<W>)
    requires m.pc < |p.code|
    ensures var outcome, op, metric := Step(p, metrics, others, m), p.code[m.pc], metrics(p.code[m.pc]);
      && (|m.stack| < metric.args ==> outcome == Thrown(StackUnderflow))
      && (metric.args <= |m.stack| && |m.stack| - metric.args + metric.returned > 1024 ==> outcome == Thrown(OutOfStack))
      && (metric.args <= |m.stack| && |m.stack| - metric.args + metric.returned <= 1024 && m.gas < metric.cost ==>
            (0x56 <= op <= 0x57 || 0x60 <= op <= 0x7f || 0xac <= op <= 0xae ==> outcome == Thrown(OutOfGas)))
  {
  }
}
