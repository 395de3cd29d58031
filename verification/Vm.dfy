/** The interpreter object: it prepares the code and runs it (libaleth-interpreter/VMOpt.cpp:42-165;
  VM.cpp:185-283, 1156-1278; VMCalls.cpp:86-101). */
module Vm {
  import opened Bytes
  import opened VmCode
  import opened VmOptimize

  ghost predicate Increasing(s: seq<nat>) {
    forall i, j :: 0 <= i < j < |s| ==> s[i] < s[j]
  }

  lemma IncreasingSnoc(s: seq<nat>, x: nat)
    requires Increasing(s) && forall d :: d in s ==> d < x
    ensures Increasing(s + [x])
  {
    forall i | 0 <= i < |s|
      ensures s[i] < x
    {
      assert s[i] in s;
    }
  }

  lemma {:induction false} DestsIncrease(source: Bytes, count: nat)
    requires count < |StartsOf(source)|
    ensures Increasing(Dests(source, count))
    ensures forall d :: d in Dests(source, count) ==> d < StartsOf(source)[count]
  {
    hide Op, StartsOf, Increasing, Plain, Synthetic, Width;
    if count > 0 {
      var front, start := Dests(source, count - 1), StartsOf(source)[count - 1];
      DestsIncrease(source, count - 1);
      assert start < StartsOf(source)[count] by {
        StartOf(source, count - 1);
      }
      IncreasingSnoc(front, start);
      assert Dests(source, count) == if Op(source, count - 1) == JUMPDEST then front + [start] else front;
    } else {
      NothingIncreases();
    }
  }

  lemma NothingIncreases()
    ensures Increasing([])
  {
  }

  /** What instruction i looks like depends on its own bytes only. */
  lemma RewrittenFrame(source: Bytes, a: Bytes, b: Bytes, i: nat)
    requires Inside(source, i) && |a| == |b| == |Plain(source)|
    requires forall q :: 0 <= q < StartsOf(source)[i + 1] && q < |a| ==> a[q] == b[q]
    ensures Rewritten(source, a, i) == Rewritten(source, b, i)
  {
    hide Plain, Starts, Pooled, ConstantBefore, Dests;
    StartOf(source, i);
  }

  /** Replacing a jump does not make it a push. */
  lemma JumpOpWidth(source: Bytes, j: nat)
    requires j < |StartsOf(source)|
    ensures Width(JumpOp(source, j)) == Width(Op(source, j)) && Wide(JumpOp(source, j)) == Wide(Op(source, j))
    ensures Width(Op(source, j)) > 0 ==> JumpOp(source, j) == Op(source, j)
  {
    hide Plain, Starts, ConstantBefore, Dests;
  }

  class VM<W(!new)> {
    const source: Bytes
    const table: Metrics
    const metrics: Metrics
    const others: Others<W>
    var code: Bytes
    var jumpDests: seq<nat>
    var pool: seq<Word>
    var pc: nat
    var stack: seq<Word>
    var ioGas: nat
    var world: W

    constructor (source: Bytes, table: Metrics, others: Others<W>, gas: nat, world: W)
      ensures this.source == source && this.table == table && this.others == others && metrics == InitMetrics(table)
      ensures State() == Machine(0, [], gas, world) && jumpDests == [] && pool == []
    {
      this.source, this.table, this.metrics, this.others := source, table, InitMetrics(table), others;
      code, jumpDests, pool := [], [], [];
      pc, stack, ioGas, this.world := 0, [], gas, world;
    }

    function State(): Machine<W>
      reads this
    {
      Machine(pc, stack, ioGas, world)
    }

    function Prepared(): Program
      reads this
    {
      Program(code, jumpDests, pool)
    }

    method CopyCode(extraBytes: nat)
      modifies this`code
      ensures code == source + Zeros(extraBytes)
    {
      code := source;
      code := code + Zeros(extraBytes);
    }

    /** Both passes over the code. */
    method Optimize()
      requires jumpDests == [] && pool == []
      modifies this`code, this`jumpDests, this`pool
      ensures Optimized(source, Prepared())
    {
      CopyCode(EXTRA_BYTES);
      BuildJumpTable();
      RewriteConstants();
    }

    /** The first pass: optimised instructions in the user's code become invalid, and jump destinations are noted. */
    method BuildJumpTable()
      requires code == Extended(source) && jumpDests == []
      modifies this`code, this`jumpDests
      ensures code == Plain(source) && jumpDests == AllDests(source)
    {
      hide Plain, Extended, Starts, Op, StartsOf;
      var n := |source|;
      var at := 0;
      ghost var j := 0;
      SourceStarts(source);
      while at < n
        invariant j < |StartsOf(source)| && at == StartsOf(source)[j]
        invariant |code| == |Plain(source)| && jumpDests == Dests(source, j)
        invariant forall q :: 0 <= q < at && q < |code| ==> code[q] == Plain(source)[q]
        invariant forall q :: at <= q < |code| ==> code[q] == Extended(source)[q]
        decreases n - at
      {
        ghost var start := at;
        assert Inside(source, j) && code[at] == Extended(source)[at] by {
          LastStart(source, j);
        }
        MaskedStart(source, j);
        var op := code[at];
        if Synthetic(op) {
          code := code[at := INVALID];
        }
        if op == JUMPDEST {
          jumpDests := jumpDests + [at];
        } else if PUSH1 <= op <= PUSH32 {
          at := at + op - PUSH1 + 1;
        }
        at := at + 1;
        forall q | start < q < at
          ensures q < |Plain(source)| && Plain(source)[q] == Extended(source)[q]
        {
          BetweenStarts(source, j, q);
        }
        j := j + 1;
      }
      LastStart(source, j);
      forall q | 0 <= q < |code|
        ensures code[q] == Plain(source)[q]
      {
        if q >= at {
          BehindCode(source, q);
        }
      }
    }

    /** The second pass: long constants go into the pool, and constant jumps that land are not looked up again. */
    method RewriteConstants()
      requires code == Plain(source) && jumpDests == AllDests(source) && pool == []
      modifies this`code, this`pool
      ensures Optimized(source, Prepared())
    {
      hide Plain, Starts, Op, StartsOf, JumpOp, Rewritten;
      var n := |source|;
      var at := 0;
      ghost var j := 0;
      StartOf(source, 0);
      FirstJumpOp(source);
      while at < n
        invariant j < |StartsOf(source)| && at == StartsOf(source)[j] && Passed(at, j)
        invariant jumpDests == AllDests(source)
        decreases n - at
      {
        LastStart(source, j);
        StartOf(source, j);
        at := RewriteInstruction(at, j);
        j := j + 1;
      }
      LastStart(source, j);
      LastRewritten(source, code, j);
    }

    /** The second pass has come to instruction j. */
    ghost predicate Passed(at: nat, j: nat)
      requires j < |StartsOf(source)|
      reads this
    {
      && at < |code| == |Plain(source)| && pool == Pooled(source, j)
      && (forall i :: 0 <= i < j ==> Rewritten(source, code, i))
      && code[at] == JumpOp(source, j) && forall q :: at < q < |code| ==> code[q] == Plain(source)[q]
    }

    method RewriteInstruction(at: nat, ghost j: nat) returns (next: nat)
      requires Inside(source, j) && at == StartsOf(source)[j] && Passed(at, j) && jumpDests == AllDests(source)
      modifies this`code, this`pool
      ensures next == StartsOf(source)[j + 1] && Passed(next, j + 1)
    {
      hide Plain, Starts, Op, StartsOf, Constant, ConstantBefore, JumpOp, Rewritten, WordOf, Lands, Dests;
      ghost var before := code;
      StartOf(source, j);
      StartOf(source, j + 1);
      JumpOpWidth(source, j);
      NextJumpOp(source, j);
      var op := code[at];
      next := at + 1;
      if PUSH1 <= op <= PUSH32 {
        var nPush := op - PUSH1 + 1;
        next := at + nPush + 1;
        var val := DecodeConstant(at + 1, nPush);
        DecodedConstant(source, code, j);
        if 5 < nPush {
          PoolConstant(at, nPush, val);
        }
        DestsIncrease(source, |StartsOf(source)| - 1);
        ReplaceJump(next, val);
      }
      StillRewritten(source, before, code, j);
      NowRewritten(source, before, code, j);
    }

    method DecodeConstant(from: nat, count: nat) returns (val: Word)
      requires 0 < count <= 32 && from + count <= |code|
      ensures val == WordOf(code[from..from + count])
    {
      var acc: nat := code[from];
      var i, n := from + 1, count - 1;
      while n > 0
        invariant i + n == from + count && i <= |code|
        invariant acc == FromBigEndian(code[from..i])
      {
        assert code[from..i + 1] == code[from..i] + [code[i]];
        acc := acc * 0x100 + code[i];
        i, n := i + 1, n - 1;
      }
      assert acc == WordOf(code[from..from + count]);
      val := acc;
    }

    /** PUSHC, the offset into the pool in two bytes, and how many bytes there are to skip after them. */
    method PoolConstant(at: nat, nPush: nat, val: Word)
      requires 5 < nPush <= 32 && at + nPush < |code|
      modifies this`code, this`pool
      ensures pool == old(pool) + [val]
      ensures |code| == old(|code|) && code[at] == PUSHC && code[at + 3] == nPush - 2
      ensures var offset := |old(pool)| % POOL_OFFSETS; code[at + 1] == offset / 0x100 && code[at + 2] == offset % 0x100
      ensures forall q :: 0 <= q < |code| && !(at <= q <= at + 3) ==> code[q] == old(code[q])
    {
      var poolOff := |pool| % POOL_OFFSETS;
      pool := pool + [val];
      code := code[at := PUSHC];
      code := code[at + 3 := nPush - 2];
      code := code[at + 2 := poolOff % 0x100];
      code := code[at + 1 := poolOff / 0x100];
    }

    /** JUMP and JUMPI to a constant destination become JUMPC and JUMPCI. */
    method ReplaceJump(i: nat, val: Word)
      requires i < |code| && Increasing(jumpDests)
      modifies this`code
      ensures code == old(code)[i :=
        if !Lands(jumpDests, val) then old(code[i])
        else if old(code[i]) == JUMP then JUMPC else if old(code[i]) == JUMPI then JUMPCI else old(code[i])]
    {
      var op := code[i];
      if op == JUMP {
        var dest := VerifyJumpDest(val);
        if 0 <= dest {
          code := code[i := JUMPC];
        }
      } else if op == JUMPI {
        var dest := VerifyJumpDest(val);
        if 0 <= dest {
          code := code[i := JUMPCI];
        }
      }
    }

    /** The destination if it is one, and -1 if not. */
    method VerifyJumpDest(dest: Word) returns (pc: int)
      requires Increasing(jumpDests)
      ensures pc == if Lands(jumpDests, dest) then dest else -1
    {
      if dest <= INT63_MAX {
        var lo, hi := 0, |jumpDests|;
        while lo < hi
          invariant 0 <= lo <= hi <= |jumpDests|
          invariant forall i :: 0 <= i < lo ==> jumpDests[i] < dest
          invariant forall i :: hi <= i < |jumpDests| ==> dest <= jumpDests[i]
        {
          var mid := (lo + hi) / 2;
          if jumpDests[mid] < dest {
            lo := mid + 1;
          } else {
            hi := mid;
          }
        }
        if lo < |jumpDests| && jumpDests[lo] == dest {
          return dest;
        }
      }
      pc := -1;
    }

    // -------------------------------------------------------------- running

    /** exec: runs the optimised code for a number of instructions. What comes of it is what the code would do as it
      was given, and nothing outside the code, the pool and the stack is read on the way. */
    method Exec(limit: nat) returns (outcome: Outcome<W>)
      requires Optimized(source, Prepared()) && |pool| <= POOL_OFFSETS
      requires metrics == InitMetrics(table) && Standard(table) && StopStops(others)
      requires pc == 0 && stack == []
      modifies this`pc, this`stack, this`ioGas, this`world
      ensures outcome == Run(Unoptimized(source), metrics, others, old(State()), limit)
      ensures outcome != Astray && (outcome.Going? ==> State() == outcome.m)
    {
      hide Step, Standard, StopStops, Optimized, ReadsBack, Plain, Starts, Pooled, JumpOp, Agrees;
      ghost var start, p := State(), Prepared();
      SmallPoolReadable(pool);
      Simulation(source, p, table, others, ioGas, world, limit);
      StartOf(source, 0);
      AtStart(source, start);
      DestsSorted(source, p);
      ghost var j: nat := 0;
      var left := limit;
      outcome := Going(State());
      while left > 0
        invariant At(source, State(), j) && outcome == Going(State())
        invariant Run(p, metrics, others, start, limit) == Run(p, metrics, others, State(), left)
        decreases left
      {
        NextAt(source, p, table, others, State(), j);
        outcome := Instruction();
        if !outcome.Going? {
          return;
        }
        j :| At(source, State(), j);
        left := left - 1;
      }
    }

    /** One instruction. */
    method Instruction() returns (outcome: Outcome<W>)
      requires Increasing(jumpDests) && Step(Prepared(), metrics, others, State()) != Astray
      modifies this`pc, this`stack, this`ioGas, this`world
      ensures outcome == old(Step(Prepared(), metrics, others, State()))
      ensures outcome.Going? ==> State() == outcome.m
    {
      hide WordOf, Lands, Increasing;
      var op := code[pc];
      var metric := metrics(op);
      // adjustStack
      if |stack| < metric.args {
        return Thrown(StackUnderflow);
      }
      if |stack| - metric.args + metric.returned > STACK_LIMIT {
        return Thrown(OutOfStack);
      }
      if PUSH1 <= op <= PUSH32 {
        outcome := PushBytes(op, metric.cost);
      } else if op == PUSHC {
        outcome := PushPooled(metric.cost);
      } else if op == JUMP || op == JUMPI || op == JUMPC || op == JUMPCI {
        outcome := Jump(op, metric.cost);
      } else {
        var effect := others(op, State());
        if effect.Next? {
          pc, stack, ioGas, world := pc + 1, effect.stack, effect.gas, effect.world;
          outcome := Going(State());
        } else if effect.Finish? {
          outcome := Stopped(effect.gas, effect.world);
        } else {
          outcome := Thrown(effect.error);
        }
      }
    }

    method UpdateIOGas(runGas: nat) returns (enough: bool)
      modifies this`ioGas
      ensures enough <==> old(ioGas) >= runGas
      ensures ioGas == if enough then old(ioGas) - runGas else old(ioGas)
    {
      enough := ioGas >= runGas;
      if enough {
        ioGas := ioGas - runGas;
      }
    }

    method PushBytes(op: Byte, cost: nat) returns (outcome: Outcome<W>)
      requires pc < |code| && op == code[pc] && Width(op) > 0
      requires ioGas >= cost ==> NextPc(code, pc) <= |code|
      modifies this`pc, this`stack, this`ioGas
      ensures outcome == if old(ioGas) < cost then Thrown(OutOfGas) else Push(Prepared(), old(State()), cost)
      ensures outcome.Going? ==> State() == outcome.m
    {
      var enough := UpdateIOGas(cost);
      if !enough {
        return Thrown(OutOfGas);
      }
      hide WordOf;
      pc := pc + 1;
      var val := ReadNumber(op - PUSH1 + 1);
      stack := [val] + stack;
      outcome := Going(State());
    }

    /** The bytes from pc on as a number. */
    method ReadNumber(count: nat) returns (val: Word)
      requires count <= 32 && pc + count <= |code|
      modifies this`pc
      ensures pc == old(pc) + count && val == WordOf(code[old(pc)..pc])
    {
      ghost var from := pc;
      var numBytes, acc: nat := count, 0;
      while numBytes > 0
        invariant 0 <= numBytes && pc + numBytes == from + count && from <= pc
        invariant acc == FromBigEndian(code[from..pc])
      {
        assert code[from..pc + 1] == code[from..pc] + [code[pc]];
        acc := acc * 0x100 + code[pc];
        pc, numBytes := pc + 1, numBytes - 1;
      }
      assert acc == WordOf(code[from..pc]);
      val := acc;
    }

    method PushPooled(cost: nat) returns (outcome: Outcome<W>)
      requires ioGas >= cost ==> PushConstant(Prepared(), State(), cost) != Astray
      modifies this`pc, this`stack, this`ioGas
      ensures outcome == if old(ioGas) < cost then Thrown(OutOfGas) else PushConstant(Prepared(), old(State()), cost)
      ensures outcome.Going? ==> State() == outcome.m
    {
      var enough := UpdateIOGas(cost);
      if !enough {
        return Thrown(OutOfGas);
      }
      pc := pc + 1;
      var off: nat := code[pc];
      off := off * 0x100;
      pc := pc + 1;
      off := off + code[pc];
      pc := pc + 1;
      pc := pc + code[pc];
      stack := [pool[off]] + stack;
      outcome := Going(State());
    }

    method Jump(op: Byte, cost: nat) returns (outcome: Outcome<W>)
      requires op == JUMP || op == JUMPI || op == JUMPC || op == JUMPCI
      requires Increasing(jumpDests)
      requires ioGas >= cost ==> JumpTo(Prepared(), op, State(), cost) != Astray
      modifies this`pc, this`stack, this`ioGas
      ensures outcome == if old(ioGas) < cost then Thrown(OutOfGas) else JumpTo(Prepared(), op, old(State()), cost)
      ensures outcome.Going? ==> State() == outcome.m
    {
      var enough := UpdateIOGas(cost);
      if !enough {
        return Thrown(OutOfGas);
      }
      var conditional := op == JUMPI || op == JUMPCI;
      if conditional && stack[1] == 0 {
        pc, stack := pc + 1, stack[2..];
        return Going(State());
      }
      if op == JUMP || op == JUMPI {
        var dest := VerifyJumpDest(stack[0]);
        if dest < 0 {
          return Thrown(BadJumpDestination);
        }
        pc := dest;
      } else {
        pc := stack[0] % 0x1_0000_0000_0000_0000;
      }
      stack := stack[if conditional then 2 else 1..];
      outcome := Going(State());
    }
  }

  lemma AtStart<W>(source: Bytes, m: Machine<W>)
    requires m.pc == 0
    ensures At(source, m, 0)
  {
    StartOf(source, 0);
  }

  lemma DestsSorted(source: Bytes, p: Program)
    requires Optimized(source, p)
    ensures Increasing(p.jumpDests)
  {
    hide Rewritten, Plain, Starts, Pooled, Increasing;
    DestsIncrease(source, |StartsOf(source)| - 1);
  }

  lemma NextAt<W(!new)>(source: Bytes, p: Program, table: Metrics, others: Others<W>, m: Machine<W>, j: nat)
    requires Optimized(source, p) && PoolReadable(p.pool) && Standard(table) && StopStops(others) && At(source, m, j)
    ensures var outcome := Step(p, InitMetrics(table), others, m);
      outcome != Astray && (outcome.Going? ==> exists i :: At(source, outcome.m, i))
  {
    hide Step, Standard, StopStops, Optimized, ReadsBack, Plain, Starts, Pooled, JumpOp;
    StepAgrees(source, p, table, others, m, j);
  }

  lemma FirstJumpOp(source: Bytes)
    ensures JumpOp(source, 0) == Op(source, 0) && Op(source, 0) == Plain(source)[0]
  {
  }

  lemma NextJumpOp(source: Bytes, j: nat)
    requires Inside(source, j)
    ensures StartsOf(source)[j + 1] < |Plain(source)|
    ensures var op := Plain(source)[StartsOf(source)[j + 1]];
      JumpOp(source, j + 1) == if Width(Op(source, j)) == 0 || !Lands(AllDests(source), Constant(source, j)) then op
        else if op == JUMP then JUMPC else if op == JUMPI then JUMPCI else op
  {
    hide Plain, Starts, Dests, Constant, Lands;
    StartOf(source, j + 1);
  }

  lemma DecodedConstant(source: Bytes, code: Bytes, j: nat)
    requires Inside(source, j) && |code| == |Plain(source)|
    requires forall q :: StartsOf(source)[j] < q < |code| ==> code[q] == Plain(source)[q]
    ensures var start, next := StartsOf(source)[j], StartsOf(source)[j + 1];
      next <= |code| && start + 1 <= next <= start + 33 && WordOf(code[start + 1..next]) == Constant(source, j)
  {
    hide Plain, Starts, WordOf;
    StartOf(source, j);
    var start, next := StartsOf(source)[j], StartsOf(source)[j + 1];
    assert code[start + 1..next] == Plain(source)[start + 1..next];
  }

  lemma StillRewritten(source: Bytes, before: Bytes, code: Bytes, j: nat)
    requires Inside(source, j) && |before| == |code| == |Plain(source)|
    requires forall i :: 0 <= i < j ==> Rewritten(source, before, i)
    requires forall q :: 0 <= q < StartsOf(source)[j] && q < |code| ==> before[q] == code[q]
    ensures forall i :: 0 <= i < j ==> Rewritten(source, code, i)
  {
    hide Plain, Starts, StartsOf, Rewritten;
    forall i | 0 <= i < j
      ensures Rewritten(source, code, i)
    {
      StartsApart(source, j, i);
      RewrittenFrame(source, before, code, i);
    }
  }

  lemma NowRewritten(source: Bytes, before: Bytes, code: Bytes, j: nat)
    requires Inside(source, j) && |before| == |code| == |Plain(source)|
    requires (StartOf(source, j); before[StartsOf(source)[j]] == JumpOp(source, j))
    requires forall q :: StartsOf(source)[j] < q < |code| ==> before[q] == Plain(source)[q]
    requires var start, offset := StartsOf(source)[j], PoolOffset(source, j);
      if Wide(Op(source, j)) then
        && code[start] == PUSHC && code[start + 3] == Width(Op(source, j)) - 2
        && code[start + 1] == offset / 0x100 && code[start + 2] == offset % 0x100
      else forall q :: 0 <= q < StartsOf(source)[j + 1] && q < |code| ==> code[q] == before[q]
    ensures Rewritten(source, code, j)
  {
    hide Plain, Starts, Dests, Pooled, ConstantBefore, Op;
    StartOf(source, j);
  }

  lemma LastRewritten(source: Bytes, code: Bytes, j: nat)
    requires j == |StartsOf(source)| - 1 && |code| == |Plain(source)|
    requires StartsOf(source)[j] < |code| && code[StartsOf(source)[j]] == JumpOp(source, j)
    ensures Rewritten(source, code, j)
  {
    hide Plain, Starts, Dests, Pooled, ConstantBefore, Op;
    StartOf(source, j);
  }

  lemma LastStart(source: Bytes, j: nat)
    requires j < |StartsOf(source)|
    ensures StartsOf(source)[j] < |source| <==> Inside(source, j)
  {
    hide Plain, Starts;
    StartsStep(Plain(source), 0, |source|, j);
  }

  lemma BehindCode(source: Bytes, q: nat)
    requires |source| <= q < |Plain(source)|
    ensures Extended(source)[q] == Plain(source)[q]
  {
    PlainAt(source, q);
  }

  /** An instruction before masking. */
  lemma MaskedStart(source: Bytes, j: nat)
    requires Inside(source, j)
    ensures StartsOf(source)[j] < |Plain(source)|
    ensures var op := Extended(source)[StartsOf(source)[j]];
      && Plain(source)[StartsOf(source)[j]] == Op(source, j) == Masked(op)
      && StartsOf(source)[j + 1] == StartsOf(source)[j] + 1 + Width(op) < |Plain(source)|
      && (op == JUMPDEST <==> Op(source, j) == JUMPDEST)
  {
    hide Plain, Starts, Extended;
    StartOf(source, j);
    SourceStarts(source);
    PlainAt(source, StartsOf(source)[j]);
    assert StartsOf(source)[j] in StartsOf(source);
    MaskedWidth(Extended(source)[StartsOf(source)[j]]);
  }
}
