/** Gas and memory accounting of the interpreter (libaleth-interpreter/VM.cpp:134-137, 199-238, 270-450, 997-1072;
  VM.h:34-57, 135-144; VMCalls.cpp:24-37, 107-287).

  The first part is what instructions cost, in unbounded numbers. The second is the accounting as the interpreter does
  it, in 64-bit words that wrap around, with every sum and product that could wrap written out. */
module VmGas {
  import opened Bytes
  import opened VmCode

  const WORD64 := 0x1_0000_0000_0000_0000
  const WORD32 := 0x1_0000_0000
  const INT63 := 0x8000_0000_0000_0000

  // VMSchedule
  const MEMORY_GAS := 3
  const QUAD_COEFF_DIV := 512
  const COPY_GAS := 3
  const SHA3_GAS := 30
  const SHA3_WORD_GAS := 6
  const LOG_GAS := 375
  const LOG_TOPIC_GAS := 375
  const LOG_DATA_GAS := 8
  const CREATE_GAS := 32000
  const CALL_NEW_ACCOUNT := 25000
  const VALUE_TRANSFER_GAS := 9000
  const CALL_STIPEND := 2300

  // ---------------------------------------------------------------- what things cost

  function Words(size: nat): nat {
    (size + 31) / 32
  }

  function MemGas(words: nat): nat {
    MEMORY_GAS * words + words * words / QUAD_COEFF_DIV
  }

  /** How far memory has to reach. */
  function Need(offset: nat, size: nat): nat {
    if size == 0 then 0 else offset + size
  }

  function Max(a: nat, b: nat): nat {
    if a < b then b else a
  }

  /** The gas left of a frame and how many words of memory it has. */
  datatype Frame = Frame(gas: nat, words: nat)

  /** A base cost, memory up to `need`, and copying. */
  function Cost(words: nat, base: nat, need: nat, copied: nat): nat {
    MemGasGrows(words, Max(words, Words(need)));
    base + (MemGas(Max(words, Words(need))) - MemGas(words)) + COPY_GAS * Words(copied)
  }

  function Pay(f: Frame, base: nat, need: nat, copied: nat): Option<Frame> {
    var cost := Cost(f.words, base, need, copied);
    if f.gas < cost then None else Some(Frame(f.gas - cost, Max(f.words, Words(need))))
  }

  lemma MemGasGrows(a: nat, b: nat)
    requires a <= b
    ensures MemGas(a) + MEMORY_GAS * (b - a) <= MemGas(b)
  {
    assert a * a <= b * b by {
      assert a * a <= a * b <= b * b;
    }
  }

  /** A memory cost that fits 63 bits is for few words. */
  lemma MemGasBound(words: nat)
    ensures MemGas(words) < INT63 ==> words < 0x10_0000_0000
  {
    if words >= 0x10_0000_0000 {
      var n := 0x10_0000_0000;
      MemGasGrows(n, words);
      assert n * n == 0x100_0000_0000_0000_0000;
    }
  }

  // ---------------------------------------------------------------- instructions

  /** The instructions, with what decides their cost; Finish is RETURN or REVERT. The answers of the host to a create or a
    call are part of the instruction: whether it was made, and how much gas came back. */
  datatype Op =
    | Basic(cost: nat)
    | Access(cost: nat, offset: Word, width: nat)
    | Hash(offset: Word, size: Word)
    | Log(topics: nat, offset: Word, size: Word)
    | Copy(cost: nat, offset: Word, size: Word)
    | Finish(offset: Word, size: Word)
    | Create(salted: bool, offset: Word, size: Word, keep64th: bool, made: bool, left: nat)
    | Call(keep64th: bool, newAccount: bool, value: bool, inOffset: Word, inSize: Word, outOffset: Word, outSize: Word,
        asked: Word, made: bool, left: nat)

  /** What the schedule and the metrics table give: accesses of one byte or a word, four topics at most, and a positive
    cost of what the frame goes on after. */
  ghost predicate Legal(op: Op) {
    && (op.Basic? || op.Access? || op.Copy? ==> 0 < op.cost <= 1_000_000)
    && (op.Access? ==> op.width == 1 || op.width == 32)
    && (op.Log? ==> op.topics <= 4)
  }

  /** The cost besides memory, copying and the gas passed on to another frame. */
  function Base(op: Op): nat {
    match op
    case Basic(cost) => cost
    case Access(cost, _, _) => cost
    case Hash(_, size) => SHA3_GAS + SHA3_WORD_GAS * Words(size)
    case Log(topics, _, size) => LOG_GAS + LOG_TOPIC_GAS * topics + LOG_DATA_GAS * size
    case Copy(cost, _, _) => cost
    case Finish(_, _) => 0
    case Create(salted, _, size, _, _, _) => CREATE_GAS + (if salted then SHA3_WORD_GAS * Words(size) else 0)
    case Call(keep64th, newAccount, value, _, _, _, _, _, _, _) => CallBase(keep64th, newAccount, value)
  }

  /** How far memory has to reach for the instruction. */
  function Reach(op: Op): nat {
    match op
    case Basic(_) => 0
    case Access(_, offset, width) => offset + width
    case Hash(offset, size) => Need(offset, size)
    case Log(_, offset, size) => Need(offset, size)
    case Copy(_, offset, size) => Need(offset, size)
    case Finish(offset, size) => Need(offset, size)
    case Create(_, offset, size, _, _, _) => Need(offset, size)
    case Call(_, _, _, inOffset, inSize, outOffset, outSize, _, _, _) =>
      Max(Need(inOffset, inSize), Need(outOffset, outSize))
  }

  /** How many bytes are charged for copying. */
  function Copied(op: Op): nat {
    if op.Copy? then op.size else 0
  }

  /** The cost before the gas passed on to another frame. */
  function OwnCost(f: Frame, op: Op): Option<Frame> {
    Pay(f, Base(op), Reach(op), Copied(op))
  }

  function CallBase(keep64th: bool, newAccount: bool, value: bool): nat {
    (if keep64th then 700 else 40) + (if newAccount then CALL_NEW_ACCOUNT else 0) + (if value then VALUE_TRANSFER_GAS else 0)
  }

  /** The gas taken from the frame for the other frame. */
  function PassedOn(f: Frame, op: Op): nat {
    if op.Create? && op.made then (if op.keep64th then f.gas - f.gas / 64 else f.gas)
    else if op.Call? then (if op.keep64th && op.asked > f.gas - f.gas / 64 then f.gas - f.gas / 64 else op.asked)
    else 0
  }

  /** The gas the other frame starts with. */
  function Sent(f: Frame, op: Op): nat {
    PassedOn(f, op) + if op.Call? && op.value then CALL_STIPEND else 0
  }

  /** Gas that comes back: what the other frame left, or all of it if there was none. */
  function GivenBack(f: Frame, op: Op): nat {
    if op.Create? then (if op.made then op.left else 0)
    else if op.Call? then (if op.made then op.left else Sent(f, op))
    else 0
  }

  /** One instruction; None when the gas does not suffice. */
  function Perform(f: Frame, op: Op): Option<Frame> {
    var paid := OwnCost(f, op);
    if paid.None? || PassedOn(paid.value, op) > paid.value.gas then None
    else
      Some(Frame(paid.value.gas - PassedOn(paid.value, op) + GivenBack(paid.value, op), paid.value.words))
  }

  /** The host gives back no more gas than was sent. */
  ghost predicate Honest(f: Frame, op: Op) {
    var paid := OwnCost(f, op);
    paid.Some? && (op.Create? || op.Call?) && op.made ==> op.left <= Sent(paid.value, op)
  }

  /** Gas and the price of all memory together: what a frame started with, less what it has spent otherwise. */
  function Worth(f: Frame): nat {
    f.gas + MemGas(f.words)
  }

  /** Every instruction that goes on leaves less gas, whatever is given back, and memory is paid for exactly. */
  lemma GasFalls(f: Frame, op: Op)
    requires Legal(op) && !op.Finish? && Honest(f, op) && Perform(f, op).Some?
    ensures Perform(f, op).value.gas < f.gas
    ensures Worth(Perform(f, op).value) < Worth(f)
    ensures Perform(f, op).value.words >= f.words
  {
    hide MemGas, Words;
    MemGasGrows(f.words, Perform(f, op).value.words);
  }

  /** EIP-150: a call or create leaves the frame at least one 64th of its gas, and the other frame gets no more than all
    but that 64th besides the stipend. */
  lemma AllButOne64th(f: Frame, op: Op)
    requires (op.Create? || op.Call?) && op.keep64th && OwnCost(f, op).Some?
    ensures var paid := OwnCost(f, op).value;
      && PassedOn(paid, op) <= paid.gas - paid.gas / 64
      && Perform(f, op).Some? && Perform(f, op).value.gas >= paid.gas / 64
  {
  }

  // ---------------------------------------------------------------- prices in numbers

  /** How many words so many bytes are. */
  ghost predicate InWords(size: nat, words: nat) {
    32 * words >= size && (words > 0 ==> 32 * (words - 1) < size)
  }

  /** Memory of w words costs 3 for each and the 512th part of their square. */
  lemma MemoryInNumbers(w: nat)
    ensures MemGas(w) >= 3 * w && 512 * (MemGas(w) - 3 * w) <= w * w < 512 * (MemGas(w) - 3 * w + 1)
  {
    var square := w * w;
    assert MemGas(w) - 3 * w == square / 512;
  }

  /** How far an instruction makes memory reach: to the end of what it touches, if it touches anything. */
  lemma ReachInNumbers(f: Frame, op: Op, offset: nat, size: nat, words: nat)
    requires OwnCost(f, op).Some? && InWords(if size == 0 then 0 else offset + size, words)
    requires match op
      case Basic(_) => size == 0
      case Access(_, o, width) => offset == o && size == width && width > 0
      case Hash(o, s) => offset == o && size == s
      case Log(_, o, s) => offset == o && size == s
      case Copy(_, o, s) => offset == o && size == s
      case Finish(o, s) => offset == o && size == s
      case Create(_, o, s, _, _, _) => offset == o && size == s
      case Call(_, _, _, i, n, o, s, _, _, _) =>
        || (s == 0 && offset == i && size == n)
        || (n == 0 && offset == o && size == s)
        || (n > 0 && s > 0 && offset + size == (if i + n < o + s then o + s else i + n) && size > 0)
    ensures OwnCost(f, op).value.words == if words > f.words then words else f.words
  {
    hide MemGas, Base, Copied;
  }

  /** What an instruction costs besides memory and what it passes on. `words` is the size it hashes or copies. */
  lemma CostInNumbers(f: Frame, op: Op, words: nat)
    requires OwnCost(f, op).Some?
    requires op.Hash? || op.Copy? || op.Create? ==> InWords(op.size, words)
    ensures f.gas - OwnCost(f, op).value.gas - (MemGas(OwnCost(f, op).value.words) - MemGas(f.words)) ==
      match op
      case Basic(cost) => cost
      case Access(cost, _, _) => cost
      case Hash(_, _) => 30 + 6 * words
      case Log(topics, _, size) => 375 + 375 * topics + 8 * size
      case Copy(cost, _, _) => cost + 3 * words
      case Finish(_, _) => 0
      case Create(salted, _, _, _, _, _) => 32000 + if salted then 6 * words else 0
      case Call(keep64th, newAccount, value, _, _, _, _, _, _, _) =>
        (if keep64th then 700 else 40) + (if newAccount then 25000 else 0) + if value then 9000 else 0
  {
    hide MemGas, Reach;
  }

  /** What a create leaves: all gas if it is not made, and otherwise what comes back and, since EIP-150, the 64th part that
    is kept. */
  lemma CreateInNumbers(f: Frame, op: Op, part: nat)
    requires op.Create? && OwnCost(f, op).Some? && 64 * part <= OwnCost(f, op).value.gas < 64 * (part + 1)
    ensures var own := OwnCost(f, op).value.gas;
      Perform(f, op).Some? && Perform(f, op).value.gas ==
        if !op.made then own else op.left + if op.keep64th then part else 0
  {
    hide MemGas, Base, Reach;
  }

  /** What a call leaves. It passes on what is asked for, and since EIP-150 no more than all but the 64th part; without that
    it fails if more is asked for than there is. With value the other frame gets 2300 on top, which come back, like the
    rest, if the call is not made. */
  lemma CallInNumbers(f: Frame, op: Op, part: nat)
    requires op.Call? && OwnCost(f, op).Some? && 64 * part <= OwnCost(f, op).value.gas < 64 * (part + 1)
    ensures var own := OwnCost(f, op).value.gas;
      var passed := if op.keep64th && op.asked > own - part then own - part else op.asked;
      && (Perform(f, op).Some? <==> passed <= own)
      && (passed <= own ==>
            Perform(f, op).value.gas == if op.made then own - passed + op.left else own + if op.value then 2300 else 0)
      && Sent(OwnCost(f, op).value, op) == passed + if op.value then 2300 else 0
  {
    hide MemGas, Base, Reach;
  }

  // ---------------------------------------------------------------- whole frames

  function RunFrame(f: Frame, ops: seq<Op>): Option<Frame>
  {
    if ops == [] then Some(f)
    else
      var rest := RunFrame(f, ops[..|ops| - 1]);
      if rest.None? then None else Perform(rest.value, ops[|ops| - 1])
  }

  ghost predicate HonestRun(f: Frame, ops: seq<Op>) {
    forall i :: 0 <= i < |ops| ==>
      Legal(ops[i]) && !ops[i].Finish? && (RunFrame(f, ops[..i]).Some? ==> Honest(RunFrame(f, ops[..i]).value, ops[i]))
  }

  lemma {:induction false} StaysOut(f: Frame, ops: seq<Op>, i: nat)
    requires i <= |ops| && RunFrame(f, ops[..i]) == None
    ensures RunFrame(f, ops) == None
  {
    if i < |ops| {
      assert ops[..|ops| - 1][..i] == ops[..i];
      StaysOut(f, ops[..|ops| - 1], i);
    } else {
      assert ops[..i] == ops;
    }
  }

  /** What one instruction has taken for memory: all the gas that is gone, less what the instruction costs otherwise and
    what went to another frame and did not come back. */
  ghost function TakenForMemory(f: Frame, op: Op): int
    requires Perform(f, op).Some?
  {
    var paid := OwnCost(f, op).value;
    f.gas - Perform(f, op).value.gas
    - (Base(op) + COPY_GAS * Words(Copied(op)) + PassedOn(paid, op) - GivenBack(paid, op))
  }

  lemma StepExact(f: Frame, op: Op)
    requires Perform(f, op).Some?
    ensures TakenForMemory(f, op) == MemGas(Perform(f, op).value.words) - MemGas(f.words)
  {
    hide MemGas, Words, Base, Reach, PassedOn, GivenBack;
  }

  /** What a run has taken for memory, read off the gas. */
  ghost function MemoryCharged(f: Frame, ops: seq<Op>): int {
    if ops == [] || RunFrame(f, ops).None? then 0
    else
      var last := |ops| - 1;
      MemoryCharged(f, ops[..last]) + TakenForMemory(RunFrame(f, ops[..last]).value, ops[last])
  }

  /** A frame cannot go on for more steps than it has gas; and the gas a run has taken for memory adds up to the price of
    its final size. */
  lemma {:induction false} FrameEnds(f: Frame, ops: seq<Op>)
    requires HonestRun(f, ops) && RunFrame(f, ops).Some?
    ensures RunFrame(f, ops).value.gas + |ops| <= f.gas
    ensures Worth(RunFrame(f, ops).value) + |ops| <= Worth(f)
    ensures MemoryCharged(f, ops) == MemGas(RunFrame(f, ops).value.words) - MemGas(f.words)
  {
    hide MemGas, OwnCost, TakenForMemory, Perform;
    if ops != [] {
      var front := ops[..|ops| - 1];
      assert forall i :: 0 <= i < |front| ==> front[..i] == ops[..i];
      FrameEnds(f, front);
      GasFalls(RunFrame(f, front).value, ops[|ops| - 1]);
      StepExact(RunFrame(f, front).value, ops[|ops| - 1]);
    }
  }

  // ---------------------------------------------------------------- offsets cut to 32 bits

  /** A cast to 32 bits. */
  function Low32(v: nat): (low: nat)
    ensures low <= v && low < WORD32 && (v < WORD32 ==> low == v)
  {
    v % WORD32
  }

  /** MLOAD, MSTORE and MSTORE8 cut the offset to 32 bits. No offset that is paid for is cut if and only if the gas does
    not suffice to reach just past 2^32. */
  lemma CastsSafe(f: Frame, cost: nat, width: nat)
    requires width == 1 || width == 32
    ensures (forall offset: Word :: Perform(f, Access(cost, offset, width)).Some? ==> Low32(offset) == offset)
      <==> f.gas < Cost(f.words, cost, WORD32 + width, 0)
  {
    var first: Word := WORD32;
    assert Perform(f, Access(cost, first, width)).Some? <==> f.gas >= Cost(f.words, cost, WORD32 + width, 0);
    if f.gas < Cost(f.words, cost, WORD32 + width, 0) {
      forall offset: Word | Perform(f, Access(cost, offset, width)).Some?
        ensures Low32(offset) == offset
      {
        FurtherCostsMore(f, cost, width, offset);
      }
    }
  }

  lemma FurtherCostsMore(f: Frame, cost: nat, width: nat, offset: nat)
    ensures offset >= WORD32 ==> Cost(f.words, cost, WORD32 + width, 0) <= Cost(f.words, cost, offset + width, 0)
  {
    hide MemGas;
    if offset >= WORD32 {
      MemGasGrows(Max(f.words, Words(WORD32 + width)), Max(f.words, Words(offset + width)));
    }
  }

  /** The places in memory an instruction reads and writes: offset and size. */
  function Ranges(op: Op): seq<(nat, nat)> {
    match op
    case Basic(_) => []
    case Access(_, offset, width) => [(offset, width)]
    case Hash(offset, size) => [(offset, size)]
    case Log(_, offset, size) => [(offset, size)]
    case Copy(_, offset, size) => [(offset, size)]
    case Finish(offset, size) => [(offset, size)]
    case Create(_, offset, size, _, _, _) => [(offset, size)]
    case Call(_, _, _, inOffset, inSize, outOffset, outSize, _, _, _) => [(inOffset, inSize), (outOffset, outSize)]
  }

  /** Whatever part of memory an instruction has paid for is there, and in a frame that started with less than 2^45 gas it
    lies below 2^32, so that no cast of the offset or the size loses anything. */
  lemma AccessesInside(gas: nat, ops: seq<Op>, op: Op, i: nat)
    requires gas < 0x2000_0000_0000 && HonestRun(Frame(gas, 0), ops) && RunFrame(Frame(gas, 0), ops).Some?
    requires i < |Ranges(op)| && Ranges(op)[i].1 > 0
    ensures var before := RunFrame(Frame(gas, 0), ops).value;
      OwnCost(before, op).Some? ==>
        var (offset, size), words := Ranges(op)[i], OwnCost(before, op).value.words;
        offset + size <= 32 * words < WORD32 && Low32(offset) == offset && Low32(size) == size
  {
    hide Base, Copied, MemGas, Low32;
    var before := RunFrame(Frame(gas, 0), ops).value;
    FrameEnds(Frame(gas, 0), ops);
    NoMemoryFree();
    assert Ranges(op)[i].0 + Ranges(op)[i].1 <= Reach(op);
    if OwnCost(before, op).Some? {
      WordsBelow(before, Base(op), Reach(op), Copied(op));
    }
  }

  lemma NoMemoryFree()
    ensures MemGas(0) == 0
  {
  }

  lemma WordsBelow(f: Frame, base: nat, need: nat, copied: nat)
    requires Worth(f) < 0x2000_0000_0000 && Pay(f, base, need, copied).Some?
    ensures Pay(f, base, need, copied).value.words < 0x800_0000
  {
    var words := Pay(f, base, need, copied).value.words;
    assert MemGas(words) <= Worth(f);
    if words >= 0x800_0000 {
      MemGasGrows(0x800_0000, words);
    }
  }

  // ---------------------------------------------------------------- the accounting in 64 bits

  /** What happens to memory growing: zero bytes are added. */
  function Grown(mem: Bytes, size: nat): (grown: Bytes)
    ensures |grown| == Max(|mem|, size) && mem <= grown
  {
    if |mem| < size then mem + seq(size - |mem|, _ => 0) else mem
  }

  class Meter {
    var ioGas: nat
    var runGas: nat
    var newMemSize: nat
    var copyMemSize: nat
    var mem: Bytes

    /** Gas comes as a signed 64-bit number, and memory has been paid for out of it. */
    predicate Valid()
      reads this
    {
      |mem| % 32 == 0 && Worth(Now()) < INT63
    }

    function Now(): Frame
      reads this
    {
      Frame(ioGas, |mem| / 32)
    }

    constructor (gas: nat)
      requires gas < INT63
      ensures Valid() && Now() == Frame(gas, 0)
    {
      ioGas, runGas, newMemSize, copyMemSize, mem := gas, 0, 0, 0, [];
    }

    /** toInt63: None stands for the exception. */
    method ToInt63(v: nat) returns (w: Option<nat>)
      ensures w == if v < INT63 then Some(v) else None
    {
      if v > INT63_MAX {
        return None;
      }
      w := Some(v % WORD64);
    }

    method MemNeed(offset: Word, size: Word) returns (need: Option<nat>)
      ensures need == if Need(offset, size) < INT63 then Some(Need(offset, size)) else None
    {
      need := ToInt63(if size != 0 then offset + size else 0);
    }

    method GasForMem(size: nat) returns (gas: Option<nat>)
      ensures gas == if MemGas(size / 32) < INT63 then Some(MemGas(size / 32)) else None
    {
      var s := size / 32;
      gas := ToInt63(MEMORY_GAS * s + s * s / QUAD_COEFF_DIV);
    }

    method Fetch(cost: nat)
      modifies this`runGas, this`newMemSize, this`copyMemSize
      ensures runGas == cost && newMemSize == |mem| && copyMemSize == 0
    {
      runGas := cost;
      newMemSize := |mem|;
      copyMemSize := 0;
    }

    method UpdateIOGas() returns (ok: bool)
      modifies this`ioGas
      ensures ok <==> old(ioGas) >= runGas
      ensures ioGas == if ok then old(ioGas) - runGas else old(ioGas)
    {
      if ioGas < runGas {
        return false;
      }
      ioGas := ioGas - runGas;
      ok := true;
    }

    /** The sum of all charges does not wrap if the memory asked for has a price of 63 bits. */
    ghost predicate NoWrap(words: nat)
      reads this
    {
      && runGas + COPY_GAS * Words(copyMemSize) < WORD64
      && (MemGas(words) < INT63 ==> runGas + MemGas(words) + COPY_GAS * Words(copyMemSize) < WORD64)
    }

    method UpdateGas() returns (ok: bool)
      requires Valid() && newMemSize % 32 == 0 && newMemSize < WORD64 && copyMemSize < INT63 && NoWrap(newMemSize / 32)
      modifies this`runGas
      ensures ok <==> ioGas >= Cost(|mem| / 32, old(runGas), newMemSize, copyMemSize)
      ensures ok ==> runGas == Cost(|mem| / 32, old(runGas), newMemSize, copyMemSize)
    {
      hide MemGas, Words;
      assert Words(newMemSize) == newMemSize / 32 by {
        WholeWords(newMemSize);
      }
      var more := ExpansionGas();
      if more.None? {
        return false;
      }
      runGas := (runGas + more.value) % WORD64;
      var copying := CopyingGas();
      runGas := (runGas + copying) % WORD64;
      ok := ioGas >= runGas;
    }

    /** What copying m_copyMemSize bytes adds. */
    method CopyingGas() returns (gas: nat)
      requires copyMemSize < INT63
      ensures gas == COPY_GAS * Words(copyMemSize)
    {
      gas := COPY_GAS * ((copyMemSize + 31) % WORD64 / 32) % WORD64;
    }

    lemma WholeWords(size: nat)
      requires size % 32 == 0
      ensures Words(size) == size / 32
    {
    }

    /** What growing memory to m_newMemSize adds; None stands for the exception. */
    method ExpansionGas() returns (more: Option<nat>)
      requires Valid() && newMemSize % 32 == 0 && newMemSize < WORD64
      ensures var words, grown := |mem| / 32, Max(|mem| / 32, newMemSize / 32);
        && MemGas(words) <= MemGas(grown)
        && (more.Some? ==> more.value == MemGas(grown) - MemGas(words) && (grown > words ==> MemGas(grown) < INT63))
        && (more.None? ==> MemGas(grown) - MemGas(words) > ioGas)
    {
      hide MemGas;
      MemGasGrows(|mem| / 32, Max(|mem| / 32, newMemSize / 32));
      if newMemSize <= |mem| {
        return Some(0);
      }
      var newGas := GasForMem(newMemSize);
      if newGas.None? {
        return None;
      }
      var oldGas := GasForMem(|mem|);
      more := ToInt63((newGas.value - oldGas.value) % WORD64);
    }

    method UpdateMem(newMem: nat) returns (ok: bool)
      requires Valid() && newMem < INT63 + 64 && copyMemSize < INT63 && NoWrap(Words(newMem))
      modifies this`runGas, this`newMemSize, this`mem
      ensures ok <==> ioGas >= Cost(|old(mem)| / 32, old(runGas), newMem, copyMemSize)
      ensures ok ==> runGas == Cost(|old(mem)| / 32, old(runGas), newMem, copyMemSize)
      ensures mem == if ok then Grown(old(mem), 32 * Words(newMem)) else old(mem)
    {
      hide MemGas;
      newMemSize := (newMem + 31) % WORD64 / 32 * 32;
      assert newMemSize == 32 * Words(newMem) && Words(newMemSize) == Words(newMem) == newMemSize / 32;
      ok := UpdateGas();
      if ok && newMemSize > |mem| {
        mem := mem + seq(newMemSize - |mem|, _ => 0);
      }
    }

    /** updateMem and updateIOGas together pay for an instruction. */
    method Charge(newMem: nat) returns (ok: bool)
      requires Valid() && newMem < INT63 + 64 && copyMemSize < INT63 && NoWrap(Words(newMem))
      modifies this`runGas, this`newMemSize, this`mem, this`ioGas
      ensures var paid := Pay(old(Now()), old(runGas), newMem, copyMemSize);
        && (ok <==> paid.Some?)
        && (ok ==> Valid() && Now() == paid.value && mem == Grown(old(mem), 32 * Words(newMem)))
    {
      hide MemGas;
      ok := UpdateMem(newMem);
      if ok {
        ok := UpdateIOGas();
      }
    }

    /** Memory further than 63 bits is beyond any gas. */
    lemma TooFar(base: nat, need: nat, copied: nat)
      requires Valid() && need >= INT63
      ensures Pay(Now(), base, need, copied) == None
    {
      var words := Words(need);
      MemGasGrows(0x400_0000_0000_0000, words);
      assert MemGas(0x400_0000_0000_0000) >= 2 * INT63;
    }

    lemma TooDear(base: nat, need: nat, copied: nat)
      requires Valid() && base + Words(copied) >= INT63
      ensures Pay(Now(), base, need, copied) == None
    {
      hide MemGas;
      MemGasGrows(|mem| / 32, Max(|mem| / 32, Words(need)));
    }

    /** MLOAD, MSTORE and MSTORE8. */
    method AccessGas(cost: nat, offset: Word, width: nat) returns (ok: bool)
      requires Valid() && Legal(Access(cost, offset, width))
      modifies this
      ensures var paid := OwnCost(old(Now()), Access(cost, offset, width));
        && (ok <==> paid.Some?)
        && (ok ==> Valid() && Now() == paid.value && mem == Grown(old(mem), 32 * Words(offset + width)))
    {
      hide MemGas;
      Fetch(cost);
      var at := ToInt63(offset);
      if at.None? {
        TooFar(cost, offset + width, 0);
        return false;
      }
      ok := Charge((at.value + width) % WORD64);
    }

    method HashGas(offset: Word, size: Word) returns (ok: bool)
      requires Valid()
      modifies this
      ensures var paid := OwnCost(old(Now()), Hash(offset, size));
        (ok <==> paid.Some?) && (ok ==> Valid() && Now() == paid.value)
    {
      hide MemGas;
      Fetch(SHA3_GAS);
      var base := ToInt63(SHA3_GAS + Words(size) * SHA3_WORD_GAS);
      if base.None? {
        TooDear(SHA3_GAS + SHA3_WORD_GAS * Words(size), Need(offset, size), 0);
        return false;
      }
      runGas := base.value;
      ok := ChargeNeed(offset, size);
    }

    /** The memory from an offset on; a place that does not fit 63 bits is out of gas. */
    method ChargeNeed(offset: Word, size: Word) returns (ok: bool)
      requires Valid() && copyMemSize < INT63 && runGas + COPY_GAS * Words(copyMemSize) < INT63 + INT63
      requires Need(offset, size) < INT63 ==> NoWrap(Words(Need(offset, size)))
      modifies this`runGas, this`newMemSize, this`mem, this`ioGas
      ensures var paid := Pay(old(Now()), old(runGas), Need(offset, size), copyMemSize);
        && (ok <==> paid.Some?)
        && (ok ==> Valid() && Now() == paid.value && mem == Grown(old(mem), 32 * Words(Need(offset, size))))
    {
      hide MemGas;
      var need := MemNeed(offset, size);
      if need.None? {
        TooFar(runGas, Need(offset, size), copyMemSize);
        return false;
      }
      ok := Charge(need.value);
    }

    /** logGasMem. */
    method LogGasMem(topics: nat, offset: Word, size: Word) returns (ok: bool)
      requires Valid() && topics <= 4
      modifies this
      ensures var paid := OwnCost(old(Now()), Log(topics, offset, size));
        (ok <==> paid.Some?) && (ok ==> Valid() && Now() == paid.value)
    {
      hide MemGas;
      Fetch(LOG_GAS);
      var base := ToInt63(LOG_GAS + LOG_TOPIC_GAS * topics + LOG_DATA_GAS * size);
      if base.None? {
        TooDear(LOG_GAS + LOG_TOPIC_GAS * topics + LOG_DATA_GAS * size, Need(offset, size), 0);
        return false;
      }
      runGas := base.value;
      ok := ChargeNeed(offset, size);
    }

    /** CALLDATACOPY, CODECOPY, RETURNDATACOPY and EXTCODECOPY. */
    method CopyGas(cost: nat, offset: Word, size: Word) returns (ok: bool)
      requires Valid() && Legal(Copy(cost, offset, size))
      modifies this
      ensures var paid := OwnCost(old(Now()), Copy(cost, offset, size));
        && (ok <==> paid.Some?)
        && (ok ==> Valid() && Now() == paid.value && mem == Grown(old(mem), 32 * Words(Need(offset, size))))
    {
      hide MemGas;
      Fetch(cost);
      var copied := ToInt63(size);
      if copied.None? {
        TooFar(cost, Need(offset, size), size);
        return false;
      }
      copyMemSize := copied.value;
      ok := ChargeNeed(offset, size);
    }

    /** The sum of a create's charges does not wrap: if the memory can be paid for, there is not much to hash. */
    lemma CreateNoWrap(offset: Word, size: Word, hashing: nat)
      requires hashing <= SHA3_WORD_GAS * Words(size)
      ensures MemGas(Words(Need(offset, size))) < INT63 ==>
        CREATE_GAS + hashing + MemGas(Words(Need(offset, size))) < WORD64
    {
      MemGasBound(Words(Need(offset, size)));
    }

    /** caseCreate. Whether the host was asked and what it left are given. */
    method CaseCreate(op: Op) returns (ok: bool)
      requires Valid() && op.Create? && Honest(Now(), op)
      modifies this
      ensures var after := Perform(old(Now()), op);
        (ok <==> after.Some?) && (ok ==> Valid() && Now() == after.value)
    {
      hide MemGas, OwnCost;
      ok := CreateCosts(op);
      if ok && op.made {
        var sent := ioGas;
        if op.keep64th {
          sent := sent - sent / 64;
        }
        ioGas := (ioGas - (sent - op.left)) % WORD64;
      }
    }

    /** The costs of a create apart from the gas passed on. */
    method CreateCosts(op: Op) returns (ok: bool)
      requires Valid() && op.Create?
      modifies this
      ensures var paid := OwnCost(old(Now()), op);
        (ok <==> paid.Some?) && (ok ==> Valid() && Now() == paid.value)
    {
      hide MemGas, Words, Cost;
      Fetch(CREATE_GAS);
      if op.salted {
        var hashing := ToInt63(Words(op.size) * SHA3_WORD_GAS);
        if hashing.None? {
          TooDear(CREATE_GAS + SHA3_WORD_GAS * Words(op.size), Need(op.offset, op.size), 0);
          return false;
        }
        runGas := (runGas + hashing.value) % WORD64;
      }
      assert runGas == CREATE_GAS + if op.salted then SHA3_WORD_GAS * Words(op.size) else 0;
      CreateNoWrap(op.offset, op.size, runGas - CREATE_GAS);
      NothingCopied();
      ok := ChargeNeed(op.offset, op.size);
    }

    lemma NothingCopied()
      ensures Words(0) == 0
    {
    }

    /** caseCallSetup and caseCall. */
    method CaseCall(op: Op) returns (ok: bool)
      requires Valid() && op.Call? && Honest(Now(), op)
      modifies this
      ensures var after := Perform(old(Now()), op);
        (ok <==> after.Some?) && (ok ==> Valid() && Now() == after.value)
    {
      hide MemGas, OwnCost, Base, Reach, Pay;
      ghost var before := Now();
      ok := CallCosts(op);
      if !ok {
        return;
      }
      CallBounded(before, op);
      hide Worth;
      var callGas: nat := op.asked;
      if op.keep64th {
        var most := ioGas - ioGas / 64;
        callGas := if callGas < most then callGas else most;
      }
      var gas := ToInt63(callGas);
      if gas.None? {
        return false;
      }
      runGas := gas.value;
      ok := UpdateIOGas();
      if ok {
        var sent := gas.value;
        if op.value {
          sent := sent + CALL_STIPEND;
        }
        ioGas := (ioGas + if op.made then op.left else sent) % WORD64;
      }
    }

    /** What a call leaves does not wrap around. */
    lemma CallBounded(f: Frame, op: Op)
      requires op.Call? && Honest(f, op) && Worth(f) < INT63 && OwnCost(f, op).Some?
      ensures Perform(f, op).Some? ==> Perform(f, op).value.gas < INT63 && Worth(Perform(f, op).value) < INT63
      ensures OwnCost(f, op).value.gas < INT63 && PassedOn(OwnCost(f, op).value, op) >= 0
    {
      hide MemGas, OwnCost;
      CallPaysStipend(f, op);
    }

    /** What a call pays for sending value is more than the stipend it adds. */
    lemma CallPaysStipend(f: Frame, op: Op)
      requires op.Call? && OwnCost(f, op).Some?
      ensures Worth(OwnCost(f, op).value) + (if op.value then CALL_STIPEND else 0) < Worth(f)
    {
      hide MemGas, Words;
    }

    /** The costs of a call apart from the gas passed on. */
    method CallCosts(op: Op) returns (ok: bool)
      requires Valid() && op.Call?
      modifies this
      ensures var paid := OwnCost(old(Now()), op);
        (ok <==> paid.Some?) && (ok ==> Valid() && Now() == paid.value)
    {
      hide MemGas;
      Fetch(if op.keep64th then 700 else 40);
      if op.newAccount {
        runGas := runGas + CALL_NEW_ACCOUNT;
      }
      if op.value {
        runGas := runGas + VALUE_TRANSFER_GAS;
      }
      ghost var need := Max(Need(op.inOffset, op.inSize), Need(op.outOffset, op.outSize));
      var inNeed := MemNeed(op.inOffset, op.inSize);
      var outNeed := MemNeed(op.outOffset, op.outSize);
      if inNeed.None? || outNeed.None? {
        TooFar(runGas, need, 0);
        return false;
      }
      ok := Charge(Max(inNeed.value, outNeed.value));
    }

    /** ON_OP and updateIOGas, for instructions that need no memory. */
    method BasicGas(cost: nat) returns (ok: bool)
      requires Valid()
      modifies this
      ensures var paid := OwnCost(old(Now()), Basic(cost));
        && (ok <==> paid.Some?)
        && (ok ==> Valid() && Now() == paid.value && mem == old(mem))
    {
      hide MemGas;
      Fetch(cost);
      NothingCopied();
      ok := UpdateIOGas();
    }

    /** Any instruction. */
    method PerformGas(op: Op) returns (ok: bool)
      requires Valid() && Legal(op) && Honest(Now(), op)
      modifies this
      ensures var after := Perform(old(Now()), op);
        (ok <==> after.Some?) && (ok ==> Valid() && Now() == after.value)
    {
      hide MemGas, Pay;
      match op
      case Basic(cost) => ok := BasicGas(cost);
      case Access(cost, offset, width) => ok := AccessGas(cost, offset, width);
      case Hash(offset, size) => ok := HashGas(offset, size);
      case Log(topics, offset, size) => ok := LogGasMem(topics, offset, size);
      case Copy(cost, offset, size) => ok := CopyGas(cost, offset, size);
      case Finish(offset, size) => ok := FinishGas(offset, size);
      case Create(_, _, _, _, _, _) => ok := CaseCreate(op);
      case Call(_, _, _, _, _, _, _, _, _, _) => ok := CaseCall(op);
    }

    /** A run of instructions: the 64-bit accounting follows the exact one all along, with no sum that wraps around, and runs
      out of gas exactly when that does. */
    method RunGas(ops: seq<Op>) returns (ok: bool)
      requires Valid() && HonestRun(Now(), ops)
      modifies this
      ensures var after := RunFrame(old(Now()), ops);
        (ok <==> after.Some?) && (ok ==> Valid() && Now() == after.value)
      ensures ok ==> ioGas + |ops| <= old(ioGas) && Worth(Now()) + |ops| <= Worth(old(Now()))
    {
      hide Perform, Worth, Honest, Legal;
      ghost var start := Now();
      for i := 0 to |ops|
        invariant Valid() && RunFrame(start, ops[..i]) == Some(Now())
      {
        assert ops[..i + 1][..i] == ops[..i];
        ok := PerformGas(ops[i]);
        if !ok {
          StaysOut(start, ops, i + 1);
          return;
        }
      }
      assert ops[..|ops|] == ops;
      FrameEnds(start, ops);
      ok := true;
    }

    // -------------------------------------------------------------- reading and writing memory

    /** RETURN and REVERT. */
    method FinishGas(offset: Word, size: Word) returns (ok: bool)
      requires Valid()
      modifies this
      ensures var paid := OwnCost(old(Now()), Op.Finish(offset, size));
        && (ok <==> paid.Some?)
        && (ok ==> Valid() && Now() == paid.value && mem == Grown(old(mem), 32 * Words(Need(offset, size))))
    {
      hide MemGas;
      Fetch(0);
      ok := ChargeNeed(offset, size);
    }

    /** MLOAD: the word at the offset cut to 32 bits, from memory as far as it has to be grown. With less gas than it takes
      to reach past 2^32 that is the offset itself. */
    method MLoad(cost: nat, offset: Word) returns (word: Option<Bytes>)
      requires Valid() && Legal(Access(cost, offset, 32))
      modifies this
      ensures word.Some? <==> OwnCost(old(Now()), Access(cost, offset, 32)).Some?
      ensures word.Some? ==>
        && mem == Grown(old(mem), 32 * Words(offset + 32)) && offset + 32 <= |mem|
        && word.value == mem[Low32(offset)..Low32(offset) + 32]
      ensures word.Some? && old(ioGas) < Cost(|old(mem)| / 32, cost, WORD32 + 32, 0) ==>
        offset + 32 <= |mem| && word.value == mem[offset..offset + 32]
    {
      hide MemGas, OwnCost, Cost, Worth, Words, Low32;
      CutOffset(cost, offset, 32);
      var ok := AccessGas(cost, offset, 32);
      if !ok {
        return None;
      }
      var at := Low32(offset);
      word := Some(mem[at..at + 32]);
    }

    /** MSTORE and MSTORE8: bytes put at the offset cut to 32 bits. */
    method MStore(cost: nat, offset: Word, value: Bytes) returns (ok: bool)
      requires Valid() && Legal(Access(cost, offset, |value|))
      modifies this
      ensures ok <==> OwnCost(old(Now()), Access(cost, offset, |value|)).Some?
      ensures ok ==>
        var grown, at := Grown(old(mem), 32 * Words(offset + |value|)), Low32(offset);
        && offset + |value| <= |grown| && mem == grown[..at] + value + grown[at + |value|..]
        && (old(ioGas) < Cost(|old(mem)| / 32, cost, WORD32 + |value|, 0) ==> at == offset)
    {
      hide MemGas, OwnCost, Cost, Worth, Words, Low32;
      CutOffset(cost, offset, |value|);
      ok := AccessGas(cost, offset, |value|);
      if ok {
        var at := Low32(offset);
        mem := mem[..at] + value + mem[at + |value|..];
      }
    }

    /** The cast loses nothing where the gas does not reach past 2^32. */
    lemma CutOffset(cost: nat, offset: Word, width: nat)
      requires width == 1 || width == 32
      ensures Low32(offset) <= offset && offset + width <= 32 * Words(offset + width)
      ensures OwnCost(Now(), Access(cost, offset, width)).Some? && ioGas < Cost(|mem| / 32, cost, WORD32 + width, 0) ==>
        Low32(offset) == offset
    {
      hide MemGas;
      FurtherCostsMore(Now(), cost, width, offset);
    }

    /** copyDataToMemory: what there is of the data from the index on, and zeros behind its end. */
    method CopyDataToMemory(data: Bytes, offset: Word, index: Word, size: Word)
      requires |data| < WORD64 && |mem| < WORD64 && Need(offset, size) <= |mem|
      modifies this`mem
      ensures |mem| == |old(mem)|
      ensures forall i :: 0 <= i < |mem| ==>
        mem[i] == if offset <= i < offset + size then (if index + (i - offset) < |data| then data[index + (i - offset)] else 0)
                  else old(mem)[i]
    {
      var at, from, count := offset % WORD64, index % WORD64, size % WORD64;
      Cast(offset);
      Cast(index);
      Cast(size);
      assert count == size && (size > 0 ==> at == offset) && (index <= |data| ==> from == index);
      var copied := if index + count > |data| then (if |data| < index then 0 else |data| - from) else count;
      if copied > 0 {
        Overwrite(at, data[from..from + copied]);
      }
      if count > copied {
        Overwrite(at + copied, seq(count - copied, _ => 0));
      }
    }

    lemma Cast(v: nat)
      ensures v < WORD64 ==> v % WORD64 == v
    {
    }

    /** memcpy and memset. */
    method Overwrite(at: nat, bytes: Bytes)
      requires at + |bytes| <= |mem|
      modifies this`mem
      ensures |mem| == |old(mem)|
      ensures forall i :: 0 <= i < |mem| ==> mem[i] == if at <= i < at + |bytes| then bytes[i - at] else old(mem)[i]
    {
      mem := mem[..at] + bytes + mem[at + |bytes|..];
    }
  }
}
