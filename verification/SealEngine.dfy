/** Making headers from their parents and checking them (libethcore/SealEngine.cpp:38-68, 101-154, 213-282;
  libethcore/BlockHeader.cpp:211-247). */
module SealEngine {
  import opened Bytes
  import opened VmCode
  import VmWords

  const GAS_FLOOR_TARGET: Word := 3141562
  const UNSIGNED := 0x1_0000_0000
  const EXP_DIFF_PERIOD := 100000
  // "dao-hard-fork"
  const DAO_EXTRA_DATA: Bytes := [0x64, 0x61, 0x6f, 0x2d, 0x68, 0x61, 0x72, 0x64, 0x2d, 0x66, 0x6f, 0x72, 0x6b]

  /** ChainOperationParams, as far as headers depend on it. */
  datatype Params = Params(
    minimumDifficulty: Word, minGasLimit: Word, maxGasLimit: Word, maximumExtraDataSize: Word, gasLimitBoundDivisor: Word,
    difficultyBoundDivisor: Word, durationLimit: Word,
    homesteadForkBlock: Word, byzantiumForkBlock: Word, constantinopleForkBlock: Word, daoHardforkBlock: Word)

  /** What headers hold that is not a root. A hash of 32 zero bytes is the hash that has not been taken. */
  datatype Header = Header(
    hash: Hash, parentHash: Hash, hasUncles: bool, number: nat, timestamp: nat,
    difficulty: Word, gasLimit: Word, gasUsed: Word, extraData: Bytes)

  ghost predicate Usable(params: Params) {
    params.gasLimitBoundDivisor > 0 && params.difficultyBoundDivisor > 0
  }

  function Min(a: int, b: int): int { if b < a then b else a }
  function Max(a: int, b: int): int { if a < b then b else a }
  function Wrap(a: int): Word { a % WORD_LIMIT }

  /** Division of C++. */
  function Divide(a: int, b: int): int
    requires b > 0
  {
    if a < 0 then -(-a / b) else a / b
  }

  // ---------------------------------------------------------------- difficulty and gas limit

  /** The block number the difficulty increase over time depends on, in 32 bits, and its delays (EIP-649, EIP-1234). */
  function IceAgeNumber(params: Params, number: nat, parentNumber: nat): nat {
    var n := (parentNumber + 1) % UNSIGNED;
    var delay := if number >= params.constantinopleForkBlock then 5_000_000
                 else if number >= params.byzantiumForkBlock then 3_000_000 else 0;
    if n >= delay then n - delay else 0
  }

  /** The part of a gas limit or difficulty it may change by. */
  function Part(gas: nat, divisor: nat): (part: nat)
    requires divisor > 0
  {
    VmWords.QuotientBound(gas, divisor);
    gas / divisor
  }

  /** How many 2048ths of its parent's difficulty a block adds. */
  function Factor(params: Params, number: nat, timestamp: nat, parent: Header): int {
    var diff := timestamp - parent.timestamp;
    if number < params.byzantiumForkBlock then Max(1 - Divide(diff, 10), -99)
    else Max((if parent.hasUncles then 2 else 1) - Divide(diff, 9), -99)
  }

  /** Adjusts the parent's difficulty to how long the block took. */
  function DifficultyTarget(params: Params, number: nat, timestamp: nat, parent: Header): int
    requires Usable(params)
  {
    if number < params.homesteadForkBlock then
      if timestamp >= Wrap(parent.timestamp + params.durationLimit)
      then parent.difficulty - Part(parent.difficulty, params.difficultyBoundDivisor)
      else Wrap(parent.difficulty + Part(parent.difficulty, params.difficultyBoundDivisor))
    else
      parent.difficulty + parent.difficulty / 2048 * Factor(params, number, timestamp, parent)
  }

  function IceAge(periodCount: nat): nat {
    if periodCount > 1 then VmWords.Power(2, periodCount - 2) else 0
  }

  /** calculateEthashDifficulty; None is the exception for the genesis block. */
  function Difficulty(params: Params, number: nat, timestamp: nat, parent: Header): Option<Word>
    requires Usable(params)
  {
    if number == 0 then None
    else
      var o := DifficultyTarget(params, number, timestamp, parent)
        + IceAge(IceAgeNumber(params, number, parent.number) / EXP_DIFF_PERIOD);
      Some(Min(Max(params.minimumDifficulty, o), WORD_LIMIT - 1))
  }

  /** calculateGasLimit with the default gas floor; the header holds its parent's gas limit. */
  function GasLimit(params: Params, gasLimit: Word, gasUsed: Word): Word
    requires Usable(params)
  {
    var d := params.gasLimitBoundDivisor;
    if gasLimit < GAS_FLOOR_TARGET then Min(GAS_FLOOR_TARGET, Wrap(gasLimit + Part(gasLimit, d) - 1))
    else Max(GAS_FLOOR_TARGET, Wrap(gasLimit - Part(gasLimit, d) + 1 + Part(Wrap(gasUsed * 6) / 5, d)))
  }

  // ---------------------------------------------------------------- checking

  datatype Strictness = CheckEverything | CheckNothingNew

  datatype Failure =
    | InvalidNumber | TooMuchGasUsed | InvalidParentHash | InvalidTimestamp
    | InvalidDifficulty | InvalidGasLimit | ExtraDataTooBig | ExtraDataIncorrect

  predicate GasLimitInRange(params: Params, gasLimit: Word) {
    params.minGasLimit <= gasLimit <= params.maxGasLimit
  }

  /** The window around the parent's gas limit, both ends excluded. */
  predicate InWindow(params: Params, gasLimit: Word, parentGasLimit: Word)
    requires Usable(params)
  {
    var d := Part(parentGasLimit, params.gasLimitBoundDivisor);
    Wrap(parentGasLimit - d) < gasLimit < Wrap(parentGasLimit + d)
  }

  /** The ten blocks from the fork on have to carry its mark. */
  predicate DaoMarked(params: Params, header: Header) {
    var fork := params.daoHardforkBlock;
    fork != 0 && Wrap(fork + 9) >= fork && fork <= header.number <= Wrap(fork + 9) ==> header.extraData == DAO_EXTRA_DATA
  }

  /** BlockHeader::verify, SealEngineFace::verify and NoProof::verify in turn, for a header with a parent and no block. */
  function Verify(params: Params, strictness: Strictness, header: Header, parent: Header): Option<Failure>
    requires Usable(params)
  {
    var everything := strictness == CheckEverything;
    if header.number >= UNSIGNED then Some(InvalidNumber)
    else if everything && header.gasUsed > header.gasLimit then Some(TooMuchGasUsed)
    else if header.parentHash != ZERO_HASH && parent.hash != header.parentHash then Some(InvalidParentHash)
    else if header.timestamp <= parent.timestamp then Some(InvalidTimestamp)
    else if header.number != parent.number + 1 then Some(InvalidNumber)
    else if everything && header.difficulty < params.minimumDifficulty then Some(InvalidDifficulty)
    else if everything && !GasLimitInRange(params, header.gasLimit) then Some(InvalidGasLimit)
    else if everything && header.number != 0 && |header.extraData| > params.maximumExtraDataSize then Some(ExtraDataTooBig)
    else if everything && !DaoMarked(params, header) then Some(ExtraDataIncorrect)
    else if !GasLimitInRange(params, header.gasLimit) || !InWindow(params, header.gasLimit, parent.gasLimit)
    then Some(InvalidGasLimit)
    else if Difficulty(params, header.number, header.timestamp, parent) != Some(header.difficulty)
    then Some(InvalidDifficulty)
    else None
  }

  /** Which headers pass, given any parent: no check can be left out, and there is no other. The first clause is about new
    headers, the second about those that have been checked before. A header with no parent hash follows any. The difficulty has to be the one expected, and the gas limit strictly less than the parent's divided by the bound divisor
    away from it. */
  lemma PassesExactly(params: Params, h: Header, parent: Header)
    requires Usable(params) && parent.gasLimit < WORD_LIMIT / 2
    ensures Verify(params, CheckEverything, h, parent) == None <==>
      && h.number == parent.number + 1 && h.number <= 0xFFFF_FFFF
      && (h.parentHash == parent.hash || h.parentHash == ZERO_HASH)
      && h.timestamp > parent.timestamp
      && h.gasUsed <= h.gasLimit
      && params.minGasLimit <= h.gasLimit <= params.maxGasLimit
      && CloserThan(h.gasLimit, parent.gasLimit, parent.gasLimit, params.gasLimitBoundDivisor)
      && |h.extraData| <= params.maximumExtraDataSize
      && (params.daoHardforkBlock != 0 && 0 <= h.number - params.daoHardforkBlock < 10 ==>
            h.extraData == [0x64, 0x61, 0x6f, 0x2d, 0x68, 0x61, 0x72, 0x64, 0x2d, 0x66, 0x6f, 0x72, 0x6b])
      && Difficulty(params, h.number, h.timestamp, parent) == Some(h.difficulty)
      && h.difficulty >= params.minimumDifficulty
    ensures Verify(params, CheckNothingNew, h, parent) == None <==>
      && h.number == parent.number + 1 && h.number <= 0xFFFF_FFFF
      && (h.parentHash == parent.hash || h.parentHash == ZERO_HASH)
      && h.timestamp > parent.timestamp
      && params.minGasLimit <= h.gasLimit <= params.maxGasLimit
      && CloserThan(h.gasLimit, parent.gasLimit, parent.gasLimit, params.gasLimitBoundDivisor)
      && Difficulty(params, h.number, h.timestamp, parent) == Some(h.difficulty)
  {
    hide DifficultyTarget, IceAge, IceAgeNumber, InWindow, CloserThan, DaoMarked;
    CloseIsWindow(params, h.gasLimit, parent.gasLimit);
    if h.number < UNSIGNED {
      MarkedIsTen(params, h);
    }
  }

  /** The two numbers are less than this part of the third apart. */
  ghost predicate CloserThan(a: nat, b: nat, whole: nat, divisor: nat) {
    exists part: nat :: part * divisor <= whole < (part + 1) * divisor && b - part < a < b + part
  }

  lemma CloseIsWindow(params: Params, gasLimit: Word, parentGasLimit: Word)
    requires Usable(params) && parentGasLimit < WORD_LIMIT / 2
    ensures CloserThan(gasLimit, parentGasLimit, parentGasLimit, params.gasLimitBoundDivisor)
      <==> InWindow(params, gasLimit, parentGasLimit)
  {
    var d := params.gasLimitBoundDivisor;
    var q := Part(parentGasLimit, d);
    WholeParts(parentGasLimit, d, q);
    PartBounds(parentGasLimit, d);
    Wrapped(parentGasLimit - q);
    Wrapped(parentGasLimit + q);
    forall part: nat | part * d <= parentGasLimit < (part + 1) * d
      ensures part == q
    {
      WholeParts(parentGasLimit, d, part);
    }
  }

  /** Part is how many times the divisor goes into the whole. */
  lemma WholeParts(whole: nat, divisor: nat, part: nat)
    requires divisor > 0
    ensures part * divisor <= whole < (part + 1) * divisor <==> part == Part(whole, divisor)
  {
    var q := Part(whole, divisor);
    Between(whole, divisor, q, whole % divisor);
    hide Part;
    if part < q {
      TimesGrows(divisor, part + 1, q);
    } else if part > q {
      TimesGrows(divisor, q + 1, part);
    }
    Turned(divisor, part);
    Turned(divisor, part + 1);
    Turned(divisor, q);
    Turned(divisor, q + 1);
  }

  lemma Turned(a: nat, b: nat)
    ensures a * b == b * a
  {
  }

  lemma Between(whole: nat, divisor: nat, q: nat, r: nat)
    requires divisor > 0 && q == whole / divisor && r == whole % divisor
    ensures q * divisor <= whole < (q + 1) * divisor
  {
    assert whole == divisor * q + r && 0 <= r < divisor;
    assert (q + 1) * divisor == divisor * q + divisor;
  }

  lemma MarkedIsTen(params: Params, h: Header)
    requires h.number < UNSIGNED
    ensures DaoMarked(params, h) <==>
      (params.daoHardforkBlock != 0 && 0 <= h.number - params.daoHardforkBlock < 10 ==> h.extraData == DAO_EXTRA_DATA)
  {
    if params.daoHardforkBlock < UNSIGNED {
      Wrapped(params.daoHardforkBlock + 9);
    }
  }

  // ---------------------------------------------------------------- generation

  class BlockHeader {
    var hash: Hash
    var parentHash: Hash
    var hasUncles: bool
    var number: nat
    var timestamp: nat
    var difficulty: Word
    var gasLimit: Word
    var gasUsed: Word
    var extraData: Bytes

    function Value(): Header
      reads this
    {
      Header(hash, parentHash, hasUncles, number, timestamp, difficulty, gasLimit, gasUsed, extraData)
    }

    /** clear(), then the timestamp and extra data of the new block. */
    constructor (timestamp: nat, extraData: Bytes)
      ensures Value() == Header(ZERO_HASH, ZERO_HASH, false, 0, timestamp, 0, 0, 0, extraData)
    {
      hash, parentHash, hasUncles, number := ZERO_HASH, ZERO_HASH, false, 0;
      this.timestamp, difficulty, gasLimit, gasUsed, this.extraData := timestamp, 0, 0, 0, extraData;
    }

    /** BlockHeader::populateFromParent. */
    method PopulateFromParent(parent: BlockHeader)
      requires parent != this
      modifies this
      ensures Value() == old(Value()).(number := parent.number + 1, parentHash := parent.hash, gasLimit := parent.gasLimit,
                                       difficulty := parent.difficulty, gasUsed := 0)
    {
      number := parent.number + 1;
      parentHash := parent.hash;
      gasLimit := parent.gasLimit;
      difficulty := parent.difficulty;
      gasUsed := 0;
    }

    /** NoProof::populateFromParent. */
    method Populate(params: Params, parent: BlockHeader)
      requires Usable(params) && parent != this
      modifies this
      ensures Value() == Child(params, old(Value()), parent.Value())
    {
      PopulateFromParent(parent);
      difficulty := Difficulty(params, number, timestamp, parent.Value()).value;
      gasLimit := GasLimit(params, gasLimit, gasUsed);
    }
  }

  /** The header made from its parent; hash, timestamp, uncles and extra data are its own. */
  function Child(params: Params, own: Header, parent: Header): Header
    requires Usable(params)
  {
    own.(number := parent.number + 1, parentHash := parent.hash, gasUsed := 0,
         difficulty := Difficulty(params, parent.number + 1, own.timestamp, parent).value,
         gasLimit := GasLimit(params, parent.gasLimit, 0))
  }

  // ---------------------------------------------------------------- agreement

  /** Parameters under which a chain can go on: the gas floor is allowed and is no less than the bound divisor, and the
    sums fit a word. */
  ghost predicate Legal(params: Params) {
    && Usable(params)
    && GasLimitInRange(params, GAS_FLOOR_TARGET) && params.gasLimitBoundDivisor <= GAS_FLOOR_TARGET
    && params.maxGasLimit < WORD_LIMIT / 2
  }

  /** The window around a parent's gas limit holds the one computed for the child, or any at all, if and only if the
    parent's is no less than the bound divisor. */
  lemma GasLimitAgrees(params: Params, parentGasLimit: Word)
    requires Legal(params) && GasLimitInRange(params, parentGasLimit)
    ensures var gasLimit := GasLimit(params, parentGasLimit, 0);
      && (InWindow(params, gasLimit, parentGasLimit) <==> parentGasLimit >= params.gasLimitBoundDivisor)
      && (parentGasLimit >= params.gasLimitBoundDivisor ==>
          GasLimitInRange(params, gasLimit) && gasLimit >= params.gasLimitBoundDivisor)
    ensures parentGasLimit < params.gasLimitBoundDivisor ==> forall other: Word :: !InWindow(params, other, parentGasLimit)
  {
    hide Part, Wrap;
    var d := params.gasLimitBoundDivisor;
    var q := Part(parentGasLimit, d);
    PartBounds(parentGasLimit, d);
    PartBounds(0, d);
    Wrapped(0);
    Wrapped(parentGasLimit - q);
    Wrapped(parentGasLimit + q);
    Wrapped(parentGasLimit + q - 1);
    Wrapped(parentGasLimit - q + 1);
    assert Part(Wrap(0 * 6) / 5, d) == 0;
  }

  lemma Wrapped(a: int)
    ensures 0 <= a < WORD_LIMIT ==> Wrap(a) == a
  {
  }

  lemma PartBounds(gas: nat, divisor: nat)
    requires divisor > 0
    ensures Part(gas, divisor) <= gas && (Part(gas, divisor) >= 1 <==> gas >= divisor)
  {
    var q := gas / divisor;
    VmWords.QuotientBound(gas, divisor);
    VmWords.MultipleAway(divisor, q);
    assert q == 0 ==> divisor * q == 0;
  }

  /** Which headers made from a parent, and filled with what has been run, pass every check: exactly those with a later
    timestamp, room for the number, a parent with enough gas, no more gas used than the limit, extra data of legal size
    and the mark of the fork where it is due. */
  lemma ChildVerifies(params: Params, own: Header, parent: Header, gasUsed: Word)
    requires Legal(params) && GasLimitInRange(params, parent.gasLimit)
    ensures var child := Child(params, own, parent).(gasUsed := gasUsed);
      Verify(params, CheckEverything, child, parent) == None <==>
        && parent.number + 1 < UNSIGNED && own.timestamp > parent.timestamp
        && parent.gasLimit >= params.gasLimitBoundDivisor && gasUsed <= child.gasLimit
        && |own.extraData| <= params.maximumExtraDataSize && DaoMarked(params, child)
  {
    hide DifficultyTarget, IceAge, IceAgeNumber, GasLimit, InWindow;
    GasLimitAgrees(params, parent.gasLimit);
  }

  /** A header made from its parent, in full: the number is the next one, difficulty and gas limit are computed with no gas
    used yet, and time, extra data and what belongs to the block itself are kept. */
  lemma ChildInFull(params: Params, own: Header, parent: Header)
    requires Usable(params)
    ensures var child := Child(params, own, parent);
      && child.number == parent.number + 1 && child.parentHash == parent.hash && child.gasUsed == 0
      && Difficulty(params, parent.number + 1, own.timestamp, parent) == Some(child.difficulty)
      && child.gasLimit == GasLimit(params, parent.gasLimit, 0)
      && child.timestamp == own.timestamp && child.extraData == own.extraData
      && child.hasUncles == own.hasUncles && child.hash == own.hash
  {
    hide GasLimit, DifficultyTarget, IceAge, IceAgeNumber;
  }

  /** From the same parent, a block that took longer is never more difficult. */
  lemma LaterIsEasier(params: Params, number: nat, earlier: nat, later: nat, parent: Header)
    requires Usable(params) && number > 0 && parent.difficulty < WORD_LIMIT / 2
    requires parent.timestamp <= earlier <= later
    ensures Difficulty(params, number, later, parent).value <= Difficulty(params, number, earlier, parent).value
  {
    hide IceAge, IceAgeNumber, DifficultyTarget;
    TargetFalls(params, number, earlier, later, parent);
  }

  lemma TargetFalls(params: Params, number: nat, earlier: nat, later: nat, parent: Header)
    requires Usable(params) && parent.difficulty < WORD_LIMIT / 2 && parent.timestamp <= earlier <= later
    ensures DifficultyTarget(params, number, later, parent) <= DifficultyTarget(params, number, earlier, parent)
  {
    if number < params.homesteadForkBlock {
      hide Wrap, Part;
      PartBounds(parent.difficulty, params.difficultyBoundDivisor);
      Wrapped(parent.difficulty + Part(parent.difficulty, params.difficultyBoundDivisor));
    } else {
      FactorFalls(params, number, earlier, later, parent);
      var slow, fast := Factor(params, number, later, parent), Factor(params, number, earlier, parent);
      hide Factor;
      TimesGrows(parent.difficulty / 2048, slow, fast);
    }
  }

  lemma FactorFalls(params: Params, number: nat, earlier: nat, later: nat, parent: Header)
    requires parent.timestamp <= earlier <= later
    ensures Factor(params, number, later, parent) <= Factor(params, number, earlier, parent)
  {
  }

  lemma TimesGrows(a: nat, x: int, y: int)
    requires x <= y
    ensures a * x <= a * y
  {
    assert a * y == a * x + a * (y - x);
    VmWords.MulNatural(a, y - x);
  }

  /** Since Homestead a block differs from its parent by at most two 2048ths upwards and 99 downwards, besides the increase
    over time and the floor. */
  lemma DifficultyStep(params: Params, number: nat, timestamp: nat, parent: Header)
    requires Usable(params) && params.homesteadForkBlock <= number && parent.timestamp < timestamp
    ensures var part, target := parent.difficulty / 2048, DifficultyTarget(params, number, timestamp, parent);
      parent.difficulty - 99 * part <= target <= parent.difficulty + 2 * part
  {
    var part, factor := parent.difficulty / 2048, Factor(params, number, timestamp, parent);
    assert part * factor + part * (2 - factor) == 2 * part && part * (factor + 99) == part * factor + 99 * part;
    VmWords.MulNatural(part, 2 - factor);
    VmWords.MulNatural(part, factor + 99);
  }

  /** A chain of headers, each made from the one before. */
  function Chain(params: Params, genesis: Header, owns: seq<Header>): (chain: seq<Header>)
    requires Usable(params)
    ensures |chain| == |owns| + 1 && chain[0] == genesis
  {
    if owns == [] then [genesis]
    else
      var front := Chain(params, genesis, owns[..|owns| - 1]);
      front + [Child(params, owns[|owns| - 1], front[|front| - 1])]
  }

  function TimeBefore(genesis: Header, owns: seq<Header>, j: nat): nat
    requires j < |owns|
  {
    if j == 0 then genesis.timestamp else owns[j - 1].timestamp
  }

  /** What each header brings along: a later timestamp than the one before, and extra data that may stand. */
  ghost predicate Timely(params: Params, genesis: Header, owns: seq<Header>) {
    forall j :: 0 <= j < |owns| ==>
      && owns[j].timestamp > TimeBefore(genesis, owns, j)
      && |owns[j].extraData| <= params.maximumExtraDataSize
      && DaoMarked(params, owns[j].(number := genesis.number + j + 1))
  }

  lemma TimelyPrefix(params: Params, genesis: Header, owns: seq<Header>, n: nat)
    requires Timely(params, genesis, owns) && n <= |owns|
    ensures Timely(params, genesis, owns[..n])
  {
    hide DaoMarked;
    forall j | 0 <= j < n
      ensures TimeBefore(genesis, owns[..n], j) == TimeBefore(genesis, owns, j)
    {
    }
  }

  /** The difficulty in numbers. It moves by 2048ths of the parent's: since Byzantium one up, or two if the parent has uncles,
    less one for every nine seconds the block took, and before that one up less one for every ten; but never by more than
    99 down. Every 100000 blocks, of which EIP-649 leaves out three and EIP-1234 five million, what is added on top
    doubles. The outcome is no less than the minimum. */
  lemma DifficultyExact(params: Params, number: nat, timestamp: nat, parent: Header, steps: nat, periods: nat)
    requires Usable(params) && 0 < number && params.homesteadForkBlock <= number && parent.timestamp < timestamp
    requires parent.number < 0xFFFF_FFFF
    requires var pace := if number < params.byzantiumForkBlock then 10 else 9;
      steps * pace <= timestamp - parent.timestamp < (steps + 1) * pace
    requires var left := if number >= params.constantinopleForkBlock then 5_000_000
                         else if number >= params.byzantiumForkBlock then 3_000_000 else 0;
      var n := if parent.number + 1 < left then 0 else parent.number + 1 - left;
      periods * 100_000 <= n < (periods + 1) * 100_000
    ensures var up := (if number < params.byzantiumForkBlock || !parent.hasUncles then 1 else 2) - steps;
      var target := parent.difficulty + parent.difficulty / 2048 * (if up < -99 then -99 else up)
        + (if periods >= 2 then VmWords.Power(2, periods - 2) else 0);
      Difficulty(params, number, timestamp, parent)
        == Some(if target >= WORD_LIMIT then WORD_LIMIT - 1
                else if target < params.minimumDifficulty then params.minimumDifficulty else target)
  {
    hide VmWords.Power, Factor, IceAgeNumber;
    FactorExact(params, number, timestamp, parent, steps);
    PeriodsExact(params, number, parent.number, periods);
  }

  lemma FactorExact(params: Params, number: nat, timestamp: nat, parent: Header, steps: nat)
    requires parent.timestamp < timestamp
    requires var pace := if number < params.byzantiumForkBlock then 10 else 9;
      steps * pace <= timestamp - parent.timestamp < (steps + 1) * pace
    ensures var up := (if number < params.byzantiumForkBlock || !parent.hasUncles then 1 else 2) - steps;
      Factor(params, number, timestamp, parent) == if up < -99 then -99 else up
  {
    StepsOf(timestamp - parent.timestamp, if number < params.byzantiumForkBlock then 10 else 9, steps);
  }

  lemma PeriodsExact(params: Params, number: nat, parentNumber: nat, periods: nat)
    requires parentNumber < 0xFFFF_FFFF
    requires var left := if number >= params.constantinopleForkBlock then 5_000_000
                         else if number >= params.byzantiumForkBlock then 3_000_000 else 0;
      var n := if parentNumber + 1 < left then 0 else parentNumber + 1 - left;
      periods * 100_000 <= n < (periods + 1) * 100_000
    ensures IceAgeNumber(params, number, parentNumber) / EXP_DIFF_PERIOD == periods
  {
  }

  lemma StepsOf(time: nat, pace: nat, steps: nat)
    requires 9 <= pace <= 10 && steps * pace <= time < (steps + 1) * pace
    ensures time / pace == steps
  {
    if pace == 9 {
      assert steps * 9 <= time < steps * 9 + 9;
    } else {
      assert steps * 10 <= time < steps * 10 + 10;
    }
  }

  /** Before Homestead it is one part of the parent's difficulty more or less, less from the duration limit on. */
  lemma FrontierExact(params: Params, number: nat, timestamp: nat, parent: Header, part: nat)
    requires Usable(params) && 0 < number < params.homesteadForkBlock && parent.timestamp < timestamp
    requires parent.timestamp + params.durationLimit < WORD_LIMIT && parent.difficulty < WORD_LIMIT / 2
    requires part * params.difficultyBoundDivisor <= parent.difficulty < (part + 1) * params.difficultyBoundDivisor
    ensures DifficultyTarget(params, number, timestamp, parent)
      == if timestamp - parent.timestamp >= params.durationLimit then parent.difficulty - part else parent.difficulty + part
  {
    hide Part;
    WholeParts(parent.difficulty, params.difficultyBoundDivisor, part);
    PartBounds(parent.difficulty, params.difficultyBoundDivisor);
    Wrapped(parent.timestamp + params.durationLimit);
    Wrapped(parent.difficulty + part);
  }

  /** The gas limit in numbers: one less than a part of the parent's limit up to the floor, but not above it, or down to
    it, but not below. What was used holds it up by a part of six fifths of the gas. */
  lemma GasLimitExact(params: Params, gasLimit: Word, gasUsed: Word, part: nat, used: nat, usedPart: nat)
    requires Usable(params) && 0 < gasLimit < WORD_LIMIT / 4 && gasUsed < WORD_LIMIT / 16
    requires part * params.gasLimitBoundDivisor <= gasLimit < (part + 1) * params.gasLimitBoundDivisor
    requires 5 * used <= 6 * gasUsed < 5 * (used + 1)
    requires usedPart * params.gasLimitBoundDivisor <= used < (usedPart + 1) * params.gasLimitBoundDivisor
    ensures var up, down := gasLimit + part - 1, gasLimit - part + 1 + usedPart;
      GasLimit(params, gasLimit, gasUsed) ==
        if gasLimit < 3_141_562 then (if up < 3_141_562 then up else 3_141_562)
        else (if down < 3_141_562 then 3_141_562 else down)
  {
    hide Part;
    var d := params.gasLimitBoundDivisor;
    WholeParts(gasLimit, d, part);
    PartBounds(gasLimit, d);
    Wrapped(gasUsed * 6);
    assert gasUsed * 6 / 5 == used;
    WholeParts(used, d, usedPart);
    PartBounds(used, d);
    Wrapped(gasLimit + part - 1);
    Wrapped(gasLimit - part + 1 + usedPart);
  }

  /** Along a whole chain with increasing timestamps every header passes every check, if the genesis gas limit is no less
    than the bound divisor. */
  lemma {:induction false} ChainVerifies(params: Params, genesis: Header, owns: seq<Header>, i: nat)
    requires Legal(params) && GasLimitInRange(params, genesis.gasLimit) && params.gasLimitBoundDivisor <= genesis.gasLimit
    requires Timely(params, genesis, owns) && i < |owns| && genesis.number + |owns| < UNSIGNED
    ensures var chain := Chain(params, genesis, owns);
      && Verify(params, CheckEverything, chain[i + 1], chain[i]) == None
      && chain[i + 1].number == genesis.number + i + 1 && chain[i + 1].timestamp == owns[i].timestamp
      && GasLimitInRange(params, chain[i + 1].gasLimit) && chain[i + 1].gasLimit >= params.gasLimitBoundDivisor
    decreases |owns|, i
  {
    hide Verify, DaoMarked, Child, Timely, GasLimitInRange;
    var last := |owns| - 1;
    TimelyPrefix(params, genesis, owns, last);
    if i < last {
      ChainVerifies(params, genesis, owns[..last], i);
    } else {
      if i > 0 {
        ChainVerifies(params, genesis, owns[..last], i - 1);
      }
      NextVerifies(params, genesis, owns, i, Chain(params, genesis, owns[..last])[i]);
    }
  }

  lemma NextVerifies(params: Params, genesis: Header, owns: seq<Header>, i: nat, parent: Header)
    requires Legal(params) && Timely(params, genesis, owns) && i < |owns| && genesis.number + |owns| < UNSIGNED
    requires parent.number == genesis.number + i && parent.timestamp == TimeBefore(genesis, owns, i)
    requires GasLimitInRange(params, parent.gasLimit) && params.gasLimitBoundDivisor <= parent.gasLimit
    ensures var child := Child(params, owns[i], parent);
      && Verify(params, CheckEverything, child, parent) == None
      && child.number == genesis.number + i + 1 && child.timestamp == owns[i].timestamp
      && GasLimitInRange(params, child.gasLimit) && child.gasLimit >= params.gasLimitBoundDivisor
  {
    hide Verify, DaoMarked, GasLimit, Difficulty;
    GasLimitAgrees(params, parent.gasLimit);
    ChildVerifies(params, owns[i], parent, 0);
    SameMark(params, owns[i].(number := genesis.number + i + 1), Child(params, owns[i], parent));
  }

  lemma SameMark(params: Params, a: Header, b: Header)
    requires a.number == b.number && a.extraData == b.extraData
    ensures DaoMarked(params, a) == DaoMarked(params, b)
  {
  }
}
