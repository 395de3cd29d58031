/** Which uncles a proposer puts into a block, and which a validator lets in
  (libethereum/Block.cpp:543-633, 745-773; libethereum/BlockChain.cpp:1389-1403; libethcore/BlockHeader.cpp:223-247). */
module Uncles {
  import opened Bytes

  const UNSIGNED := 0x1_0000_0000
  const KIN_GENERATIONS := 6
  const MAX_UNCLES := 2

  /** What the chain knows of a block: from its header, its children, and the uncles it cites. */
  datatype Known = Known(parent: Hash, number: nat, timestamp: nat, children: seq<Hash>, uncles: seq<Hash>)

  /** All known blocks by hash. */
  datatype Tree = Tree(blocks: map<Hash, Known>, genesis: Hash)

  /** Every block but the genesis block has been checked against its parent, and children are noted with their parent. */
  ghost predicate TreeOk(t: Tree) {
    && t.genesis in t.blocks && t.blocks[t.genesis].number == 0 && t.blocks[t.genesis].parent !in t.blocks
    && ZERO_HASH !in t.blocks
    && (forall h :: h in t.blocks && h != t.genesis ==>
          var b := t.blocks[h];
          && b.parent in t.blocks && h in t.blocks[b.parent].children && b.number < UNSIGNED
          && b.number == t.blocks[b.parent].number + 1 && b.timestamp > t.blocks[b.parent].timestamp)
    && (forall h, c :: h in t.blocks && c in t.blocks[h].children ==>
          c in t.blocks && c != t.genesis && t.blocks[c].parent == h)
  }

  lemma ParentFacts(t: Tree, h: Hash)
    requires TreeOk(t) && h in t.blocks && h != t.genesis
    ensures var b := t.blocks[h];
      && b.parent in t.blocks && h in t.blocks[b.parent].children && b.number < UNSIGNED
      && b.number == t.blocks[b.parent].number + 1 && b.timestamp > t.blocks[b.parent].timestamp
  {
  }

  lemma ChildFacts(t: Tree, h: Hash, c: Hash)
    requires TreeOk(t) && h in t.blocks && c in t.blocks[h].children
    ensures c in t.blocks && c != t.genesis && t.blocks[c].parent == h
  {
  }

  lemma GenesisFacts(t: Tree)
    requires TreeOk(t)
    ensures t.genesis in t.blocks && t.blocks[t.genesis].number == 0 && t.blocks[t.genesis].parent !in t.blocks
    ensures ZERO_HASH !in t.blocks
  {
  }

  /** details(h).parent; an unknown block has none. */
  function ParentOf(t: Tree, h: Hash): Hash {
    if h in t.blocks then t.blocks[h].parent else ZERO_HASH
  }

  /** The ancestor so many generations up. */
  function Up(t: Tree, h: Hash, generations: nat): Hash {
    if generations == 0 then h else ParentOf(t, Up(t, h, generations - 1))
  }

  // ---------------------------------------------------------------- kin

  function Cited(uncles: seq<Hash>): set<Hash> {
    set u | u in uncles
  }

  ghost function KinAbove(t: Tree, p: Hash, generations: nat): set<Hash>
    decreases generations
  {
    if generations == 0 || p == t.genesis || p !in t.blocks then {}
    else {t.blocks[p].parent} + Cited(t.blocks[p].uncles) + KinAbove(t, t.blocks[p].parent, generations - 1)
  }

  /** A block, its ancestors, and the uncles cited on the way up. */
  ghost function Kin(t: Tree, p: Hash): set<Hash> {
    {p} + KinAbove(t, p, KIN_GENERATIONS)
  }

  /** The chain reaches so many generations up from p without coming to the genesis block, and there h is the next ancestor
    or a cited uncle. */
  ghost predicate KinAt(t: Tree, p: Hash, d: nat, h: Hash) {
    && Up(t, p, d) in t.blocks && Up(t, p, d) != t.genesis
    && (h == Up(t, p, d + 1) || h in t.blocks[Up(t, p, d)].uncles)
  }

  /** What is kin to the block after p: p, the ancestors of p up to the sixth, and what p and its ancestors up to the fifth
    cite, as far as there are any. */
  ghost predicate KinOf(t: Tree, p: Hash, h: Hash) {
    h == p || exists d: nat :: d < 6 && KinAt(t, p, d, h)
  }

  lemma {:induction false} UpFrom(t: Tree, p: Hash, d: nat)
    ensures Up(t, p, d + 1) == Up(t, ParentOf(t, p), d)
  {
    if d > 0 {
      UpFrom(t, p, d - 1);
    }
  }

  lemma KinFrom(t: Tree, p: Hash, d: nat, h: Hash)
    ensures KinAt(t, p, d + 1, h) <==> KinAt(t, ParentOf(t, p), d, h)
  {
    UpFrom(t, p, d);
    UpFrom(t, p, d + 1);
  }

  lemma {:induction false} KinAboveExact(t: Tree, p: Hash, generations: nat, h: Hash)
    requires TreeOk(t) && p in t.blocks
    ensures h in KinAbove(t, p, generations) <==> exists d: nat :: d < generations && KinAt(t, p, d, h)
    decreases generations
  {
    hide TreeOk, KinAt;
    if generations > 0 && p != t.genesis {
      ParentFacts(t, p);
      var q := t.blocks[p].parent;
      KinAboveExact(t, q, generations - 1, h);
      FirstKin(t, p, h);
      if d: nat :| d < generations - 1 && KinAt(t, q, d, h) {
        KinFrom(t, p, d, h);
      }
      if d: nat :| 0 < d < generations && KinAt(t, p, d, h) {
        KinFrom(t, p, d - 1, h);
      }
    } else if generations > 0 {
      NoKinAbove(t, h);
    }
  }

  lemma FirstKin(t: Tree, p: Hash, h: Hash)
    requires p in t.blocks && p != t.genesis
    ensures KinAt(t, p, 0, h) <==> h == t.blocks[p].parent || h in t.blocks[p].uncles
  {
    assert Up(t, p, 1) == ParentOf(t, Up(t, p, 0));
  }

  lemma NoKinAbove(t: Tree, h: Hash)
    requires TreeOk(t)
    ensures forall d: nat :: !KinAt(t, t.genesis, d, h)
  {
    hide TreeOk;
    forall d: nat
      ensures !KinAt(t, t.genesis, d, h)
    {
      BeyondGenesis(t, t.genesis, 0, d);
    }
  }

  lemma KinExact(t: Tree, p: Hash, h: Hash)
    requires TreeOk(t) && p in t.blocks
    ensures h in Kin(t, p) <==> KinOf(t, p, h)
  {
    hide TreeOk, KinAt, KinAbove;
    KinAboveExact(t, p, KIN_GENERATIONS, h);
  }

  /** allKinFrom. */
  method AllKinFrom(t: Tree, parent: Hash) returns (ret: set<Hash>)
    requires TreeOk(t) && parent in t.blocks
    ensures ret == Kin(t, parent)
    ensures forall h :: h in ret <==> KinOf(t, parent, h)
  {
    hide TreeOk, KinOf;
    forall h: Hash
      ensures h in Kin(t, parent) <==> KinOf(t, parent, h)
    {
      KinExact(t, parent, h);
    }
    var p := parent;
    ret := {p};
    var i := 0;
    while i < KIN_GENERATIONS && p != t.genesis
      invariant i <= KIN_GENERATIONS && p in t.blocks
      invariant ret + KinAbove(t, p, KIN_GENERATIONS - i) == Kin(t, parent)
    {
      ParentFacts(t, p);
      ret := ret + {t.blocks[p].parent};
      var cited := t.blocks[p].uncles;
      ghost var before := ret;
      for k := 0 to |cited|
        invariant ret == before + Cited(cited[..k])
      {
        assert Cited(cited[..k + 1]) == Cited(cited[..k]) + {cited[k]};
        ret := ret + {cited[k]};
      }
      assert cited[..|cited|] == cited;
      p := t.blocks[p].parent;
      i := i + 1;
    }
  }

  // ---------------------------------------------------------------- what a validator lets in

  datatype Header = Header(hash: Hash, parent: Hash, number: nat, timestamp: nat)

  datatype Failure =
    | TooManyUncles | UncleInChain | UnknownParent | UncleTooOld | UncleIsBrother | UncleParentNotInChain
    | InvalidNumber | InvalidTimestamp

  /** How an uncle is related: the generations between it and the block that cites it, and its parent up the chain. */
  ghost predicate Related(t: Tree, previous: Hash, number: nat, uncle: Header) {
    && uncle.parent in t.blocks
    && 1 <= number - uncle.number <= KIN_GENERATIONS
    && uncle.parent == Up(t, previous, number - uncle.number)
  }

  /** BlockHeader::verify against its parent, without new checks. */
  predicate Follows(t: Tree, uncle: Header)
    requires uncle.parent in t.blocks
  {
    && uncle.number < UNSIGNED && uncle.timestamp > t.blocks[uncle.parent].timestamp
    && uncle.number == t.blocks[uncle.parent].number + 1
  }

  ghost predicate AcceptableUncle(t: Tree, previous: Hash, number: nat, uncle: Header) {
    uncle.hash !in Kin(t, previous) && Related(t, previous, number, uncle) && Follows(t, uncle)
  }

  /** The rule for all uncles of a block: at most two, each acceptable, none twice, none the block itself. */
  ghost predicate Acceptable(t: Tree, previous: Hash, number: nat, current: Hash, uncles: seq<Header>) {
    && |uncles| <= MAX_UNCLES
    && (forall i :: 0 <= i < |uncles| ==> uncles[i].hash != current && AcceptableUncle(t, previous, number, uncles[i]))
    && (forall i, j :: 0 <= i < j < |uncles| ==> uncles[i].hash != uncles[j].hash)
  }

  /** What the rule asks of each uncle, in full: it is no kin and not the block itself; its parent is a known ancestor of the
    block, from one to six generations further up than the block before; it follows its parent in number and time; and no
    two are the same. */
  lemma AcceptableExactly(t: Tree, previous: Hash, number: nat, current: Hash, uncles: seq<Header>)
    requires TreeOk(t) && previous in t.blocks
    ensures Acceptable(t, previous, number, current, uncles) <==>
      && |uncles| <= 2
      && (forall i :: 0 <= i < |uncles| ==>
            && uncles[i].hash != current && !KinOf(t, previous, uncles[i].hash)
            && 1 <= number - uncles[i].number <= 6
            && uncles[i].parent in t.blocks && uncles[i].parent == Up(t, previous, number - uncles[i].number)
            && uncles[i].number == t.blocks[uncles[i].parent].number + 1 && uncles[i].number <= 0xFFFF_FFFF
            && uncles[i].timestamp > t.blocks[uncles[i].parent].timestamp)
      && (forall i, j :: 0 <= i < j < |uncles| ==> uncles[i].hash != uncles[j].hash)
  {
    hide TreeOk, Up, KinOf, Kin;
    forall i | 0 <= i < |uncles|
      ensures uncles[i].hash in Kin(t, previous) <==> KinOf(t, previous, uncles[i].hash)
    {
      KinExact(t, previous, uncles[i].hash);
    }
  }

  /** The uncle checks of enact. */
  method CheckUncles(t: Tree, previous: Hash, number: nat, current: Hash, uncles: seq<Header>)
    returns (failure: Option<Failure>)
    requires TreeOk(t) && previous in t.blocks
    ensures failure == None <==> Acceptable(t, previous, number, current, uncles)
  {
    hide Kin, Follows, TreeOk, Up;
    if |uncles| > MAX_UNCLES {
      return Some(TooManyUncles);
    }
    var excluded := AllKinFrom(t, previous);
    excluded := excluded + {current};
    for i := 0 to |uncles|
      invariant excluded == Kin(t, previous) + {current} + (set k | 0 <= k < i :: uncles[k].hash)
      invariant Acceptable(t, previous, number, current, uncles[..i])
    {
      var uncle := uncles[i];
      if uncle.hash in excluded {
        return Some(UncleInChain);
      }
      excluded := excluded + {uncle.hash};
      failure := CheckUncle(t, previous, number, uncle);
      OneMore(t, previous, number, current, uncles, i);
      if failure.Some? {
        return;
      }
    }
    assert uncles[..|uncles|] == uncles;
    failure := None;
  }

  /** The rule for one more uncle. */
  lemma OneMore(t: Tree, previous: Hash, number: nat, current: Hash, uncles: seq<Header>, i: nat)
    requires i < |uncles| <= MAX_UNCLES && Acceptable(t, previous, number, current, uncles[..i])
    ensures Acceptable(t, previous, number, current, uncles[..i + 1]) <==>
      && uncles[i].hash != current && AcceptableUncle(t, previous, number, uncles[i])
      && forall k :: 0 <= k < i ==> uncles[k].hash != uncles[i].hash
    ensures Acceptable(t, previous, number, current, uncles) ==> Acceptable(t, previous, number, current, uncles[..i + 1])
  {
    hide AcceptableUncle;
    var more := uncles[..i + 1];
    assert forall k :: 0 <= k < i ==> more[k] == uncles[..i][k];
    assert more[i] == uncles[i];
  }

  method CheckUncle(t: Tree, previous: Hash, number: nat, uncle: Header) returns (failure: Option<Failure>)
    requires TreeOk(t) && previous in t.blocks
    ensures failure == None <==> Related(t, previous, number, uncle) && (uncle.parent in t.blocks ==> Follows(t, uncle))
  {
    hide TreeOk;
    if uncle.parent !in t.blocks {
      return Some(UnknownParent);
    }
    var depth := number - uncle.number;
    if depth > 6 {
      return Some(UncleTooOld);
    } else if depth < 1 {
      return Some(UncleIsBrother);
    }
    var expectedUncleParent := t.blocks[previous].parent;
    var i := 1;
    while i < depth
      invariant 1 <= i <= depth && expectedUncleParent == Up(t, previous, i)
    {
      expectedUncleParent := ParentOf(t, expectedUncleParent);
      i := i + 1;
    }
    if expectedUncleParent != uncle.parent {
      return Some(UncleParentNotInChain);
    }
    if uncle.number >= UNSIGNED {
      return Some(InvalidNumber);
    }
    if uncle.timestamp <= t.blocks[uncle.parent].timestamp {
      return Some(InvalidTimestamp);
    }
    if uncle.number != t.blocks[uncle.parent].number + 1 {
      return Some(InvalidNumber);
    }
    failure := None;
  }

  // ---------------------------------------------------------------- what a proposer puts in

  /** info(h). */
  function HeaderOf(t: Tree, h: Hash): Header
    requires h in t.blocks
  {
    Header(h, t.blocks[h].parent, t.blocks[h].number, t.blocks[h].timestamp)
  }

  ghost predicate AllKnown(t: Tree, hashes: seq<Hash>) {
    forall i :: 0 <= i < |hashes| ==> hashes[i] in t.blocks
  }

  function Headers(t: Tree, hashes: seq<Hash>): (headers: seq<Header>)
    requires AllKnown(t, hashes)
    ensures |headers| == |hashes| && forall i :: 0 <= i < |hashes| ==> headers[i] == HeaderOf(t, hashes[i])
  {
    seq(|hashes|, i requires 0 <= i < |hashes| && AllKnown(t, hashes) => HeaderOf(t, hashes[i]))
  }

  /** A choice of uncles for the block after `previous`. */
  ghost predicate Chosen(t: Tree, previous: Hash, selected: seq<Hash>)
    requires previous in t.blocks
  {
    && AllKnown(t, selected) && |selected| <= MAX_UNCLES
    && (forall i :: 0 <= i < |selected| ==>
          && AcceptableUncle(t, previous, t.blocks[previous].number + 1, HeaderOf(t, selected[i]))
          && t.blocks[selected[i]].parent != t.genesis)
    && (forall i, j :: 0 <= i < j < |selected| ==> selected[i] != selected[j])
  }

  /** A known block that a validator would accept. */
  ghost predicate Candidate(t: Tree, previous: Hash, u: Hash)
    requires previous in t.blocks
  {
    u in t.blocks && AcceptableUncle(t, previous, t.blocks[previous].number + 1, HeaderOf(t, u))
  }

  /** A known block that a validator would accept but that is not selected. */
  ghost predicate MissedBy(t: Tree, previous: Hash, selected: seq<Hash>, u: Hash)
    requires previous in t.blocks
  {
    Candidate(t, previous, u) && u !in selected
  }

  /** Everything up to a generation has been looked through. */
  ghost predicate LookedThrough(t: Tree, previous: Hash, generations: nat, excluded: set<Hash>) {
    forall d, c :: 1 <= d <= generations && Up(t, previous, d) in t.blocks && c in t.blocks[Up(t, previous, d)].children ==>
      c in excluded
  }

  /** Whatever is passed over, other than children of the genesis block, is no younger than what is selected. */
  ghost predicate YoungFirst(t: Tree, previous: Hash, selected: seq<Hash>)
    requires previous in t.blocks
  {
    forall u, s :: Candidate(t, previous, u) && u !in selected && t.blocks[u].parent != t.genesis && s in selected ==>
      s in t.blocks && t.blocks[u].number <= t.blocks[s].number
  }

  ghost predicate NoneBelow(t: Tree, selected: seq<Hash>, number: int) {
    forall s :: s in selected ==> s in t.blocks && t.blocks[s].number >= number
  }

  lemma CandidateKnown(t: Tree, previous: Hash, gen: nat, known: set<Hash>, u: Hash)
    requires TreeOk(t) && previous in t.blocks && Candidate(t, previous, u) && LookedThrough(t, previous, gen, known)
    requires t.blocks[u].number > t.blocks[previous].number - gen
    ensures u in known
  {
    hide TreeOk, Kin, Up;
    GenesisFacts(t);
    ParentFacts(t, u);
  }

  lemma SettledYoung(t: Tree, previous: Hash, gen: nat, before: seq<Hash>, known: set<Hash>, selected: seq<Hash>)
    requires TreeOk(t) && previous in t.blocks
    requires known == Kin(t, previous) + Cited(before) && LookedThrough(t, previous, gen, known)
    requires Cited(before) <= Cited(selected) && NoneBelow(t, selected, t.blocks[previous].number - gen)
    ensures YoungFirst(t, previous, selected)
  {
    hide TreeOk, Kin, Up;
    forall u | Candidate(t, previous, u) && u !in selected && t.blocks[u].parent != t.genesis
      ensures t.blocks[u].number <= t.blocks[previous].number - gen
    {
      if t.blocks[u].number > t.blocks[previous].number - gen {
        CandidateKnown(t, previous, gen, known, u);
      }
    }
  }

  /** The uncle selection of commitToSeal. Whatever it selects a validator accepts, in any block tree. No child of the
    genesis block is selected, and when the selection stops short of two, those are exactly the acceptable uncles that
    are left out. */
  method SelectUncles(t: Tree, previous: Hash) returns (selected: seq<Hash>)
    requires TreeOk(t) && previous in t.blocks
    ensures AllKnown(t, selected) && |selected| <= MAX_UNCLES
    ensures forall current :: current !in t.blocks ==>
      Acceptable(t, previous, t.blocks[previous].number + 1, current, Headers(t, selected))
    ensures forall i :: 0 <= i < |selected| ==> t.blocks[selected[i]].parent != t.genesis
    ensures YoungFirst(t, previous, selected)
    ensures |selected| < MAX_UNCLES ==>
      forall u :: Candidate(t, previous, u) ==> (u !in selected <==> t.blocks[u].parent == t.genesis)
  {
    hide Kin, AcceptableUncle, TreeOk, LookedThrough, Candidate;
    selected := [];
    GenesisFacts(t);
    if t.blocks[previous].number != 0 {
      ParentFacts(t, previous);
      var excluded := AllKinFrom(t, previous);
      var p := t.blocks[previous].parent;
      var gen := 0;
      NothingLookedAt(t, previous, excluded);
      while gen < KIN_GENERATIONS && p != t.genesis && |selected| < MAX_UNCLES
        invariant gen <= KIN_GENERATIONS && p == Up(t, previous, gen + 1) && p in t.blocks
        invariant t.blocks[p].number + gen + 1 == t.blocks[previous].number
        invariant Chosen(t, previous, selected) && NoneBelow(t, selected, t.blocks[previous].number - gen + 1)
        invariant |selected| == MAX_UNCLES ==> YoungFirst(t, previous, selected)
        invariant |selected| < MAX_UNCLES ==>
          excluded == Kin(t, previous) + Cited(selected) && LookedThrough(t, previous, gen, excluded)
      {
        ParentFacts(t, p);
        selected, excluded := SelectFrom(t, previous, p, gen, selected, excluded);
        p := t.blocks[p].parent;
        gen := gen + 1;
      }
      AllSelected(t, previous, gen, selected, excluded);
    } else {
      NoneAtStart(t, previous);
    }
    ChosenAccepted(t, previous, selected);
  }

  /** Looks through the children of one ancestor. */
  method SelectFrom(t: Tree, previous: Hash, p: Hash, gen: nat, before: seq<Hash>, known: set<Hash>)
    returns (selected: seq<Hash>, excluded: set<Hash>)
    requires TreeOk(t) && previous in t.blocks && gen < KIN_GENERATIONS
    requires p == Up(t, previous, gen + 1) && p in t.blocks && t.blocks[p].number + gen + 1 == t.blocks[previous].number
    requires p != t.genesis
    requires Chosen(t, previous, before) && |before| < MAX_UNCLES
    requires known == Kin(t, previous) + Cited(before) && LookedThrough(t, previous, gen, known)
    requires NoneBelow(t, before, t.blocks[previous].number - gen + 1)
    ensures Chosen(t, previous, selected) && NoneBelow(t, selected, t.blocks[previous].number - gen)
    ensures |selected| == MAX_UNCLES ==> YoungFirst(t, previous, selected)
    ensures |selected| < MAX_UNCLES ==>
      excluded == Kin(t, previous) + Cited(selected) && LookedThrough(t, previous, gen + 1, excluded)
  {
    hide Kin, AcceptableUncle, TreeOk, Chosen, LookedThrough;
    selected, excluded := before, known;
    ChosenKnown(t, previous, selected);
    var us := t.blocks[p].children;
    for k := 0 to |us|
      invariant Chosen(t, previous, selected) && |selected| < MAX_UNCLES
      invariant excluded == Kin(t, previous) + Cited(selected) && known <= excluded
      invariant Cited(before) <= Cited(selected) && NoneBelow(t, selected, t.blocks[previous].number - gen)
      invariant forall i :: 0 <= i < k ==> us[i] in excluded
    {
      if us[k] !in excluded {
        ChildAcceptable(t, previous, p, gen, us[k]);
        ChosenSnoc(t, previous, selected, us[k]);
        selected := selected + [us[k]];
        if |selected| == MAX_UNCLES {
          SettledYoung(t, previous, gen, before, known, selected);
          return;
        }
        excluded := excluded + {us[k]};
      }
    }
    OneGenerationMore(t, previous, gen, known, excluded);
  }

  lemma ChosenKnown(t: Tree, previous: Hash, selected: seq<Hash>)
    requires previous in t.blocks && Chosen(t, previous, selected)
    ensures AllKnown(t, selected) && |selected| <= MAX_UNCLES
  {
  }

  lemma ChosenSnoc(t: Tree, previous: Hash, selected: seq<Hash>, u: Hash)
    requires previous in t.blocks && Chosen(t, previous, selected) && |selected| < MAX_UNCLES && u !in Cited(selected)
    requires Candidate(t, previous, u) && t.blocks[u].parent != t.genesis
    ensures Chosen(t, previous, selected + [u]) && Cited(selected + [u]) == Cited(selected) + {u}
  {
    hide AcceptableUncle;
    assert u !in selected;
  }

  lemma OneGenerationMore(t: Tree, previous: Hash, gen: nat, known: set<Hash>, excluded: set<Hash>)
    requires LookedThrough(t, previous, gen, known) && known <= excluded
    requires var p := Up(t, previous, gen + 1); p in t.blocks ==> forall c :: c in t.blocks[p].children ==> c in excluded
    ensures LookedThrough(t, previous, gen + 1, excluded)
  {
    hide Up;
  }

  lemma ChildAcceptable(t: Tree, previous: Hash, p: Hash, gen: nat, u: Hash)
    requires TreeOk(t) && previous in t.blocks && gen < KIN_GENERATIONS
    requires p == Up(t, previous, gen + 1) && p in t.blocks && t.blocks[p].number + gen + 1 == t.blocks[previous].number
    requires u in t.blocks[p].children && u !in Kin(t, previous)
    ensures Candidate(t, previous, u) && t.blocks[u].parent == p && t.blocks[u].number == t.blocks[p].number + 1
  {
    hide Kin, TreeOk;
    ChildFacts(t, p, u);
    ParentFacts(t, u);
  }

  lemma NothingLookedAt(t: Tree, previous: Hash, excluded: set<Hash>)
    ensures LookedThrough(t, previous, 0, excluded) && Cited([]) == {}
  {
  }

  lemma AllSelected(t: Tree, previous: Hash, gen: nat, selected: seq<Hash>, excluded: set<Hash>)
    requires TreeOk(t) && previous in t.blocks && gen <= KIN_GENERATIONS
    requires gen == KIN_GENERATIONS || Up(t, previous, gen + 1) == t.genesis || |selected| >= MAX_UNCLES
    requires |selected| < MAX_UNCLES ==>
      excluded == Kin(t, previous) + Cited(selected) && LookedThrough(t, previous, gen, excluded)
    ensures |selected| < MAX_UNCLES ==> forall u :: MissedBy(t, previous, selected, u) ==> t.blocks[u].parent == t.genesis
  {
    hide Kin, TreeOk, AcceptableUncle, LookedThrough;
    if |selected| < MAX_UNCLES {
      forall u | MissedBy(t, previous, selected, u)
        ensures t.blocks[u].parent == t.genesis
      {
        MissedFromGenesis(t, previous, gen, selected, excluded, u);
      }
    }
  }

  lemma MissedFromGenesis(t: Tree, previous: Hash, gen: nat, selected: seq<Hash>, excluded: set<Hash>, u: Hash)
    requires TreeOk(t) && previous in t.blocks && gen <= KIN_GENERATIONS
    requires gen == KIN_GENERATIONS || Up(t, previous, gen + 1) == t.genesis
    requires excluded == Kin(t, previous) + Cited(selected) && LookedThrough(t, previous, gen, excluded)
    requires MissedBy(t, previous, selected, u)
    ensures t.blocks[u].parent == t.genesis
  {
    hide Kin, TreeOk, Up;
    var depth := t.blocks[previous].number + 1 - t.blocks[u].number;
    GenesisFacts(t);
    assert t.blocks[u].parent == Up(t, previous, depth) && Up(t, previous, depth) in t.blocks;
    ParentFacts(t, u);
    assert depth <= gen ==> u in excluded;
    BeyondGenesis(t, previous, gen + 1, depth);
  }

  /** After the genesis block there is nobody to cite. */
  lemma NoneAtStart(t: Tree, previous: Hash)
    requires TreeOk(t) && previous in t.blocks && t.blocks[previous].number == 0
    ensures forall u :: MissedBy(t, previous, [], u) ==> t.blocks[u].parent == t.genesis
  {
    hide TreeOk, Up, Kin;
    GenesisFacts(t);
    forall u | u in t.blocks
      ensures !MissedBy(t, previous, [], u)
    {
      if u != t.genesis {
        ParentFacts(t, u);
      }
    }
  }

  lemma {:induction false} BeyondGenesis(t: Tree, h: Hash, k: nat, d: nat)
    requires TreeOk(t)
    ensures Up(t, h, k) == t.genesis && k < d ==> Up(t, h, d) !in t.blocks
    decreases d
  {
    hide TreeOk;
    GenesisFacts(t);
    if k + 1 < d {
      BeyondGenesis(t, h, k, d - 1);
    }
  }

  lemma ChosenAccepted(t: Tree, previous: Hash, selected: seq<Hash>)
    requires previous in t.blocks && Chosen(t, previous, selected)
    ensures forall current :: current !in t.blocks ==>
      Acceptable(t, previous, t.blocks[previous].number + 1, current, Headers(t, selected))
  {
    hide AcceptableUncle;
  }

  // ---------------------------------------------------------------- a tree where one is missed

  /** The genesis block with two children. */
  function Brothers(genesis: Hash, a: Hash, b: Hash): Tree {
    var first := Known(genesis, 1, 1, [], []);
    Tree(map[genesis := Known(ZERO_HASH, 0, 0, [a, b], []), a := first, b := first], genesis)
  }

  lemma BrotherAcceptable(genesis: Hash, a: Hash, b: Hash)
    requires genesis != a && genesis != b && a != b && ZERO_HASH !in {genesis, a, b}
    ensures Candidate(Brothers(genesis, a, b), a, b)
  {
    var t := Brothers(genesis, a, b);
    assert Up(t, a, 1) == genesis;
    assert KinAbove(t, a, KIN_GENERATIONS) == {genesis} + KinAbove(t, genesis, KIN_GENERATIONS - 1);
  }

  lemma BrothersOk(genesis: Hash, a: Hash, b: Hash)
    requires genesis != a && genesis != b && a != b && ZERO_HASH !in {genesis, a, b}
    ensures TreeOk(Brothers(genesis, a, b))
  {
  }

  /** The genesis block is nobody's uncle. */
  lemma GenesisUnacceptable(t: Tree, previous: Hash, number: nat, current: Hash, selected: seq<Hash>, i: nat)
    requires TreeOk(t) && AllKnown(t, selected) && Acceptable(t, previous, number, current, Headers(t, selected))
    requires i < |selected|
    ensures selected[i] != t.genesis
  {
    hide Kin, Up, TreeOk;
    GenesisFacts(t);
    assert AcceptableUncle(t, previous, number, Headers(t, selected)[i]);
  }

  /** The block after `a` may cite its brother, and nothing is selected. */
  method BrotherMissed(genesis: Hash, a: Hash, b: Hash) returns (selected: seq<Hash>)
    requires genesis != a && genesis != b && a != b && ZERO_HASH !in {genesis, a, b}
    ensures selected == [] && MissedBy(Brothers(genesis, a, b), a, selected, b)
  {
    BrothersOk(genesis, a, b);
    BrotherAcceptable(genesis, a, b);
    hide TreeOk, Candidate, Acceptable;
    var t := Brothers(genesis, a, b);
    selected := SelectUncles(t, a);
    if selected != [] {
      GenesisUnacceptable(t, a, 2, ZERO_HASH, selected, 0);
      assert false;
    }
  }
}
