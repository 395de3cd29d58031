/** Building a block, sealing it, and checking it on the other side
  (libethereum/Block.cpp:121-140, 469-693, 733-861; libethcore/BlockHeader.cpp:119-150, 230-268;
  libdevcore/TrieHash.h:36-42).

  The state, the transactions and their receipts are any values; what the block does with them is a parameter. The
  uncles come from `Uncles`, the roots of maps from `TrieHash`, and what a header takes from its parent from
  `SealEngine`. */
module Blocks {
  import opened Bytes
  import opened Rlp
  import opened Headers
  import RlpStream
  import RlpView
  import TrieHash
  import TrieEncoding
  import SealEngine
  import Uncles
  import VmCode

  const SIZE_LIMIT := TrieEncoding.MAX_SIZE

  /** What becomes of the changes a transaction makes to the state. */
  datatype Permanence = Reverted | Committed | Uncommitted

  /** What the block needs from elsewhere: the parameters of the chain, executing a transaction after some gas has been
    used (None is an exception), reading and encoding transactions, encoding receipts, crediting balances, committing and hashing the
    state, the state of a root, what a block does to it before its first transaction, and the hash function. */
  datatype Engine<!S, !T, !R> = Engine(
    params: SealEngine.Params,
    execute: (Permanence, Env, nat, S, T) -> Option<(S, R)>,
    readTx: Bytes -> Option<T>,
    txItem: T -> Item,
    receiptItem: R -> Item,
    cumulativeGas: R -> VmCode.Word,
    bloom: seq<R> -> Bloom,
    addBalance: (S, Address, nat) -> S,
    commit: (nat, S) -> S,
    setRoot: Hash -> S,
    begin: (nat, Hash, S) -> S,
    rootHash: S -> Hash,
    blockReward: nat -> nat,
    hash: HashFn)

  /** No transaction is executed that could use more gas than the block has left, encodings fit into a trie, and a
    transaction is read back from its encoding. */
  ghost predicate Lawful<S(!new), T(!new), R(!new)>(e: Engine<S, T, R>) {
    && SealEngine.Usable(e.params)
    && (forall env: Env, used: nat, s: S, t: T :: used <= env.gasLimit && e.execute(Committed, env, used, s, t).Some? ==>
          e.cumulativeGas(e.execute(Committed, env, used, s, t).value.1) <= env.gasLimit)
    && (forall t :: |Encode(e.txItem(t))| < SIZE_LIMIT && e.readTx(Encode(e.txItem(t))) == Some(t))
    && (forall r :: |Encode(e.receiptItem(r))| < SIZE_LIMIT)
  }

  // ---------------------------------------------------------------- maps by index

  function Key(i: nat): Bytes {
    Encode(Data(ToBigEndian(i)))
  }

  /** The map from rlp(i) to element i. */
  function Indexed(data: seq<Bytes>): map<Bytes, Bytes> {
    if data == [] then map[]
    else
      var last := |data| - 1;
      Indexed(data[..last])[Key(last) := data[last]]
  }

  lemma KeyInjective(i: nat, j: nat)
    requires i < SIZE_LIMIT && j < SIZE_LIMIT && Key(i) == Key(j)
    ensures i == j
  {
    hide Encode;
    FewBytes(i);
    FewBytes(j);
    EncodeInjective(Data(ToBigEndian(i)), Data(ToBigEndian(j)));
    BigEndianRoundTrip(i);
    BigEndianRoundTrip(j);
  }

  lemma FewBytes(i: nat)
    requires i < SIZE_LIMIT
    ensures |ToBigEndian(i)| <= 8 && Fits(Data(ToBigEndian(i)))
  {
    Power256Eight();
    BigEndianLength(i, 8);
  }

  lemma {:induction false} NewKey(data: seq<Bytes>, i: nat)
    requires |data| <= i < SIZE_LIMIT
    ensures Key(i) !in Indexed(data)
  {
    hide Key;
    if data != [] {
      var last := |data| - 1;
      NewKey(data[..last], i);
      if Key(i) == Key(last) {
        KeyInjective(i, last);
      }
    }
  }

  /** The map has element i under the RLP of i, and nothing else. */
  lemma {:induction false} IndexedExact(data: seq<Bytes>, k: Bytes)
    requires |data| <= SIZE_LIMIT
    ensures k in Indexed(data) <==> exists i: nat :: i < |data| && k == Encode(Data(ToBigEndian(i)))
    ensures forall i: nat :: i < |data| && k == Encode(Data(ToBigEndian(i))) ==> k in Indexed(data) && Indexed(data)[k] == data[i]
  {
    hide Encode, ToBigEndian;
    if data != [] {
      var last := |data| - 1;
      IndexedExact(data[..last], k);
      assert Key(last) == Encode(Data(ToBigEndian(last)));
      forall i: nat | i < last && k == Encode(Data(ToBigEndian(i)))
        ensures k != Key(last) && k in Indexed(data[..last]) && Indexed(data[..last])[k] == data[i]
      {
        if Key(i) == Key(last) {
          KeyInjective(i, last);
        }
      }
      if k in Indexed(data[..last]) {
        var i: nat :| i < last && k == Encode(Data(ToBigEndian(i)));
        assert i < |data| && k == Encode(Data(ToBigEndian(i)));
      }
    }
  }

  lemma {:induction false} IndexedShort(data: seq<Bytes>)
    requires |data| <= SIZE_LIMIT && forall i :: 0 <= i < |data| ==> |data[i]| < SIZE_LIMIT
    ensures TrieHash.ShortMap(Indexed(data))
  {
    hide Key;
    if data != [] {
      IndexedShort(data[..|data| - 1]);
      ShortKey(|data| - 1);
    }
  }

  lemma ShortKey(i: nat)
    requires i < SIZE_LIMIT
    ensures |Key(i)| <= 9
  {
    FewBytes(i);
    TrieEncoding.EncodeOfData(ToBigEndian(i));
  }

  /** trieRootOver and orderedTrieRoot. */
  method TrieRootOver(hash: HashFn, data: seq<Bytes>) returns (root: Hash)
    requires |data| <= SIZE_LIMIT && forall i :: 0 <= i < |data| ==> |data[i]| < SIZE_LIMIT
    ensures root == TrieHash.Root256(hash, Indexed(data))
  {
    var m: map<Bytes, Bytes> := map[];
    for i := 0 to |data|
      invariant m == Indexed(data[..i])
    {
      assert data[..i + 1][..i] == data[..i];
      m := m[Key(i) := data[i]];
    }
    assert data[..|data|] == data;
    IndexedShort(data);
    root := TrieHash.Hash256(hash, m);
  }

  // ---------------------------------------------------------------- rewards

  /** An uncle's author gets eighths of the block reward, the fewer the older the uncle. */
  function UncleReward(reward: nat, uncleNumber: nat, number: nat): nat {
    reward * ((8 + uncleNumber - number) % VmCode.WORD_LIMIT) % VmCode.WORD_LIMIT / 8
  }

  function UnclesRewarded<S, T, R>(e: Engine<S, T, R>, s: S, number: nat, uncles: seq<Header>, reward: nat): S {
    if uncles == [] then s
    else
      var last := |uncles| - 1;
      e.addBalance(UnclesRewarded(e, s, number, uncles[..last], reward),
                   uncles[last].author, UncleReward(reward, uncles[last].number, number))
  }

  function AuthorReward(reward: nat, uncles: nat): nat {
    (reward + uncles * (reward / 32)) % VmCode.WORD_LIMIT
  }

  function Rewarded<S, T, R>(e: Engine<S, T, R>, s: S, number: nat, author: Address, uncles: seq<Header>): S {
    var reward := e.blockReward(number);
    e.addBalance(UnclesRewarded(e, s, number, uncles, reward), author, AuthorReward(reward, |uncles|))
  }

  /** With a reward that fits, an uncle d generations back earns (8 - d) eighths of it, and citing it one 32nd. */
  lemma RewardAmounts(reward: nat, number: nat, depth: nat)
    requires reward < VmCode.WORD_LIMIT / 8 && 1 <= depth <= 6 && depth <= number
    ensures UncleReward(reward, number - depth, number) == reward * (8 - depth) / 8
    ensures AuthorReward(reward, 2) == reward + reward / 32 + reward / 32
  {
    var k := 8 - depth;
    assert 8 + (number - depth) - number == k && k % VmCode.WORD_LIMIT == k;
    EighthsFit(reward, k);
  }

  lemma EighthsFit(reward: nat, k: nat)
    requires reward < VmCode.WORD_LIMIT / 8 && k <= 8
    ensures reward * k % VmCode.WORD_LIMIT == reward * k
  {
    assert reward * k <= reward * 8 by {
      assert reward * 8 == reward * k + reward * (8 - k);
    }
  }

  lemma AuthorStep(reward: nat, i: nat)
    ensures AuthorReward(reward, 0) == reward % VmCode.WORD_LIMIT
    ensures (AuthorReward(reward, i) + reward / 32) % VmCode.WORD_LIMIT == AuthorReward(reward, i + 1)
  {
    var x := reward / 32;
    assert (i + 1) * x == i * x + x;
    SumMod(reward + i * x, x);
  }

  lemma SumMod(a: nat, b: nat)
    ensures (a % VmCode.WORD_LIMIT + b) % VmCode.WORD_LIMIT == (a + b) % VmCode.WORD_LIMIT
  {
  }

  /** Crediting an account adds to its balance and leaves every other alone. */
  ghost predicate Credits<S(!new), T(!new), R(!new)>(e: Engine<S, T, R>, balance: (S, Address) -> nat) {
    forall s: S, a: Address, amount: nat, x: Address ::
      balance(e.addBalance(s, a, amount), x) == balance(s, x) + if x == a then amount else 0
  }

  /** The uncles are from one to six generations older than the block. */
  ghost predicate Recent(uncles: seq<Header>, number: nat) {
    forall i :: 0 <= i < |uncles| ==> 1 <= number - uncles[i].number <= 6
  }

  /** What the uncles by one author earn: eight eighths of the reward less one for every generation. */
  function Earned(x: Address, reward: nat, number: nat, uncles: seq<Header>): nat
    requires Recent(uncles, number)
  {
    if uncles == [] then 0
    else
      var last := uncles[|uncles| - 1];
      Earned(x, reward, number, uncles[..|uncles| - 1])
      + if last.author == x then Eighths(reward, 8 - (number - last.number)) else 0
  }

  function Eighths(reward: nat, k: nat): nat {
    reward * k / 8
  }

  lemma {:induction false} UnclesCredited<S(!new), T(!new), R(!new)>(e: Engine<S, T, R>, balance: (S, Address) -> nat, s: S,
      number: nat, uncles: seq<Header>, reward: nat, x: Address)
    requires Credits(e, balance) && Recent(uncles, number) && reward < VmCode.WORD_LIMIT / 8
    ensures balance(UnclesRewarded(e, s, number, uncles, reward), x) == balance(s, x) + Earned(x, reward, number, uncles)
  {
    hide UncleReward;
    if uncles != [] {
      var n := |uncles| - 1;
      UnclesCredited(e, balance, s, number, uncles[..n], reward, x);
      RewardAmounts(reward, number, number - uncles[n].number);
    }
  }

  lemma AuthorCredited(reward: nat, uncles: nat)
    requires reward < VmCode.WORD_LIMIT / 8 && uncles <= 2
    ensures AuthorReward(reward, uncles) == reward + uncles * (reward / 32)
  {
    if uncles == 2 {
      assert AuthorReward(reward, 2) == (reward + 2 * (reward / 32)) % VmCode.WORD_LIMIT;
    } else if uncles == 1 {
      assert AuthorReward(reward, 1) == (reward + 1 * (reward / 32)) % VmCode.WORD_LIMIT;
    } else {
      assert AuthorReward(reward, 0) == (reward + 0 * (reward / 32)) % VmCode.WORD_LIMIT;
    }
  }

  /** Who gets what from a block, whatever balances are: every account what its uncles earn, and the author besides the reward
    and a 32nd of it for each uncle. */
  ghost predicate CreditedRight<S(!new), T(!new), R(!new)>(e: Engine<S, T, R>, before: S, after: S, number: nat,
      author: Address, uncles: seq<Header>)
  {
    Recent(uncles, number) && e.blockReward(number) < VmCode.WORD_LIMIT / 8 ==>
      forall balance: (S, Address) -> nat, x: Address :: Credits(e, balance) ==>
        balance(after, x) == balance(before, x) + Earned(x, e.blockReward(number), number, uncles)
          + if x == author then e.blockReward(number) + |uncles| * (e.blockReward(number) / 32) else 0
  }

  lemma RewardsCredited<S(!new), T(!new), R(!new)>(e: Engine<S, T, R>, s: S, number: nat, author: Address, uncles: seq<Header>)
    requires |uncles| <= 2
    ensures CreditedRight(e, s, Rewarded(e, s, number, author, uncles), number, author, uncles)
  {
    hide Recent, UnclesRewarded, AuthorReward, Earned;
    var reward := e.blockReward(number);
    if Recent(uncles, number) && reward < VmCode.WORD_LIMIT / 8 {
      AuthorCredited(reward, |uncles|);
      forall balance: (S, Address) -> nat, x: Address | Credits(e, balance)
        ensures balance(Rewarded(e, s, number, author, uncles), x)
          == balance(s, x) + Earned(x, reward, number, uncles) + if x == author then reward + |uncles| * (reward / 32) else 0
      {
        UnclesCredited(e, balance, s, number, uncles, reward, x);
      }
    }
  }

  /** applyRewards. */
  method ApplyRewards<S(!new), T(!new), R(!new)>(e: Engine<S, T, R>, state: S, number: nat, author: Address, uncles: seq<Header>)
    returns (rewarded: S)
    requires |uncles| <= 2
    ensures rewarded == Rewarded(e, state, number, author, uncles)
    ensures CreditedRight(e, state, rewarded, number, author, uncles)
  {
    RewardsCredited(e, state, number, author, uncles);
    hide AuthorReward, UncleReward, CreditedRight;
    var reward := e.blockReward(number);
    AuthorStep(reward, 0);
    var r := reward % VmCode.WORD_LIMIT;
    rewarded := state;
    for i := 0 to |uncles|
      invariant rewarded == UnclesRewarded(e, state, number, uncles[..i], reward)
      invariant r == AuthorReward(reward, i)
    {
      assert uncles[..i + 1][..i] == uncles[..i];
      AuthorStep(reward, i);
      rewarded := e.addBalance(rewarded, uncles[i].author, UncleReward(reward, uncles[i].number, number));
      r := (r + reward / 32) % VmCode.WORD_LIMIT;
    }
    assert uncles[..|uncles|] == uncles;
    rewarded := e.addBalance(rewarded, author, r);
  }

  // ---------------------------------------------------------------- the validator's side

  function Items<T>(f: T -> Item, s: seq<T>): (items: seq<Item>)
    ensures |items| == |s| && forall i :: 0 <= i < |s| ==> items[i] == f(s[i])
  {
    seq(|s|, i requires 0 <= i < |s| => f(s[i]))
  }

  function HeaderItems(headers: seq<Header>): (items: seq<Item>)
    ensures |items| == |headers| && forall i :: 0 <= i < |headers| ==> items[i] == HeaderItem(headers[i])
  {
    Items(HeaderItem, headers)
  }

  /** The list of a header, the transactions and the uncles. */
  function BlockList(header: Item, txs: seq<Item>, uncles: seq<Item>): Item {
    List([header, List(txs), List(uncles)])
  }

  function BlockItem(header: Header, txs: seq<Item>, uncles: seq<Header>): Item {
    BlockList(HeaderItem(header), txs, HeaderItems(uncles))
  }

  function GasUsed<S, T, R>(e: Engine<S, T, R>, receipts: seq<R>): VmCode.Word {
    if receipts == [] then 0 else e.cumulativeGas(receipts[|receipts| - 1])
  }

  /** Executing transactions one after the other, and their receipts. */
  function Replay<S, T, R>(e: Engine<S, T, R>, env: Env, s: S, txs: seq<T>): Option<(S, seq<R>)> {
    if txs == [] then Some((s, []))
    else
      var last := |txs| - 1;
      var front := Replay(e, env, s, txs[..last]);
      if front.None? then None
      else
        var result := e.execute(Committed, env, GasUsed(e, front.value.1), front.value.0, txs[last]);
        if result.None? then None else Some((result.value.0, front.value.1 + [result.value.1]))
  }

  function UncleOf(hash: HashFn, h: Header): Uncles.Header {
    Uncles.Header(HashOf(hash, h), h.parentHash, h.number, h.timestamp)
  }

  function UnclesOf(hash: HashFn, headers: seq<Header>): (uncles: seq<Uncles.Header>)
    ensures |uncles| == |headers| && forall i :: 0 <= i < |headers| ==> uncles[i] == UncleOf(hash, headers[i])
  {
    seq(|headers|, i requires 0 <= i < |headers| => UncleOf(hash, headers[i]))
  }

  /** The roots a header promises of the block's transactions and uncles. */
  ghost predicate RootsMatch<S, T, R>(e: Engine<S, T, R>, header: Header, txs: seq<Item>, uncles: seq<Item>) {
    && header.transactionsRoot == TrieHash.Root256(e.hash, Indexed(Encodings(txs)))
    && header.sha3Uncles == e.hash(Encode(List(uncles)))
  }

  /** The state the transactions of a block start from. */
  function StartAfter<S, T, R>(e: Engine<S, T, R>, previous: Header): S {
    e.begin(previous.number + 1, HashOf(e.hash, previous), e.setRoot(previous.stateRoot))
  }

  /** What a header promises of running the block. */
  ghost predicate RunMatches<S, T, R>(e: Engine<S, T, R>, previous: Header, header: Header, txs: seq<T>, uncles: seq<Header>) {
    var run := Replay(e, Surroundings(header), StartAfter(e, previous), txs);
    run.Some? &&
    var (state, receipts) := run.value;
    && header.receiptsRoot == TrieHash.Root256(e.hash, Indexed(Encodings(Items(e.receiptItem, receipts))))
    && header.logBloom == e.bloom(receipts)
    && header.gasUsed == GasUsed(e, receipts)
    && (header.stateRoot == previous.stateRoot
        || header.stateRoot == e.rootHash(e.commit(header.number, Rewarded(e, state, header.number, header.author, uncles))))
  }

  datatype Failure =
    | BadFormat | InvalidTransactionsRoot | InvalidUnclesHash | FailedTransaction | InvalidReceiptsStateRoot
    | InvalidLogBloom | BadUncle(uncle: Uncles.Failure) | InvalidStateRoot | InvalidGasUsed

  /** BlockHeader::verify on the bytes of a block. */
  method VerifyRoots<S(!new), T(!new), R(!new)>(e: Engine<S, T, R>, header: Header, block: Bytes,
      ghost headerItem: Item, ghost txs: seq<Item>, ghost uncles: seq<Item>) returns (failure: Option<Failure>)
    requires block == Encode(BlockList(headerItem, txs, uncles)) && Fits(BlockList(headerItem, txs, uncles))
    requires |block| < SIZE_LIMIT
    ensures failure == None <==> RootsMatch(e, header, txs, uncles)
  {
    hide Encode, Fits, Indexed;
    BlockParts(headerItem, txs, uncles);
    var root := new RlpView.View(block);
    var txList := root.At(1);
    var unclesList := root.At(2);
    var data := AllItems(txList, txs);
    ShortParts(txs);
    var expectedRoot := TrieRootOver(e.hash, data);
    if header.transactionsRoot != expectedRoot {
      return Some(InvalidTransactionsRoot);
    }
    if header.sha3Uncles != e.hash(unclesList) {
      return Some(InvalidUnclesHash);
    }
    failure := None;
  }

  /** What a view of a block finds, and that its parts are shorter. */
  lemma BlockParts(header: Item, txs: seq<Item>, uncles: seq<Item>)
    requires Fits(BlockList(header, txs, uncles))
    ensures Fits(header) && Fits(List(txs)) && Fits(List(uncles))
    ensures var block := Encode(BlockList(header, txs, uncles));
      && IsList(block) && Payload(block).Ok?
      && Split(Payload(block).value) == Ok([Encode(header), Encode(List(txs)), Encode(List(uncles))])
      && |Encode(List(txs))| < |block| && |Encode(List(uncles))| < |block|
  {
    hide Encode;
    var items := BlockList(header, txs, uncles).items;
    assert Fits(items[0]) && Fits(items[1]) && Fits(items[2]);
    RlpView.CutsOfEncoding(BlockList(header, txs, uncles));
    PartSize(BlockList(header, txs, uncles), 1);
    PartSize(BlockList(header, txs, uncles), 2);
    assert Encodings(items) == [Encode(header), Encode(List(txs)), Encode(List(uncles))];
  }

  /** A part of a list is shorter than the list. */
  lemma PartSize(item: Item, i: nat)
    requires item.List? && i < |item.items| && Fits(item)
    ensures |Encode(item.items[i])| < |Encode(item)|
  {
    PartOfAll(item.items, i);
    RlpStream.FitsHasHeader(|EncodeAll(item.items)|);
    assert Encode(item) == Rlp.Header(|EncodeAll(item.items)|, LIST_START) + EncodeAll(item.items);
    assert |Rlp.Header(|EncodeAll(item.items)|, LIST_START)| >= 1;
  }

  lemma ShortParts(items: seq<Item>)
    requires Fits(List(items)) && |Encode(List(items))| < SIZE_LIMIT
    ensures |Encodings(items)| <= SIZE_LIMIT && forall i :: 0 <= i < |items| ==> |Encodings(items)[i]| < SIZE_LIMIT
  {
    hide Encode, Fits;
    forall i | 0 <= i < |items|
      ensures |Encodings(items)[i]| < SIZE_LIMIT
    {
      PartSize(List(items), i);
    }
    ListLonger(items);
    NoMoreThanBytes(items);
  }

  lemma ListLonger(items: seq<Item>)
    requires Fits(List(items))
    ensures |EncodeAll(items)| < |Encode(List(items))|
  {
    RlpStream.FitsHasHeader(|EncodeAll(items)|);
    assert |Rlp.Header(|EncodeAll(items)|, LIST_START)| >= 1;
  }

  lemma {:induction false} NoMoreThanBytes(items: seq<Item>)
    ensures |items| <= |EncodeAll(items)|
  {
    if items != [] {
      NoMoreThanBytes(items[1..]);
      assert |Encode(items[0])| >= 1;
    }
  }

  /** The data of all items of a list, by index. */
  method AllItems(list: Bytes, ghost items: seq<Item>) returns (data: seq<Bytes>)
    requires list == Encode(List(items)) && Fits(List(items)) && |list| < RlpView.SIZE_MAX
    ensures data == Encodings(items)
  {
    hide Encode, Fits, Split, Payload;
    RlpView.CutsOfEncoding(List(items));
    var view := new RlpView.View(list);
    var count := RlpView.ItemCount(view.payload, view.cuts);
    data := [];
    for i := 0 to count
      invariant view.Valid() && |data| == i && forall k :: 0 <= k < i ==> data[k] == Encode(items[k])
    {
      var item := view.At(i);
      data := data + [item];
    }
  }

  /** enact: runs the block from the state after the previous one, and checks what its header promises. */
  method Enact<S(!new), T(!new), R(!new)>(e: Engine<S, T, R>, t: Uncles.Tree, previous: Header, header: Header, txs: seq<T>,
      uncles: seq<Header>) returns (failure: Option<Failure>)
    requires Uncles.TreeOk(t) && HashOf(e.hash, previous) in t.blocks && Lawful(e) && |txs| <= SIZE_LIMIT
    ensures failure == None <==>
      && Uncles.Acceptable(t, HashOf(e.hash, previous), header.number, HashOf(e.hash, header), UnclesOf(e.hash, uncles))
      && RunMatches(e, previous, header, txs, uncles)
  {
    hide HashOf, Indexed, Uncles.Acceptable, Uncles.TreeOk, Rewarded, Lawful, CreditedRight;
    var state, receipts, ok := RunAll(e, Surroundings(header), StartAfter(e, previous), txs);
    if !ok {
      return Some(FailedTransaction);
    }
    ReceiptsMatch(e, Surroundings(header), StartAfter(e, previous), txs);
    ShortReceipts(e, receipts);
    var receiptsRoot := TrieRootOver(e.hash, Encodings(Items(e.receiptItem, receipts)));
    if receiptsRoot != header.receiptsRoot {
      return Some(InvalidReceiptsStateRoot);
    }
    if header.logBloom != e.bloom(receipts) {
      return Some(InvalidLogBloom);
    }
    var parent := HashOf(e.hash, previous);
    var bad := Uncles.CheckUncles(t, parent, header.number, HashOf(e.hash, header), UnclesOf(e.hash, uncles));
    if bad.Some? {
      return Some(BadUncle(bad.value));
    }
    AcceptedAreFew(t, parent, header.number, HashOf(e.hash, header), UnclesOf(e.hash, uncles));
    var rewarded := ApplyRewards(e, state, header.number, header.author, uncles);
    var root := e.rootHash(e.commit(header.number, rewarded));
    if header.stateRoot != previous.stateRoot && header.stateRoot != root {
      return Some(InvalidStateRoot);
    }
    if header.gasUsed != GasUsed(e, receipts) {
      return Some(InvalidGasUsed);
    }
    failure := None;
  }

  lemma AcceptedAreFew(t: Uncles.Tree, previous: Hash, number: nat, current: Hash, uncles: seq<Uncles.Header>)
    requires Uncles.Acceptable(t, previous, number, current, uncles)
    ensures |uncles| <= 2
  {
  }

  lemma ShortReceipts<S(!new), T(!new), R(!new)>(e: Engine<S, T, R>, receipts: seq<R>)
    requires Lawful(e)
    ensures forall i :: 0 <= i < |receipts| ==> |Encodings(Items(e.receiptItem, receipts))[i]| < SIZE_LIMIT
  {
    hide Encode;
  }

  lemma ShortTransactions<S(!new), T(!new), R(!new)>(e: Engine<S, T, R>, txs: seq<T>)
    requires Lawful(e)
    ensures forall i :: 0 <= i < |txs| ==> |Encodings(Items(e.txItem, txs))[i]| < SIZE_LIMIT
  {
    hide Encode;
  }

  // ---------------------------------------------------------------- reading the parts of a block

  function ReadAll<X>(read: Bytes -> Option<X>, data: seq<Bytes>): Option<seq<X>> {
    if data == [] then Some([])
    else
      var front, last := ReadAll(read, data[..|data| - 1]), read(data[|data| - 1]);
      if front.Some? && last.Some? then Some(front.value + [last.value]) else None
  }

  method ReadEach<X(!new)>(read: Bytes -> Option<X>, data: seq<Bytes>) returns (values: seq<X>, ok: bool)
    ensures ReadAll(read, data) == if ok then Some(values) else None
    ensures ok ==> |values| == |data|
  {
    values := [];
    for i := 0 to |data|
      invariant ReadAll(read, data[..i]) == Some(values) && |values| == i
    {
      assert data[..i + 1][..i] == data[..i];
      var value := read(data[i]);
      if value.None? {
        UnreadableForGood(read, data, i + 1);
        return values, false;
      }
      values := values + [value.value];
    }
    assert data[..|data|] == data;
    ok := true;
  }

  lemma {:induction false} UnreadableForGood<X>(read: Bytes -> Option<X>, data: seq<Bytes>, i: nat)
    requires i <= |data| && ReadAll(read, data[..i]) == None
    ensures ReadAll(read, data) == None
  {
    if i < |data| {
      assert data[..|data| - 1][..i] == data[..i];
      UnreadableForGood(read, data[..|data| - 1], i);
    } else {
      assert data[..i] == data;
    }
  }

  /** All parts are read, in order, or none: one that cannot be read is enough. */
  lemma {:induction false} ReadAllExact<X>(read: Bytes -> Option<X>, data: seq<Bytes>)
    ensures ReadAll(read, data).Some? <==> forall i :: 0 <= i < |data| ==> read(data[i]).Some?
    ensures ReadAll(read, data).Some? ==> var values := ReadAll(read, data).value;
      |values| == |data| && forall i :: 0 <= i < |data| ==> read(data[i]) == Some(values[i])
  {
    if data != [] {
      ReadAllExact(read, data[..|data| - 1]);
    }
  }

  /** What has been written can be read. */
  lemma {:induction false} ReadAllWritten<X>(read: Bytes -> Option<X>, write: X -> Item, values: seq<X>)
    requires forall i :: 0 <= i < |values| ==> read(Encode(write(values[i]))) == Some(values[i])
    ensures ReadAll(read, Encodings(Items(write, values))) == Some(values)
  {
    hide Encode, ReadAll, Items, Encodings;
    if values != [] {
      var n := |values| - 1;
      ReadAllWritten(read, write, values[..n]);
      ReadAllSnoc(read, Encodings(Items(write, values[..n])), Encode(write(values[n])));
      WrittenSnoc(write, values);
      assert values == values[..n] + [values[n]];
    } else {
      NothingWritten(read, write);
    }
  }

  lemma NothingWritten<X>(read: Bytes -> Option<X>, write: X -> Item)
    ensures ReadAll(read, Encodings(Items(write, []))) == Some([])
  {
  }

  lemma WrittenSnoc<X>(write: X -> Item, values: seq<X>)
    requires values != []
    ensures var n := |values| - 1;
      Encodings(Items(write, values)) == Encodings(Items(write, values[..n])) + [Encode(write(values[n]))]
  {
    hide Encode;
  }

  lemma ReadAllSnoc<X>(read: Bytes -> Option<X>, data: seq<Bytes>, last: Bytes)
    requires ReadAll(read, data).Some? && read(last).Some?
    ensures ReadAll(read, data + [last]) == Some(ReadAll(read, data).value + [read(last).value])
  {
    assert (data + [last])[..|data|] == data;
  }

  method RunAll<S(!new), T(!new), R(!new)>(e: Engine<S, T, R>, env: Env, start: S, txs: seq<T>)
    returns (state: S, receipts: seq<R>, ok: bool)
    ensures Replay(e, env, start, txs) == if ok then Some((state, receipts)) else None
  {
    state, receipts := start, [];
    for i := 0 to |txs|
      invariant Replay(e, env, start, txs[..i]) == Some((state, receipts))
    {
      assert txs[..i + 1][..i] == txs[..i];
      var result := e.execute(Committed, env, GasUsed(e, receipts), state, txs[i]);
      if result.None? {
        FailsForGood(e, env, start, txs, i + 1);
        return state, receipts, false;
      }
      state, receipts := result.value.0, receipts + [result.value.1];
    }
    assert txs[..|txs|] == txs;
    ok := true;
  }

  lemma {:induction false} FailsForGood<S(!new), T(!new), R(!new)>(e: Engine<S, T, R>, env: Env, start: S, txs: seq<T>, i: nat)
    requires i <= |txs| && Replay(e, env, start, txs[..i]) == None
    ensures Replay(e, env, start, txs) == None
  {
    if i < |txs| {
      assert txs[..|txs| - 1][..i] == txs[..i];
      FailsForGood(e, env, start, txs[..|txs| - 1], i);
    } else {
      assert txs[..i] == txs;
    }
  }

  // ---------------------------------------------------------------- the proposer's side

  function Infos(info: Hash -> Header, hashes: seq<Hash>): (headers: seq<Header>)
    ensures |headers| == |hashes| && forall i :: 0 <= i < |hashes| ==> headers[i] == info(hashes[i])
  {
    seq(|hashes|, i requires 0 <= i < |hashes| => info(hashes[i]))
  }

  /** The headers the chain gives out are those of its blocks. */
  ghost predicate ChainOk(hash: HashFn, info: Hash -> Header, t: Uncles.Tree) {
    && Uncles.TreeOk(t)
    && forall h :: h in t.blocks ==> UncleOf(hash, info(h)) == Uncles.HeaderOf(t, h) && SmallHeader(info(h))
  }

  /** Any new block after the previous one may cite these known blocks as uncles. */
  ghost predicate MayCite(t: Uncles.Tree, previous: Hash, number: nat, uncles: seq<Hash>) {
    && Uncles.AllKnown(t, uncles)
    && forall other :: other !in t.blocks ==> Uncles.Acceptable(t, previous, number, other, Uncles.Headers(t, uncles))
  }

  ghost predicate SmallHeader(h: Header) {
    Writable(h) && |Encode(HeaderItem(h))| < 0x1_0000
  }

  /** Writing raw items into a list one at a time. */
  lemma RawInside(st: RlpStream.State, total: nat, items: seq<Item>, item: Item)
    requires TrieHash.Inside(st, total, items) && |items| < total && |EncodeAll(items + [item])| < LENGTH_LIMIT
    ensures RlpStream.Valid(st)
    ensures var next := RlpStream.Apply(RlpStream.Call.AppendRaw(Encode(item), 1), st);
      next.Some? && TrieHash.Inside(next.value, total, items + [item])
  {
    hide Encode;
    TrieHash.InsideValid(st, total, items);
    RlpStream.FitsHasHeader(|EncodeAll(items + [item])|);
    TrieHash.InsideNext(st, total, items, item);
  }

  lemma ListBegun(total: nat)
    ensures var st := RlpStream.Apply(RlpStream.Call.AppendList(total), RlpStream.State([], []));
      st.Some? && TrieHash.Inside(st.value, total, [])
  {
    if total > 0 {
      TrieHash.StartList(total);
    } else {
      assert Rlp.Header(0, LIST_START) + EncodeAll([]) == [LIST_START];
      assert Encode(List([])) == [LIST_START];
      assert [] + [LIST_START] == [LIST_START];
    }
  }

  lemma {:induction false} PrefixSize(items: seq<Item>, n: nat)
    requires n <= |items|
    ensures |EncodeAll(items[..n])| <= |EncodeAll(items)|
  {
    RlpStream.EncodeAllConcat(items[..n], items[n..]);
    assert items == items[..n] + items[n..];
  }

  lemma EncodingsSnoc(items: seq<Item>, i: nat)
    requires i < |items|
    ensures Encodings(items[..i + 1])[..i] == Encodings(items[..i])
    ensures Indexed(Encodings(items[..i + 1])) == Indexed(Encodings(items[..i]))[Key(i) := Encode(items[i])]
  {
    assert Encodings(items[..i + 1])[..i] == Encodings(items[..i]);
  }

  lemma SizeOfList(items: seq<Item>)
    requires Fits(List(items))
    ensures |EncodeAll(items)| < LENGTH_LIMIT
  {
  }

  class Block<S(!new), T(!new), R(!new)> {
    const engine: Engine<S, T, R>
    const info: Hash -> Header
    const previous: Header
    const author: Address
    var state: S
    var precommit: S
    var transactions: seq<T>
    var receipts: seq<R>
    var current: Header
    var currentBytes: Bytes
    var currentTxs: Bytes
    var currentUncles: Bytes
    var committed: bool
    /** The state after the transactions, and what the last commit put in. */
    ghost var plain: S
    /** The state is that of the transactions, and not of some other run besides. */
    ghost var recorded: bool
    ghost var tree: Uncles.Tree
    ghost var uncles: seq<Hash>

    predicate IsSealed()
      reads this
    {
      currentBytes != []
    }

    function PreviousHash(): Hash {
      HashOf(engine.hash, previous)
    }

    ghost function TxItems(): seq<Item>
      reads `transactions
    {
      Items(engine.txItem, transactions)
    }

    ghost function UncleHeaders(): seq<Header>
      reads `uncles
    {
      Infos(info, uncles)
    }

    /** The state after rewards, which the header of a committed block promises. */
    ghost function WithRewards(h: Header): S
      reads `plain, `uncles
    {
      engine.commit(h.number, Rewarded(engine, plain, h.number, h.author, UncleHeaders()))
    }

    /** What commitToSeal has put into the header. */
    ghost predicate PromisedBy(h: Header)
      reads `plain, `uncles, `tree, `transactions, `receipts, `currentTxs, `currentUncles
    {
      && ChainOk(engine.hash, info, tree) && PreviousHash() in tree.blocks
      && h.parentHash == PreviousHash() && |transactions| <= SIZE_LIMIT
      && MayCite(tree, PreviousHash(), h.number, uncles)
      && RootsMatch(engine, h, TxItems(), HeaderItems(UncleHeaders()))
      && h.receiptsRoot == TrieHash.Root256(engine.hash, Indexed(Encodings(Items(engine.receiptItem, receipts))))
      && h.logBloom == engine.bloom(receipts) && h.gasUsed == GasUsed(engine, receipts)
      && h.stateRoot == engine.rootHash(WithRewards(h))
      && currentTxs == Encode(List(TxItems())) && currentUncles == Encode(List(HeaderItems(UncleHeaders())))
    }

    lemma SealLeftOut(h: Header, seal: seq<Item>)
      ensures Unsealed(h.(seal := seal)) == Unsealed(h)
    {
    }

    lemma SameRewards(h: Header, seal: seq<Item>)
      ensures WithRewards(h.(seal := seal)) == WithRewards(h)
    {
    }

    lemma CurrentLists()
      requires PromisedBy(current)
      ensures currentTxs == Encode(List(TxItems())) && currentUncles == Encode(List(HeaderItems(UncleHeaders())))
    {
    }

    lemma SealDoesNotMatter(h: Header, seal: seq<Item>)
      requires PromisedBy(h)
      ensures PromisedBy(h.(seal := seal))
    {
      hide Encode, Fits, Rewarded, Indexed, Items, HeaderItems, HeaderItem, ChainOk, Uncles.Acceptable;
    }

    /** The state machine: rewards are in the state exactly while the block is committed and not sealed. */
    ghost predicate Valid()
      reads this
    {
      && Lawful(engine) && MadeFrom(engine.hash, engine.params, previous, current)
      && |receipts| == |transactions|
      && (recorded ==>
            Replay(engine, Surroundings(current), StartAfter(engine, previous), transactions) == Some((plain, receipts)))
      && (IsSealed() ==> committed)
      && (committed ==> precommit == plain && PromisedBy(current))
      && state == (if committed && !IsSealed() then WithRewards(current) else plain)
      && (IsSealed() ==>
            && currentBytes == Encode(BlockItem(current, TxItems(), UncleHeaders()))
            && Fits(BlockItem(current, TxItems(), UncleHeaders())) && Writable(current))
    }

    /** A new block after the previous one, as resetCurrent leaves it. */
    constructor (engine: Engine<S, T, R>, info: Hash -> Header, previous: Header, author: Address, timestamp: nat)
      requires Lawful(engine)
      ensures Valid() && !IsSealed() && !committed && transactions == [] && recorded
      ensures this.engine == engine && this.info == info && this.previous == previous && this.author == author
      ensures current == Fresh(engine.hash, engine.params, author, timestamp, previous)
    {
      this.engine, this.info, this.previous, this.author := engine, info, previous, author;
      state := engine.setRoot(previous.stateRoot);
      precommit, plain, recorded := state, state, true;
      transactions, receipts, current := [], [], Fresh(engine.hash, engine.params, author, timestamp, previous);
      currentBytes, currentTxs, currentUncles, committed := [], [], [], false;
      tree, uncles := Uncles.Tree(map[], ZERO_HASH), [];
      new;
      ResetCurrent(timestamp);
    }

    /** resetCurrent: starts over with the header made from the previous one, and the state it left. */
    method ResetCurrent(timestamp: nat)
      requires Lawful(engine)
      modifies this
      ensures Valid() && !IsSealed() && !committed && transactions == [] && recorded
      ensures plain == StartAfter(engine, previous)
      ensures current == Fresh(engine.hash, engine.params, author, timestamp, previous)
    {
      assert SealEngine.Usable(engine.params);
      hide Lawful, Fresh, Sketch, HashOf, PromisedBy, WithRewards, TxItems, UncleHeaders, MadeFrom, Encode, Fits, Writable;
      hide BlockItem, HeaderItem;
      transactions, receipts := [], [];
      FreshMade(engine.hash, engine.params, author, timestamp, previous);
      current := Fresh(engine.hash, engine.params, author, timestamp, previous);
      currentBytes := [];
      state := engine.setRoot(previous.stateRoot);
      precommit := state;
      committed := false;
      state := engine.begin(current.number, PreviousHash(), state);
      plain, recorded := state, true;
    }

    /** uncommitToSeal. A sealed block would lose its mark of being committed; it is never called on one. */
    method UncommitToSeal()
      requires Valid()
      modifies this`state, this`committed
      ensures !committed && state == plain && (!IsSealed() ==> Valid())
    {
      hide PromisedBy, WithRewards, Replay, Encode, TxItems, UncleHeaders;
      if committed {
        state := precommit;
        committed := false;
      }
    }

    /** execute: None stands for the exceptions, which leave the block uncommitted unless it is sealed. Only what is committed
      is recorded as a transaction of the block; another run may leave the block with a state its transactions do not lead
      to. */
    method Execute(t: T, permanence: Permanence) returns (receipt: Option<R>)
      requires Valid()
      modifies this`state, this`committed, this`transactions, this`receipts, this`plain, this`recorded
      ensures Valid() && IsSealed() == old(IsSealed())
      ensures var result := engine.execute(permanence, Surroundings(current), GasUsed(engine, old(receipts)), old(plain), t);
        if IsSealed() || result.None? then
          receipt == None && transactions == old(transactions) && receipts == old(receipts) && plain == old(plain)
          && recorded == old(recorded) && (IsSealed() ==> state == old(state) && committed)
        else
          && !committed && receipt == Some(result.value.1) && state == plain == result.value.0
          && if permanence == Committed then
               && transactions == old(transactions) + [t] && receipts == old(receipts) + [result.value.1]
               && recorded == old(recorded)
             else
               && transactions == old(transactions) && receipts == old(receipts)
               && (recorded <==> old(recorded) && plain == old(plain))
    {
      hide PromisedBy, WithRewards, Encode, TxItems, UncleHeaders, Replay;
      if IsSealed() {
        return None;
      }
      UncommitToSeal();
      var result := engine.execute(permanence, Surroundings(current), GasUsed(engine, receipts), state, t);
      if result.None? {
        return None;
      }
      state := result.value.0;
      if permanence == Committed {
        if recorded {
          ReplaySnoc(engine, Surroundings(current), StartAfter(engine, previous), transactions, t);
        }
        transactions := transactions + [t];
        receipts := receipts + [result.value.1];
      } else {
        recorded := recorded && state == plain;
      }
      plain := state;
      receipt := Some(result.value.1);
    }

    /** commitToSeal: false stands for the exception on a sealed block. Rewards are applied to the state as it was before
      any earlier commit, so that committing again, or after more transactions, never applies them twice. */
    method CommitToSeal(t: Uncles.Tree, extraData: Bytes) returns (ok: bool)
      requires Valid() && ChainOk(engine.hash, info, t) && Follows(t)
      requires |transactions| < SIZE_LIMIT && Fits(List(TxItems()))
      modifies this
      ensures Valid() && ok == !old(IsSealed()) && IsSealed() == old(IsSealed())
      ensures plain == old(plain) && transactions == old(transactions) && receipts == old(receipts)
      ensures recorded == old(recorded)
      ensures Surroundings(current) == old(Surroundings(current))
      ensures ok ==> committed && tree == t && state == WithRewards(current)
      ensures ok ==> current.extraData == if |extraData| > 32 then extraData[..32] else extraData
    {
      hide PromisedBy, WithRewards, Replay, ChainOk, Encode, Fits, Items;
      if IsSealed() {
        return false;
      }
      if committed {
        UncommitToSeal();
      } else {
        precommit := state;
      }
      FillIn(t, extraData);
      committed := true;
      ok := true;
    }

    /** Uncles, lists, rewards and the fields of the header. */
    method FillIn(t: Uncles.Tree, extraData: Bytes)
      requires Lawful(engine) && ChainOk(engine.hash, info, t) && Follows(t) && state == plain
      requires |receipts| == |transactions| < SIZE_LIMIT && Fits(List(TxItems()))
      modifies this`state, this`current, this`currentTxs, this`currentUncles, this`tree, this`uncles
      ensures PromisedBy(current) && state == WithRewards(current) && tree == t
      ensures Surroundings(current) == old(Surroundings(current))
      ensures current.extraData == if |extraData| > 32 then extraData[..32] else extraData
    {
      hide Encode, Fits, Indexed, Rewarded, Uncles.Acceptable, Items, HeaderItems, ChainOk, PromisedBy, Lawful, HashOf;
      hide TrieHash.ShortMap, TrieHash.Root256, MayCite, CreditedRight;
      var txMap, receiptMap, headers := FillLists(t);
      var rewarded := ApplyRewards(engine, state, current.number, current.author, headers);
      state := engine.commit(current.number, rewarded);
      SetFields(txMap, receiptMap, extraData);
      FilledPromises(txMap, receiptMap);
    }

    method SetFields(txMap: map<Bytes, Bytes>, receiptMap: map<Bytes, Bytes>, extraData: Bytes)
      requires TrieHash.ShortMap(txMap) && TrieHash.ShortMap(receiptMap)
      modifies this`current
      ensures current == old(current).(
        logBloom := engine.bloom(receipts), gasUsed := GasUsed(engine, receipts),
        transactionsRoot := TrieHash.Root256(engine.hash, txMap), receiptsRoot := TrieHash.Root256(engine.hash, receiptMap),
        sha3Uncles := engine.hash(currentUncles), stateRoot := engine.rootHash(state),
        parentHash := PreviousHash(), extraData := if |extraData| > 32 then extraData[..32] else extraData)
    {
      current := current.(logBloom := engine.bloom(receipts), gasUsed := GasUsed(engine, receipts));
      var transactionsRoot := TrieHash.Hash256(engine.hash, txMap);
      var receiptsRoot := TrieHash.Hash256(engine.hash, receiptMap);
      current := current.(transactionsRoot := transactionsRoot, receiptsRoot := receiptsRoot, sha3Uncles := engine.hash(currentUncles), stateRoot := engine.rootHash(state));
      current := current.(parentHash := PreviousHash(), extraData := extraData);
      if |current.extraData| > 32 {
        current := current.(extraData := current.extraData[..32]);
      }
    }

    lemma FilledPromises(txMap: map<Bytes, Bytes>, receiptMap: map<Bytes, Bytes>)
      requires ChainOk(engine.hash, info, tree) && PreviousHash() in tree.blocks
      requires current.parentHash == PreviousHash() && |transactions| <= SIZE_LIMIT
      requires MayCite(tree, PreviousHash(), current.number, uncles)
      requires currentTxs == Encode(List(TxItems())) && currentUncles == Encode(List(HeaderItems(UncleHeaders())))
      requires txMap == Indexed(Encodings(TxItems())) && current.transactionsRoot == TrieHash.Root256(engine.hash, txMap)
      requires receiptMap == Indexed(Encodings(Items(engine.receiptItem, receipts)))
      requires current.receiptsRoot == TrieHash.Root256(engine.hash, receiptMap) && current.sha3Uncles == engine.hash(currentUncles)
      requires current.logBloom == engine.bloom(receipts) && current.gasUsed == GasUsed(engine, receipts)
      requires state == WithRewards(current) && current.stateRoot == engine.rootHash(state)
      ensures PromisedBy(current)
    {
      hide Encode, Fits, Indexed, Encodings, Rewarded, Uncles.Acceptable, Items, HeaderItems, ChainOk;
    }

    /** Selects the uncles and compiles the lists. */
    method FillLists(t: Uncles.Tree)
      returns (txMap: map<Bytes, Bytes>, receiptMap: map<Bytes, Bytes>, headers: seq<Header>)
      requires Lawful(engine) && ChainOk(engine.hash, info, t) && Follows(t)
      requires |receipts| == |transactions| < SIZE_LIMIT && Fits(List(TxItems()))
      modifies this`currentTxs, this`currentUncles, this`tree, this`uncles
      ensures tree == t && MayCite(tree, PreviousHash(), current.number, uncles) && |uncles| <= 2
      ensures headers == UncleHeaders()
      ensures currentTxs == Encode(List(TxItems())) && currentUncles == Encode(List(HeaderItems(UncleHeaders())))
      ensures txMap == Indexed(Encodings(TxItems()))
      ensures receiptMap == Indexed(Encodings(Items(engine.receiptItem, receipts)))
      ensures TrieHash.ShortMap(txMap) && TrieHash.ShortMap(receiptMap)
    {
      hide Encode, Fits, Indexed, Items, HeaderItems, MayCite, ChainOk, Lawful, TrieHash.ShortMap;
      headers := ChooseUncles(t);
      txMap, receiptMap, currentTxs := CompileTransactions();
      ShortTransactions(engine, transactions);
      ShortReceipts(engine, receipts);
      IndexedShort(Encodings(TxItems()));
      IndexedShort(Encodings(Items(engine.receiptItem, receipts)));
    }

    /** The previous block is one of the chain, and the new one is to follow it. */
    ghost predicate Follows(t: Uncles.Tree)
      reads `current
    {
      PreviousHash() in t.blocks && t.blocks[PreviousHash()].number + 1 == current.number
    }

    method ChooseUncles(t: Uncles.Tree) returns (headers: seq<Header>)
      requires ChainOk(engine.hash, info, t) && Follows(t)
      modifies this`currentUncles, this`tree, this`uncles
      ensures tree == t && MayCite(tree, PreviousHash(), current.number, uncles) && |uncles| <= 2 && headers == UncleHeaders()
      ensures currentUncles == Encode(List(HeaderItems(UncleHeaders())))
    {
      hide Encode, Fits, HeaderItems, Uncles.Acceptable, Uncles.TreeOk, Uncles.AcceptableUncle, Uncles.MissedBy, ChainOk, HashOf;
      hide Uncles.YoungFirst, Uncles.Candidate, Uncles.Headers;
      TreeIsOk(engine.hash, info, t);
      var selected := Uncles.SelectUncles(t, PreviousHash());
      UnclesFit(engine.hash, info, t, PreviousHash(), selected);
      headers := Infos(info, selected);
      currentUncles := CompileUncles(headers);
      tree, uncles := t, selected;
    }

    /** sealBlock: compiles the block if it is committed and the header is its own but for the seal. */
    method SealBlock(data: Bytes) returns (ok: bool)
      requires Valid()
      requires committed && ReadHeader(data).Some? ==>
        var header := ReadHeader(data).value;
        && Fits(Unsealed(header)) && Fits(Unsealed(current))
        && CollisionFree(engine.hash, iset{Encode(Unsealed(header)), Encode(Unsealed(current))})
        && Fits(BlockItem(header, TxItems(), UncleHeaders()))
      modifies this`current, this`currentBytes, this`state
      ensures Valid()
      ensures ok <==> committed && exists seal :: ReadHeader(data) == Some(old(current).(seal := seal))
      ensures ok ==> IsSealed() && Some(current) == ReadHeader(data) && state == plain
      ensures !ok ==> current == old(current) && currentBytes == old(currentBytes) && state == old(state)
    {
      hide Encode, Fits, PromisedBy, WithRewards, Items, HeaderItems, HeaderItem, Unsealed, BlockItem, Replay, CollisionFree;
      hide ReadHeader, Lawful, Writable;
      if !committed {
        return false;
      }
      var read := ReadHeader(data);
      if read.None? {
        return false;
      }
      var header := read.value;
      ReadHeaderExact(data, header);
      SealLeftOut(current, header.seal);
      OtherSeals(header);
      if engine.hash(Encode(Unsealed(header))) != engine.hash(Encode(Unsealed(current))) {
        return false;
      }
      SameUnsealed(engine.hash, header, current);
      SealDoesNotMatter(current, header.seal);
      SameRewards(current, header.seal);
      CurrentLists();
      currentBytes := CompileBlock(header, data, currentTxs, currentUncles, TxItems(), UncleHeaders());
      current := header;
      state := precommit;
      ok := true;
    }

    lemma OtherSeals(header: Header)
      ensures forall seal :: header == current.(seal := seal) ==> Unsealed(header) == Unsealed(current)
    {
    }

    /** What has been sealed keeps every promise of its header, and its uncles are acceptable. */
    lemma SealedKeepsPromises()
      requires Valid() && IsSealed() && recorded && HashOf(engine.hash, current) !in tree.blocks
      ensures Uncles.TreeOk(tree) && PreviousHash() in tree.blocks && current.parentHash == PreviousHash()
      ensures RootsMatch(engine, current, TxItems(), HeaderItems(UncleHeaders()))
      ensures RunMatches(engine, previous, current, transactions, UncleHeaders())
      ensures var hash := engine.hash;
        Uncles.Acceptable(tree, PreviousHash(), current.number, HashOf(hash, current), UnclesOf(hash, UncleHeaders()))
    {
      hide HashOf, Fits, Rewarded, Indexed, HeaderItem, Uncles.Acceptable, Replay, StartAfter, Lawful, MadeFrom;
      assert UnclesOf(engine.hash, UncleHeaders()) == Uncles.Headers(tree, uncles);
    }

    /** The parts of a sealed block are read back as what they were. */
    lemma PartsReadBack()
      requires Valid() && IsSealed()
      ensures ReadHeader(Encode(HeaderItem(current))) == Some(current)
      ensures ReadAll(engine.readTx, Encodings(TxItems())) == Some(transactions)
      ensures ReadAll(ReadHeader, Encodings(HeaderItems(UncleHeaders()))) == Some(UncleHeaders())
    {
      hide Encode, HeaderItem, ReadHeader, Replay, Uncles.Acceptable, Uncles.TreeOk, RootsMatch, Rewarded;
      ReadHeaderExact(Encode(HeaderItem(current)), current);
      ReadAllWritten(engine.readTx, engine.txItem, transactions);
      var headers := UncleHeaders();
      forall i | 0 <= i < |headers|
        ensures ReadHeader(Encode(HeaderItem(headers[i]))) == Some(headers[i])
      {
        assert uncles[i] in tree.blocks;
        ReadHeaderExact(Encode(HeaderItem(headers[i])), headers[i]);
      }
      ReadAllWritten(ReadHeader, HeaderItem, headers);
    }

    /** A committed header passes every check against the one before, if its extra data may stand and the one before has
      enough gas and no last number. */
    lemma CommittedVerifies()
      requires Valid() && committed && recorded
      requires SealEngine.Legal(engine.params) && SealEngine.GasLimitInRange(engine.params, previous.gasLimit)
      ensures HeaderPasses(engine, current, previous) <==> MayStand(engine, current, previous)
    {
      hide HashOf, Rewarded, Indexed, Uncles.Acceptable, SealEngine.Verify, SealEngine.Legal, SealEngine.GasLimit;
      hide SealEngine.Difficulty, SealEngine.DaoMarked, Replay, ChainOk, MayCite, RootsMatch;
      GasStaysBelow(engine, Surroundings(current), StartAfter(engine, previous), transactions);
      var header := Sketch(engine.hash, current);
      SealEngine.ChildVerifies(engine.params, header, Sketch(engine.hash, previous), current.gasUsed);
      assert SealEngine.Child(engine.params, header, Sketch(engine.hash, previous)).(gasUsed := current.gasUsed) == header;
    }

    /** Maps and list of the transactions and their receipts. */
    method CompileTransactions() returns (txMap: map<Bytes, Bytes>, receiptMap: map<Bytes, Bytes>, txs: Bytes)
      requires |receipts| == |transactions| < SIZE_LIMIT && Fits(List(TxItems()))
      ensures txMap == Indexed(Encodings(TxItems()))
      ensures receiptMap == Indexed(Encodings(Items(engine.receiptItem, receipts)))
      ensures txs == Encode(List(TxItems()))
    {
      hide Encode, Fits, Key, Indexed, Encodings, EncodeAll, TrieHash.Inside, MapInsert;
      ghost var items, receiptItems := TxItems(), Items(engine.receiptItem, receipts);
      SizeOfList(items);
      NothingIndexed();
      var stream := new RlpStream.Stream();
      ListBegun(|items|);
      var ok := stream.AppendList(|transactions|);
      txMap, receiptMap := map[], map[];
      for i := 0 to |transactions|
        invariant TrieHash.Inside(stream.Value(), |items|, items[..i])
        invariant txMap == Indexed(Encodings(items[..i])) && receiptMap == Indexed(Encodings(receiptItems[..i]))
      {
        var k := Key(i);
        MapStep(items, i);
        MapStep(receiptItems, i);
        receiptMap := MapInsert(receiptMap, k, Encode(engine.receiptItem(receipts[i])));
        var tx := Encode(engine.txItem(transactions[i]));
        txMap := MapInsert(txMap, k, tx);
        PrefixSize(items, i + 1);
        assert items[..i + 1] == items[..i] + [items[i]];
        AppendItem(stream, |items|, items[..i], tx, items[i]);
      }
      assert items[..|items|] == items && receiptItems[..|items|] == receiptItems;
      WholeList(stream.Value(), items);
      txs := stream.out;
    }
  }

  /** The checks of the seal engine on a header and the one before. */
  ghost predicate HeaderPasses<S, T, R>(e: Engine<S, T, R>, header: Header, previous: Header)
    requires SealEngine.Usable(e.params)
  {
    SealEngine.Verify(e.params, SealEngine.CheckEverything, Sketch(e.hash, header), Sketch(e.hash, previous)) == None
  }

  /** Nothing but this can keep a header that was made by the block from passing. */
  ghost predicate MayStand<S, T, R>(e: Engine<S, T, R>, header: Header, previous: Header) {
    && previous.number + 1 < SealEngine.UNSIGNED && previous.gasLimit >= e.params.gasLimitBoundDivisor
    && |header.extraData| <= e.params.maximumExtraDataSize
    && SealEngine.DaoMarked(e.params, Sketch(e.hash, header))
  }

  /** The gas used by transactions never exceeds the limit. */
  lemma {:induction false} GasStaysBelow<S(!new), T(!new), R(!new)>(e: Engine<S, T, R>, env: Env, s: S, txs: seq<T>)
    requires Lawful(e) && Replay(e, env, s, txs).Some?
    ensures GasUsed(e, Replay(e, env, s, txs).value.1) <= env.gasLimit
  {
    hide Encode;
    if txs != [] {
      GasStaysBelow(e, env, s, txs[..|txs| - 1]);
    }
  }

  lemma ReplaySnoc<S(!new), T(!new), R(!new)>(e: Engine<S, T, R>, env: Env, s: S, txs: seq<T>, t: T)
    requires Replay(e, env, s, txs).Some?
    ensures var (state, receipts) := Replay(e, env, s, txs).value;
      var result := e.execute(Committed, env, GasUsed(e, receipts), state, t);
      Replay(e, env, s, txs + [t]) == if result.None? then None else Some((result.value.0, receipts + [result.value.1]))
  {
    assert (txs + [t])[..|txs|] == txs;
  }

  lemma {:induction false} ReceiptsMatch<S(!new), T(!new), R(!new)>(e: Engine<S, T, R>, env: Env, s: S, txs: seq<T>)
    ensures Replay(e, env, s, txs).Some? ==> |Replay(e, env, s, txs).value.1| == |txs|
  {
    if txs != [] {
      ReceiptsMatch(e, env, s, txs[..|txs| - 1]);
    }
  }

  lemma TreeIsOk(hash: HashFn, info: Hash -> Header, t: Uncles.Tree)
    requires ChainOk(hash, info, t)
    ensures Uncles.TreeOk(t)
  {
  }

  /** The uncles selected are headers of the chain, small enough to be listed. */
  lemma UnclesFit(hash: HashFn, info: Hash -> Header, t: Uncles.Tree, previous: Hash, selected: seq<Hash>)
    requires ChainOk(hash, info, t) && Uncles.AllKnown(t, selected) && |selected| <= 2
    ensures Fits(List(HeaderItems(Infos(info, selected))))
  {
    hide Encode, HeaderItem, Uncles.TreeOk, Fits;
    var items := HeaderItems(Infos(info, selected));
    assert forall i :: 0 <= i < |items| ==> Fits(items[i]) && |Encode(items[i])| < 0x1_0000;
    ShortList(items);
  }

  lemma ShortList(items: seq<Item>)
    requires |items| <= 2 && forall i :: 0 <= i < |items| ==> Fits(items[i]) && |Encode(items[i])| < 0x1_0000
    ensures Fits(List(items))
  {
    hide Encode;
    if |items| > 0 {
      assert EncodeAll(items) == Encode(items[0]) + EncodeAll(items[1..]);
      if |items| > 1 {
        assert EncodeAll(items[1..]) == Encode(items[1]) + EncodeAll(items[1..][1..]);
      }
    }
  }

  /** The uncles are written behind each other, and then as one list. */
  method CompileUncles(headers: seq<Header>) returns (out: Bytes)
    requires Fits(List(HeaderItems(headers)))
    ensures out == Encode(List(HeaderItems(headers)))
  {
    hide Encode, Fits;
    ghost var items := HeaderItems(headers);
    var data := new RlpStream.Stream();
    for i := 0 to |headers|
      invariant data.Value() == RlpStream.State(EncodeAll(items[..i]), [])
    {
      assert items[..i + 1] == items[..i] + [items[i]];
      RlpStream.EncodeAllConcat(items[..i], [items[i]]);
      RlpStream.EncodeOne(items[i]);
      var _ := data.AppendRaw(Encode(HeaderItem(headers[i])), 1);
    }
    assert items[..|headers|] == items;
    ListOfRaw(items);
    var stream := new RlpStream.Stream();
    var ok := stream.AppendList(|headers|);
    ok := stream.AppendRaw(data.out, |headers|);
    out := stream.out;
  }

  /** appendList, then all items at once. */
  lemma ListOfRaw(items: seq<Item>)
    requires Fits(List(items))
    ensures var first := RlpStream.Apply(RlpStream.Call.AppendList(|items|), RlpStream.State([], []));
      first.Some? && RlpStream.Apply(RlpStream.Call.AppendRaw(EncodeAll(items), |items|), first.value)
        == Some(RlpStream.State(Encode(List(items)), []))
  {
    hide Encode, Fits;
    var script := RlpStream.Script.Nest([RlpStream.Script.PutRaw(items)]);
    OnePart(items);
    RlpStream.StreamingRefinesEncode(script, List(items));
    TwoCalls(RlpStream.Call.AppendList(|items|), RlpStream.Call.AppendRaw(EncodeAll(items), |items|),
             RlpStream.State([], []));
  }

  lemma OnePart(items: seq<Item>)
    ensures var script := RlpStream.Script.Nest([RlpStream.Script.PutRaw(items)]);
      && RlpStream.ItemsOf(script) == [List(items)]
      && RlpStream.CallsOf(script) == [RlpStream.Call.AppendList(|items|), RlpStream.Call.AppendRaw(EncodeAll(items), |items|)]
  {
    hide EncodeAll;
    var put := RlpStream.Script.PutRaw(items);
    assert [put][1..] == [];
    assert RlpStream.ItemsOfAll([put]) == items + RlpStream.ItemsOfAll([]);
    assert RlpStream.ItemsOfAll([put]) == items;
    assert RlpStream.CallsOfAll([put]) == RlpStream.CallsOf(put) + RlpStream.CallsOfAll([]);
  }

  lemma TwoCalls(a: RlpStream.Call, b: RlpStream.Call, st: RlpStream.State)
    requires RlpStream.Valid(st) && RlpStream.ApplyAll([a, b], st).Some?
    ensures RlpStream.Apply(a, st).Some?
    ensures RlpStream.Apply(b, RlpStream.Apply(a, st).value) == RlpStream.ApplyAll([a, b], st)
  {
    hide RlpStream.Apply;
    assert [a, b][1..] == [b];
    RlpStream.ApplyOne(b, RlpStream.Apply(a, st).value);
  }

  /** The block is the list of the header, the transactions and the uncles. */
  method CompileBlock(ghost header: Header, data: Bytes, txs: Bytes, uncles: Bytes, ghost txItems: seq<Item>,
      ghost uncleHeaders: seq<Header>) returns (out: Bytes)
    requires data == Encode(HeaderItem(header)) && txs == Encode(List(txItems)) && uncles == Encode(List(HeaderItems(uncleHeaders)))
    requires Fits(BlockItem(header, txItems, uncleHeaders))
    ensures out == Encode(BlockItem(header, txItems, uncleHeaders)) && out != []
  {
    hide Encode, Fits, HeaderItem, HeaderItems, TrieHash.Inside;
    ghost var items := BlockItem(header, txItems, uncleHeaders).items;
    SizeOfList(items);
    PrefixSize(items, 1);
    PrefixSize(items, 2);
    assert items[..1] == [items[0]] && items[..2] == [items[0], items[1]];
    assert [] + [items[0]] == [items[0]] && [items[0]] + [items[1]] == [items[0], items[1]];
    assert [items[0], items[1]] + [items[2]] == items;
    var stream := new RlpStream.Stream();
    ListBegun(3);
    var ok := stream.AppendList(3);
    AppendItem(stream, 3, [], data, items[0]);
    AppendItem(stream, 3, [items[0]], txs, items[1]);
    AppendItem(stream, 3, [items[0], items[1]], uncles, items[2]);
    out := stream.out;
    WholeList(stream.Value(), items);
    PartSize(BlockItem(header, txItems, uncleHeaders), 0);
  }

  lemma WholeList(st: RlpStream.State, items: seq<Item>)
    requires TrieHash.Inside(st, |items|, items)
    ensures st.out == Encode(List(items))
  {
  }

  method AppendItem(stream: RlpStream.Stream, ghost total: nat, ghost items: seq<Item>, raw: Bytes, ghost item: Item)
    requires TrieHash.Inside(stream.Value(), total, items) && |items| < total && |EncodeAll(items + [item])| < LENGTH_LIMIT
    requires raw == Encode(item)
    modifies stream
    ensures TrieHash.Inside(stream.Value(), total, items + [item])
  {
    hide Encode, TrieHash.Inside;
    RawInside(stream.Value(), total, items, item);
    var _ := stream.AppendRaw(raw, 1);
  }

  /** insert of a std::map, which keeps what is there. */
  function MapInsert(m: map<Bytes, Bytes>, key: Bytes, value: Bytes): map<Bytes, Bytes> {
    if key in m then m else m[key := value]
  }

  lemma MapStep(items: seq<Item>, i: nat)
    requires i < |items| && i < SIZE_LIMIT
    ensures MapInsert(Indexed(Encodings(items[..i])), Key(i), Encode(items[i])) == Indexed(Encodings(items[..i + 1]))
  {
    hide Encode, Key;
    NewKey(Encodings(items[..i]), i);
    EncodingsSnoc(items, i);
  }

  lemma NothingIndexed()
    ensures Indexed(Encodings([])) == map[]
  {
  }

  /** What has to hold of the parts of a block to be imported. */
  ghost predicate Importable<S, T, R>(e: Engine<S, T, R>, t: Uncles.Tree, previous: Header, header: Header,
      txItems: seq<Item>, txs: seq<T>, uncleItems: seq<Item>, uncles: seq<Header>)
    requires SealEngine.Usable(e.params)
  {
    && header.parentHash == HashOf(e.hash, previous) && HeaderPasses(e, header, previous)
    && RootsMatch(e, header, txItems, uncleItems)
    && Uncles.Acceptable(t, HashOf(e.hash, previous), header.number, HashOf(e.hash, header), UnclesOf(e.hash, uncles))
    && RunMatches(e, previous, header, txs, uncles)
  }

  /** The transactions, one after the other: each sees the gas used so far, and its state goes to the next. */
  ghost predicate Runs<S, T, R>(e: Engine<S, T, R>, env: Env, states: seq<S>, txs: seq<T>, receipts: seq<R>) {
    && |states| == |txs| + 1 && |receipts| == |txs|
    && forall i :: 0 <= i < |txs| ==>
         e.execute(Committed, env, if i == 0 then 0 else e.cumulativeGas(receipts[i - 1]), states[i], txs[i])
           == Some((states[i + 1], receipts[i]))
  }

  lemma {:induction false} ReplayRuns<S(!new), T(!new), R(!new)>(e: Engine<S, T, R>, env: Env, s: S, txs: seq<T>)
    returns (states: seq<S>)
    requires Replay(e, env, s, txs).Some?
    ensures var (after, receipts) := Replay(e, env, s, txs).value;
      Runs(e, env, states, txs, receipts) && states[0] == s && states[|txs|] == after
  {
    if txs == [] {
      states := [s];
    } else {
      var last := |txs| - 1;
      var front := ReplayRuns(e, env, s, txs[..last]);
      states := front + [Replay(e, env, s, txs).value.0];
    }
  }

  lemma {:induction false} RunsReplay<S(!new), T(!new), R(!new)>(e: Engine<S, T, R>, env: Env, states: seq<S>, txs: seq<T>,
      receipts: seq<R>)
    requires Runs(e, env, states, txs, receipts)
    ensures Replay(e, env, states[0], txs) == Some((states[|txs|], receipts))
  {
    if txs != [] {
      var last := |txs| - 1;
      RunsReplay(e, env, states[..|txs|], txs[..last], receipts[..last]);
      assert receipts == receipts[..last] + [receipts[last]];
    }
  }

  /** The accounts credited for a block with up to two uncles, outright. */
  function Credited<S, T, R>(e: Engine<S, T, R>, s: S, number: nat, author: Address, uncles: seq<Header>): S
    requires |uncles| <= 2 && Recent(uncles, number)
  {
    var reward := e.blockReward(number);
    var s1 := if |uncles| > 0 then e.addBalance(s, uncles[0].author, Eighths(reward, 8 - (number - uncles[0].number))) else s;
    var s2 := if |uncles| > 1 then e.addBalance(s1, uncles[1].author, Eighths(reward, 8 - (number - uncles[1].number))) else s1;
    e.addBalance(s2, author, reward + |uncles| * (reward / 32))
  }

  lemma RewardedIsCredited<S, T, R>(e: Engine<S, T, R>, s: S, number: nat, author: Address, uncles: seq<Header>)
    requires |uncles| <= 2 && Recent(uncles, number) && e.blockReward(number) < VmCode.WORD_LIMIT / 8
    ensures Rewarded(e, s, number, author, uncles) == Credited(e, s, number, author, uncles)
  {
    hide UncleReward, AuthorReward, Eighths;
    var reward := e.blockReward(number);
    AuthorCredited(reward, |uncles|);
    forall i | 0 <= i < |uncles|
      ensures UncleReward(reward, uncles[i].number, number) == Eighths(reward, 8 - (number - uncles[i].number))
    {
      UncleCredited(reward, uncles[i].number, number);
    }
    if |uncles| > 0 {
      OneRewarded(e, s, number, uncles[..1], reward);
      if |uncles| == 1 {
        assert uncles[..1] == uncles;
      }
    }
  }

  lemma OneRewarded<S, T, R>(e: Engine<S, T, R>, s: S, number: nat, uncles: seq<Header>, reward: nat)
    requires |uncles| == 1
    ensures UnclesRewarded(e, s, number, uncles, reward)
      == e.addBalance(s, uncles[0].author, UncleReward(reward, uncles[0].number, number))
  {
    assert uncles[..0] == [];
  }

  lemma UncleCredited(reward: nat, uncleNumber: nat, number: nat)
    requires reward < VmCode.WORD_LIMIT / 8 && 1 <= number - uncleNumber <= 6
    ensures UncleReward(reward, uncleNumber, number) == Eighths(reward, 8 - (number - uncleNumber))
  {
    RewardAmounts(reward, number, number - uncleNumber);
  }

  /** What the results of a run promise, in full. */
  ghost predicate Delivers<S, T, R>(e: Engine<S, T, R>, previous: Header, header: Header, states: seq<S>, txs: seq<T>,
      receipts: seq<R>, uncles: seq<Header>)
    requires |uncles| <= 2 && Recent(uncles, header.number)
  {
    && Runs(e, Env(header.author, header.number, header.timestamp, header.difficulty, header.gasLimit), states, txs, receipts)
    && states[0] == e.begin(previous.number + 1, HashOf(e.hash, previous), e.setRoot(previous.stateRoot))
    && header.receiptsRoot == TrieHash.Root256(e.hash, Indexed(Encodings(Items(e.receiptItem, receipts))))
    && header.logBloom == e.bloom(receipts)
    && header.gasUsed == (if receipts == [] then 0 else e.cumulativeGas(receipts[|receipts| - 1]))
    && (header.stateRoot == previous.stateRoot ||
        header.stateRoot ==
          e.rootHash(e.commit(header.number, Credited(e, states[|txs|], header.number, header.author, uncles))))
  }

  lemma MatchesDelivers<S(!new), T(!new), R(!new)>(e: Engine<S, T, R>, previous: Header, header: Header, txs: seq<T>,
      uncles: seq<Header>)
    requires |uncles| <= 2 && Recent(uncles, header.number) && e.blockReward(header.number) < VmCode.WORD_LIMIT / 8
    ensures RunMatches(e, previous, header, txs, uncles) <==>
      exists states, receipts :: Delivers(e, previous, header, states, txs, receipts, uncles)
  {
    hide Rewarded, Credited, Indexed, TrieHash.Root256, HashOf, Recent;
    var env, start := Surroundings(header), StartAfter(e, previous);
    if RunMatches(e, previous, header, txs, uncles) {
      var states := ReplayRuns(e, env, start, txs);
      RewardedIsCredited(e, states[|txs|], header.number, header.author, uncles);
      assert Delivers(e, previous, header, states, txs, Replay(e, env, start, txs).value.1, uncles);
    }
    if states, receipts :| Delivers(e, previous, header, states, txs, receipts, uncles) {
      RunsReplay(e, env, states, txs, receipts);
      RewardedIsCredited(e, states[|txs|], header.number, header.author, uncles);
    }
  }

  /** The rules for a header after another, in full. */
  ghost predicate HeaderRules<S, T, R>(e: Engine<S, T, R>, header: Header, previous: Header)
    requires SealEngine.Usable(e.params)
  {
    && header.parentHash == HashOf(e.hash, previous)
    && header.number == previous.number + 1 && header.number <= 0xFFFF_FFFF
    && header.timestamp > previous.timestamp
    && header.gasUsed <= header.gasLimit
    && e.params.minGasLimit <= header.gasLimit <= e.params.maxGasLimit
    && SealEngine.CloserThan(header.gasLimit, previous.gasLimit, previous.gasLimit, e.params.gasLimitBoundDivisor)
    && |header.extraData| <= e.params.maximumExtraDataSize
    && (e.params.daoHardforkBlock != 0 && 0 <= header.number - e.params.daoHardforkBlock < 10 ==>
          header.extraData == [0x64, 0x61, 0x6f, 0x2d, 0x68, 0x61, 0x72, 0x64, 0x2d, 0x66, 0x6f, 0x72, 0x6b])
    && header.difficulty >= e.params.minimumDifficulty
    && SealEngine.Difficulty(e.params, header.number, header.timestamp,
         SealEngine.Header(HashOf(e.hash, previous), previous.parentHash, previous.sha3Uncles != e.hash([0xc0]), previous.number,
           previous.timestamp, previous.difficulty, previous.gasLimit, previous.gasUsed, previous.extraData))
       == Some(header.difficulty)
  }

  lemma HeaderRulesPass<S, T, R>(e: Engine<S, T, R>, header: Header, previous: Header)
    requires SealEngine.Usable(e.params) && previous.gasLimit < VmCode.WORD_LIMIT / 2
    requires HashOf(e.hash, previous) != ZERO_HASH
    ensures header.parentHash == HashOf(e.hash, previous) && HeaderPasses(e, header, previous) <==> HeaderRules(e, header, previous)
  {
    hide HashOf, SealEngine.Verify, SealEngine.Difficulty, SealEngine.CloserThan;
    assert Encode(List([])) == [0xc0];
    if header.parentHash == HashOf(e.hash, previous) {
      SealEngine.PassesExactly(e.params, Sketch(e.hash, header), Sketch(e.hash, previous));
    }
  }

  /** What it takes to be imported, with every rule written out: no check can be left out, and there is no other. The rules for
    uncles are written out in Uncles.AcceptableExactly. */
  lemma ImportableExactly<S(!new), T(!new), R(!new)>(e: Engine<S, T, R>, t: Uncles.Tree, previous: Header, header: Header,
      txItems: seq<Item>, txs: seq<T>, uncleItems: seq<Item>, uncles: seq<Header>)
    requires Uncles.TreeOk(t) && HashOf(e.hash, previous) in t.blocks && SealEngine.Usable(e.params)
    requires previous.gasLimit < VmCode.WORD_LIMIT / 2 && e.blockReward(header.number) < VmCode.WORD_LIMIT / 8
    ensures Importable(e, t, previous, header, txItems, txs, uncleItems, uncles) <==>
      && HeaderRules(e, header, previous)
      && header.transactionsRoot == TrieHash.Root256(e.hash, Indexed(Encodings(txItems)))
      && header.sha3Uncles == e.hash(Encode(List(uncleItems)))
      && Uncles.Acceptable(t, HashOf(e.hash, previous), header.number, HashOf(e.hash, header), UnclesOf(e.hash, uncles))
      && |uncles| <= 2 && Recent(uncles, header.number)
      && exists states, receipts :: Delivers(e, previous, header, states, txs, receipts, uncles)
  {
    hide HashOf, Encode, HeaderPasses, HeaderRules, RunMatches, Delivers, Indexed, TrieHash.Root256;
    Uncles.GenesisFacts(t);
    HeaderRulesPass(e, header, previous);
    if Uncles.Acceptable(t, HashOf(e.hash, previous), header.number, HashOf(e.hash, header), UnclesOf(e.hash, uncles)) {
      AcceptedAreRecent(e.hash, t, HashOf(e.hash, previous), header.number, HashOf(e.hash, header), uncles);
      MatchesDelivers(e, previous, header, txs, uncles);
    }
  }

  lemma AcceptedAreRecent(hash: HashFn, t: Uncles.Tree, previous: Hash, number: nat, current: Hash, uncles: seq<Header>)
    requires Uncles.TreeOk(t) && previous in t.blocks
    requires Uncles.Acceptable(t, previous, number, current, UnclesOf(hash, uncles))
    ensures |uncles| <= 2 && Recent(uncles, number)
  {
    hide HashOf, Uncles.TreeOk, Uncles.KinOf;
    Uncles.AcceptableExactly(t, previous, number, current, UnclesOf(hash, uncles));
    forall i | 0 <= i < |uncles|
      ensures 1 <= number - uncles[i].number <= 6
    {
      assert UnclesOf(hash, uncles)[i].number == uncles[i].number;
    }
  }

  /** Two blocks that are imported after the same one, by the same author at the same time and with the same gas limit,
    transactions and uncles, agree in everything that is computed; only extra data and seal are free, and the state root
    may be that of the block before. */
  lemma ImportedAgree<S, T, R>(e: Engine<S, T, R>, t: Uncles.Tree, previous: Header, a: Header, b: Header,
      txItems: seq<Item>, txs: seq<T>, uncleItems: seq<Item>, uncles: seq<Header>)
    requires SealEngine.Usable(e.params)
    requires Importable(e, t, previous, a, txItems, txs, uncleItems, uncles)
    requires Importable(e, t, previous, b, txItems, txs, uncleItems, uncles)
    requires a.timestamp == b.timestamp
    ensures a.parentHash == b.parentHash && a.number == b.number && a.difficulty == b.difficulty
    ensures a.transactionsRoot == b.transactionsRoot && a.sha3Uncles == b.sha3Uncles
    ensures a.author == b.author && a.gasLimit == b.gasLimit ==>
      && a.receiptsRoot == b.receiptsRoot && a.logBloom == b.logBloom && a.gasUsed == b.gasUsed
      && (a.stateRoot == b.stateRoot || a.stateRoot == previous.stateRoot || b.stateRoot == previous.stateRoot)
      && a == b.(stateRoot := a.stateRoot, extraData := a.extraData, seal := a.seal)
  {
    hide HashOf, Encode, Rewarded, Indexed, TrieHash.Root256, SealEngine.Difficulty, Uncles.Acceptable, StartAfter, Replay;
    hide SealEngine.InWindow, SealEngine.DaoMarked;
  }

  /** Import of a block after a known one: its parts are read from its bytes, its header is checked against the one before
    and against the bytes, and its transactions are run from the state the block before has left. */
  method ImportBlock<S(!new), T(!new), R(!new)>(e: Engine<S, T, R>, t: Uncles.Tree, previous: Header, block: Bytes,
      ghost headerItem: Item, ghost txItems: seq<Item>, ghost uncleItems: seq<Item>) returns (accepted: bool)
    requires Uncles.TreeOk(t) && HashOf(e.hash, previous) in t.blocks && Lawful(e)
    requires block == Encode(BlockList(headerItem, txItems, uncleItems)) && Fits(BlockList(headerItem, txItems, uncleItems))
    requires |block| < SIZE_LIMIT
    ensures var header, txs := ReadHeader(Encode(headerItem)), ReadAll(e.readTx, Encodings(txItems));
      var uncles := ReadAll(ReadHeader, Encodings(uncleItems));
      accepted <==>
        && header.Some? && txs.Some? && uncles.Some?
        && Importable(e, t, previous, header.value, txItems, txs.value, uncleItems, uncles.value)
  {
    assert SealEngine.Usable(e.params);
    hide Encode, Fits, ReadHeader, Lawful, HashOf, RootsMatch, RunMatches, Uncles.Acceptable, Uncles.TreeOk, SealEngine.Verify;
    hide Sketch;
    BlockParts(headerItem, txItems, uncleItems);
    ShortParts(txItems);
    var root := new RlpView.View(block);
    var headerData := root.At(0);
    var txList := root.At(1);
    var uncleList := root.At(2);
    var header := ReadHeader(headerData);
    var txData := AllItems(txList, txItems);
    var txs, txsOk := ReadEach(e.readTx, txData);
    var uncleData := AllItems(uncleList, uncleItems);
    var uncles, unclesOk := ReadEach(ReadHeader, uncleData);
    if header.None? || !txsOk || !unclesOk {
      return false;
    }
    if header.value.parentHash != HashOf(e.hash, previous) {
      return false;
    }
    var own, parent := Sketch(e.hash, header.value), Sketch(e.hash, previous);
    if SealEngine.Verify(e.params, SealEngine.CheckEverything, own, parent).Some? {
      return false;
    }
    var badRoots := VerifyRoots(e, header.value, block, headerItem, txItems, uncleItems);
    if badRoots.Some? {
      return false;
    }
    var badRun := Enact(e, t, previous, header.value, txs, uncles);
    accepted := badRun == None;
  }

  /** The block that has been built and sealed is imported from its bytes if and only if its header may stand. */
  method ImportSealed<S(!new), T(!new), R(!new)>(block: Block<S, T, R>, t: Uncles.Tree) returns (accepted: bool)
    requires block.Valid() && block.IsSealed() && block.recorded && |block.currentBytes| < SIZE_LIMIT && t == block.tree
    requires HashOf(block.engine.hash, block.current) !in t.blocks
    requires SealEngine.Legal(block.engine.params)
    requires SealEngine.GasLimitInRange(block.engine.params, block.previous.gasLimit)
    ensures accepted <==> MayStand(block.engine, block.current, block.previous)
  {
    hide HashOf, Encode, Fits, HeaderItem, Replay, RootsMatch, RunMatches, Uncles.Acceptable, Uncles.TreeOk;
    hide SealEngine.Verify, SealEngine.DaoMarked, Sketch, MadeFrom, ReadHeader, HeaderItems, Items;
    block.SealedKeepsPromises();
    block.CommittedVerifies();
    block.PartsReadBack();
    accepted := ImportBlock(block.engine, t, block.previous, block.currentBytes,
                            HeaderItem(block.current), block.TxItems(), HeaderItems(block.UncleHeaders()));
  }
}
