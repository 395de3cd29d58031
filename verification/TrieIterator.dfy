/** Walking the trie in key order (libdevcore/TrieDB.h:505-666, 668-765). */
module TrieIteration {
  import opened Bytes
  import opened Rlp
  import opened TrieCommon
  import opened TrieNode
  import opened TrieEncoding
  import opened Trie
  import opened TrieHistory

  datatype KeyValue = KeyValue(key: Nibbles, value: Bytes)

  // ---------------------------------------------------------------- the entries in order

  function Under(prefix: Nibbles, entries: seq<KeyValue>): (under: seq<KeyValue>)
    ensures |under| == |entries|
    ensures forall i :: 0 <= i < |entries| ==> under[i] == KeyValue(prefix + entries[i].key, entries[i].value)
  {
    if entries == [] then []
    else [KeyValue(prefix + entries[0].key, entries[0].value)] + Under(prefix, entries[1..])
  }

  /** All entries of the trie, the value of a branch before what is below it. */
  function Entries(n: Node): seq<KeyValue>
    requires Shape(n)
    decreases n, 0
  {
    match n
    case Null => []
    case Leaf(key, value) => [KeyValue(key, value)]
    case Extension(key, child) => Under(key, Entries(child))
    case Branch(children, slot) => SlotEntry(slot) + EntriesFrom(children, 0)
  }

  function SlotEntry(slot: Option<Bytes>): seq<KeyValue> {
    if SlotBytes(slot) == [] then [] else [KeyValue([], SlotBytes(slot))]
  }

  function EntriesFrom(children: seq<Node>, i: nat): seq<KeyValue>
    requires |children| == 16 && forall j :: 0 <= j < 16 ==> Shape(children[j])
    decreases children, 17 - i
  {
    if i >= 16 then [] else Under([i], Entries(children[i])) + EntriesFrom(children, i + 1)
  }

  ghost predicate Sorted(entries: seq<KeyValue>) {
    forall i, j :: 0 <= i < j < |entries| ==> Earlier(entries[i].key, entries[j].key)
  }

  lemma EarlierUnder(p: Nibbles, a: Nibbles, b: Nibbles)
    ensures Earlier(p + a, p + b) <==> Earlier(a, b)
  {
    var s := Shared(a, b);
    assert (p + a)[..|p| + s] == p + a[..s] && (p + b)[..|p| + s] == p + b[..s];
    SharedAt(p + a, p + b, |p| + s);
  }

  lemma EarlierSteps(a: Nibbles, b: Nibbles)
    ensures b == [] ==> !Earlier(a, b)
    ensures a == [] && b != [] ==> Earlier(a, b)
    ensures a != [] && b != [] && a[0] != b[0] ==> (Earlier(a, b) <==> a[0] < b[0])
  {
    if a == [] || b == [] || a[0] != b[0] {
      SharedAt(a, b, 0);
    }
  }

  lemma {:induction false} EntriesSorted(n: Node)
    requires Shape(n)
    ensures Sorted(Entries(n))
    decreases n, 0
  {
    match n
    case Null =>
    case Leaf(_, _) =>
    case Extension(key, child) =>
      EntriesSorted(child);
      UnderSorted(key, Entries(child));
    case Branch(children, slot) =>
      EntriesFromSorted(children, 0);
      forall b | 0 <= b < |EntriesFrom(children, 0)|
        ensures Earlier([], EntriesFrom(children, 0)[b].key)
      {
        EarlierSteps([], EntriesFrom(children, 0)[b].key);
      }
  }

  lemma UnderSorted(p: Nibbles, entries: seq<KeyValue>)
    requires Sorted(entries)
    ensures Sorted(Under(p, entries))
  {
    forall i, j | 0 <= i < j < |entries|
      ensures Earlier(Under(p, entries)[i].key, Under(p, entries)[j].key)
    {
      EarlierUnder(p, entries[i].key, entries[j].key);
    }
  }

  lemma {:induction false} EntriesFromSorted(children: seq<Node>, i: nat)
    requires |children| == 16 && forall j :: 0 <= j < 16 ==> Shape(children[j])
    ensures Sorted(EntriesFrom(children, i))
    ensures forall e :: e in EntriesFrom(children, i) ==> e.key != [] && e.key[0] >= i
    decreases children, 17 - i
  {
    assert i >= 16 ==> Sorted(EntriesFrom(children, i));
    hide Under, Entries, Sorted;
    if i < 16 {
      EntriesSorted(children[i]);
      UnderSorted([i], Entries(children[i]));
      UnderFirst(i, Entries(children[i]));
      EntriesFromSorted(children, i + 1);
      SortedAfter(Under([i], Entries(children[i])), EntriesFrom(children, i + 1), i);
    }
  }

  lemma UnderFirst(i: Nibble, entries: seq<KeyValue>)
    ensures forall e :: e in Under([i], entries) ==> e.key != [] && e.key[0] == i
  {
  }

  lemma SortedAfter(first: seq<KeyValue>, rest: seq<KeyValue>, i: nat)
    requires Sorted(first) && forall e :: e in first ==> e.key != [] && e.key[0] == i
    requires Sorted(rest) && forall e :: e in rest ==> e.key != [] && e.key[0] >= i + 1
    ensures Sorted(first + rest)
  {
    hide Earlier;
    forall a, b | 0 <= a < |first| && 0 <= b < |rest|
      ensures Earlier(first[a].key, rest[b].key)
    {
      assert first[a] in first && rest[b] in rest;
      EarlierSteps(first[a].key, rest[b].key);
    }
  }

  /** The walk covers exactly what lookup finds; only the empty value of a branch would be passed over. */
  lemma {:induction false} EntriesAreContents(n: Node, k: Nibbles, v: Bytes)
    requires Shape(n) && Visible(n)
    ensures KeyValue(k, v) in Entries(n) <==> Get(n, k) == Some(v)
    decreases n, 0
  {
    match n
    case Null =>
    case Leaf(_, _) =>
    case Extension(key, child) =>
      InUnder(key, Entries(child), k, v);
      if key <= k {
        EntriesAreContents(child, k[|key|..], v);
      }
    case Branch(children, slot) =>
      if k == [] {
        EntriesFromSorted(children, 0);
      } else {
        InEntriesFrom(children, 0, k, v);
        EntriesAreContents(children[k[0]], k[1..], v);
      }
  }

  lemma {:induction false} InUnder(p: Nibbles, entries: seq<KeyValue>, k: Nibbles, v: Bytes)
    ensures KeyValue(k, v) in Under(p, entries) <==> p <= k && KeyValue(k[|p|..], v) in entries
  {
    if entries != [] {
      InUnder(p, entries[1..], k, v);
      assert entries == [entries[0]] + entries[1..];
      if p <= k {
        assert k == p + k[|p|..];
        ConcatInjective(p, k[|p|..], entries[0].key);
      }
    }
  }

  lemma {:induction false} InEntriesFrom(children: seq<Node>, i: nat, k: Nibbles, v: Bytes)
    requires |children| == 16 && forall j :: 0 <= j < 16 ==> Shape(children[j])
    requires k != []
    ensures KeyValue(k, v) in EntriesFrom(children, i) <==> i <= k[0] && KeyValue(k[1..], v) in Entries(children[k[0]])
    decreases 17 - i
  {
    if i < 16 {
      InEntriesFrom(children, i + 1, k, v);
      InUnder([i], Entries(children[i]), k, v);
      assert [i as Nibble] <= k <==> k[0] == i;
    }
  }

  // ---------------------------------------------------------------- order against the key looked for

  /** A partial key that neither starts the key nor comes later keeps everything below it before the key. */
  lemma PartialBefore(q: Nibbles, k: Nibbles, x: Nibbles)
    requires !(q <= k)
    ensures Earlier(k, q) ==> !Earlier(q + x, k)
    ensures !Earlier(k, q) ==> Earlier(q + x, k)
  {
    var n := Shared(k, q);
    PrefixShared(k, q);
    assert (q + x)[..n] == q[..n];
    SharedAt(q + x, k, n);
  }

  lemma {:induction false} UnderUnder(p: Nibbles, q: Nibbles, entries: seq<KeyValue>)
    ensures Under(p, Under(q, entries)) == Under(p + q, entries)
  {
    forall i | 0 <= i < |entries|
      ensures Under(p, Under(q, entries))[i] == Under(p + q, entries)[i]
    {
      assert p + (q + entries[i].key) == p + q + entries[i].key;
    }
  }

  lemma UnderConcat(p: Nibbles, a: seq<KeyValue>, b: seq<KeyValue>)
    ensures Under(p, a + b) == Under(p, a) + Under(p, b)
  {
  }

  ghost predicate AllBefore(entries: seq<KeyValue>, key: Nibbles) {
    forall i :: 0 <= i < |entries| ==> Earlier(entries[i].key, key)
  }

  ghost predicate NoneBefore(entries: seq<KeyValue>, key: Nibbles) {
    forall i :: 0 <= i < |entries| ==> !Earlier(entries[i].key, key)
  }

  lemma NoneBeforeNothing(entries: seq<KeyValue>)
    ensures NoneBefore(entries, [])
  {
    forall i | 0 <= i < |entries|
      ensures !Earlier(entries[i].key, [])
    {
      EarlierSteps(entries[i].key, []);
    }
  }

  /** Whatever lies below the key looked for is not before it. */
  lemma NoneBeforeBelow(p: Nibbles, entries: seq<KeyValue>)
    ensures NoneBefore(Under(p, entries), p)
  {
    forall i | 0 <= i < |entries|
      ensures !Earlier(Under(p, entries)[i].key, p)
    {
      EarlierUnder(p, entries[i].key, []);
      EarlierSteps(entries[i].key, []);
      assert p + [] == p;
    }
  }

  /** The key after a partial key, or nothing where the two part. */
  function Kept(k: Nibbles, q: Nibbles): Nibbles {
    if q <= k then k[|q|..] else []
  }

  /** What the partial key q at a leaf or extension tells about everything below, when p + k is looked for. */
  lemma Narrowed(p: Nibbles, q: Nibbles, k: Nibbles, entries: seq<KeyValue>)
    ensures q <= k ==> p + k == p + q + Kept(k, q)
    ensures q <= k && Kept(k, q) == [] ==> NoneBefore(Under(p + q, entries), p + k)
    ensures !(q <= k) && Earlier(k, q) ==> NoneBefore(Under(p + q, entries), p + k)
    ensures !(q <= k) && !Earlier(k, q) ==> AllBefore(Under(p + q, entries), p + k)
  {
    if q <= k {
      assert k == q + k[|q|..];
      if k[|q|..] == [] {
        assert k == q;
        NoneBeforeBelow(p + q, entries);
      }
    } else {
      forall i | 0 <= i < |entries|
        ensures Earlier(Under(p + q, entries)[i].key, p + k) <==> !Earlier(k, q)
      {
        var x := entries[i].key;
        PartialBefore(q, k, x);
        EarlierUnder(p, q + x, k);
        assert p + (q + x) == p + q + x;
      }
    }
  }

  /** A leaf whose key the key looked for only extends comes before it. */
  lemma LeafBefore(p: Nibbles, k: Nibbles)
    ensures k != [] ==> Earlier(p, p + k)
  {
    EarlierUnder(p, [], k);
    EarlierSteps([], k);
    assert p + [] == p;
  }

  // ---------------------------------------------------------------- the trail

  const ENTERING := 255
  const AT_NODE := 16
  const EXITING := 17

  /** One node on the way down, with its key so far in hex-prefix form and the child the walk is at. */
  datatype Frame = Frame(rlp: Item, key: Bytes, child: nat)

  function NextChild(child: nat): nat {
    if child == AT_NODE then 0 else if child == 15 then EXITING else child + 1
  }

  /** The entries of a branch from position `child` on. */
  ghost function FromChild(n: Node, child: nat): seq<KeyValue>
    requires Shape(n) && n.Branch?
  {
    if child == AT_NODE then SlotEntry(n.slot) + EntriesFrom(n.children, 0)
    else if child < 16 then EntriesFrom(n.children, child)
    else []
  }

  /** The entries of a leaf or extension, from behind its partial key. */
  function Behind(n: Node): seq<KeyValue>
    requires Shape(n) && (n.Leaf? || n.Extension?)
  {
    if n.Leaf? then [KeyValue([], n.value)] else Entries(n.child)
  }

  /** The entries of a branch before child `i`. */
  ghost function BeforeChild(n: Node, i: nat): (entries: seq<KeyValue>)
    requires Shape(n) && n.Branch? && i <= 16
    ensures forall e :: e in entries ==> e.key == [] || e.key[0] < i
  {
    if i == 0 then SlotEntry(n.slot) else BeforeChild(n, i - 1) + Under([i - 1], Entries(n.children[i - 1]))
  }

  lemma {:induction false} BranchParted(n: Node, i: nat)
    requires Shape(n) && n.Branch? && i < 16
    ensures FromChild(n, AT_NODE) == BeforeChild(n, i) + FromChild(n, i)
  {
    hide Under, Entries;
    if i > 0 {
      BranchParted(n, i - 1);
      assert FromChild(n, i - 1) == Under([i - 1], Entries(n.children[i - 1])) + FromChild(n, i);
    }
  }

  /** What the first nibble of the key tells at a branch. */
  lemma BranchNarrowed(p: Nibbles, n: Node, k: Nibbles)
    requires Shape(n) && n.Branch? && k != []
    ensures Under(p, FromChild(n, AT_NODE)) == Under(p, BeforeChild(n, k[0])) + Under(p, FromChild(n, k[0]))
    ensures AllBefore(Under(p, BeforeChild(n, k[0])), p + k)
    ensures NoneBefore(Under(p, FromChild(n, NextChild(k[0]))), p + k)
    ensures Under(p, FromChild(n, k[0]))
      == Under(p + [k[0]], Entries(n.children[k[0]])) + Under(p, FromChild(n, NextChild(k[0])))
  {
    hide Under, Entries, EntriesFrom, SlotEntry, Earlier, BeforeChild, FromChild;
    var before, after := BeforeChild(n, k[0]), FromChild(n, NextChild(k[0]));
    BranchParted(n, k[0]);
    UnderConcat(p, before, FromChild(n, k[0]));
    LaterChildren(n, k[0]);
    UnderConcat(p, Under([k[0]], Entries(n.children[k[0]])), after);
    UnderUnder(p, [k[0]], Entries(n.children[k[0]]));
    forall i | 0 <= i < |before|
      ensures Earlier(Under(p, before)[i].key, p + k)
    {
      assert before[i] in before;
      EarlierUnder(p, before[i].key, k);
      EarlierSteps(before[i].key, k);
    }
    forall i | 0 <= i < |after|
      ensures !Earlier(Under(p, after)[i].key, p + k)
    {
      assert after[i] in after;
      EarlierUnder(p, after[i].key, k);
      EarlierSteps(after[i].key, k);
    }
  }

  lemma LaterChildren(n: Node, i: Nibble)
    requires Shape(n) && n.Branch?
    ensures FromChild(n, i) == Under([i], Entries(n.children[i])) + FromChild(n, NextChild(i))
    ensures forall e :: e in FromChild(n, NextChild(i)) ==> e.key != [] && e.key[0] > i
  {
    hide Under, Entries;
    assert EntriesFrom(n.children, 16) == [];
    assert FromChild(n, NextChild(i)) == EntriesFrom(n.children, i + 1);
    EntriesFromSorted(n.children, i + 1);
  }

  /** The entries a frame still has to give, behind the position it is at. */
  ghost function After(f: Frame, n: Node): seq<KeyValue>
    requires Shape(n)
  {
    if f.child == ENTERING then Under(KeyOf(f.key), Entries(n))
    else if n.Branch? then Under(KeyOf(f.key), FromChild(n, NextChild(f.child)))
    else []
  }

  ghost function Rest(trail: seq<Frame>, nodes: seq<Node>): seq<KeyValue>
    requires |trail| == |nodes| && forall i :: 0 <= i < |nodes| ==> Shape(nodes[i])
  {
    if trail == [] then []
    else
      var top := |trail| - 1;
      After(trail[top], nodes[top]) + Rest(trail[..top], nodes[..top])
  }

  /** The entry a stopped walk is at. */
  ghost function Current(f: Frame, n: Node): KeyValue {
    KeyValue(KeyOf(f.key), match n case Leaf(_, value) => value case Branch(_, slot) => SlotBytes(slot) case _ => [])
  }

  /** A walk stops at a leaf or at a branch that holds a value. */
  ghost predicate Stopped(f: Frame, n: Node) {
    (n.Leaf? && f.child == 0) || (n.Branch? && f.child == AT_NODE && SlotBytes(n.slot) != [])
  }

  // ---------------------------------------------------------------- termination

  function Size(n: Node): nat
    decreases n, 0
  {
    match n
    case Null => 1
    case Leaf(_, _) => 2
    case Extension(_, child) => 1 + Size(child)
    case Branch(children, _) => 2 + SizeAll(children)
  }

  function SizeAll(children: seq<Node>): nat
    decreases children, 1
  {
    if children == [] then 0 else 1 + Size(children[0]) + SizeAll(children[1..])
  }

  function SizeFrom(children: seq<Node>, i: nat): nat {
    if i >= |children| then 0 else SizeAll(children[i..])
  }

  lemma SizeFromStep(children: seq<Node>, i: nat)
    requires i < |children|
    ensures SizeFrom(children, i) == 1 + Size(children[i]) + SizeFrom(children, i + 1)
  {
    assert children[i..][1..] == children[i + 1..];
  }

  lemma {:induction false} SizeFromShrinks(children: seq<Node>, i: nat)
    requires i <= |children|
    ensures SizeFrom(children, i) <= SizeFrom(children, 0) == SizeAll(children)
  {
    if i > 0 {
      SizeFromShrinks(children, i - 1);
      SizeFromStep(children, i - 1);
    }
    assert children[0..] == children;
  }

  /** What is still to be walked from position `child` of a branch on. */
  function WeightFrom(n: Node, child: nat): nat
    requires n.Branch?
  {
    if child == AT_NODE then 2 + SizeFrom(n.children, 0) else if child < 16 then 1 + SizeFrom(n.children, child) else 1
  }

  function Weight(f: Frame, n: Node): nat {
    if f.child == ENTERING then Size(n) else if n.Branch? then WeightFrom(n, NextChild(f.child)) else 1
  }

  function TotalWeight(trail: seq<Frame>, nodes: seq<Node>): nat
    requires |trail| == |nodes|
  {
    if trail == [] then 0
    else
      var top := |trail| - 1;
      Weight(trail[top], nodes[top]) + TotalWeight(trail[..top], nodes[..top])
  }

  lemma PushFrame(trail: seq<Frame>, nodes: seq<Node>, f: Frame, n: Node)
    requires |trail| == |nodes| && (forall i :: 0 <= i < |nodes| ==> Shape(nodes[i])) && Shape(n)
    ensures Rest(trail + [f], nodes + [n]) == After(f, n) + Rest(trail, nodes)
    ensures TotalWeight(trail + [f], nodes + [n]) == Weight(f, n) + TotalWeight(trail, nodes)
  {
    assert (trail + [f])[..|trail|] == trail && (nodes + [n])[..|trail|] == nodes;
  }

  class Iterator {
    const that: TrieDB
    var trail: seq<Frame>
    ghost var nodes: seq<Node>
    ghost const live: multiset<Hash>

    /** The trie has not changed under the walk. */
    ghost predicate Ready()
      reads that, that.db
    {
      that.Serves(live, false)
    }

    ghost predicate FrameOk(f: Frame, n: Node)
    {
      && that.Known(n) && RefsBelow(that.hash, n) <= live && f.rlp == NodeItem(that.hash, n) && f.key != []
      && (f.child == ENTERING || (n.Leaf? && f.child == 0) || (n.Branch? && f.child <= AT_NODE))
    }

    ghost predicate Valid()
      reads this
    {
      && |trail| == |nodes|
      && forall i :: 0 <= i < |trail| ==> FrameOk(trail[i], nodes[i])
    }

    /** All entries behind the current position. */
    ghost function Left(): seq<KeyValue>
      requires Valid()
      reads this
    {
      Rest(trail, nodes)
    }

    ghost predicate AtEntry()
      requires Valid()
      reads this
    {
      trail != [] && Stopped(trail[|trail| - 1], nodes[|nodes| - 1])
    }

    ghost function Here(): KeyValue
      requires Valid() && AtEntry()
      reads this
    {
      Current(trail[|trail| - 1], nodes[|nodes| - 1])
    }

    /** What is left including the entry the walk stopped at. */
    ghost function FromHere(): seq<KeyValue>
      requires Valid()
      reads this
    {
      if AtEntry() then [Here()] + Left() else Left()
    }

    /** The iterator as begin() makes it: before all entries, then moved to the first. */
    constructor Begin(that: TrieDB, ghost live: multiset<Hash>)
      requires that.Valid() && that.Serves(live, false) && RootRefs(that.hash, that.tree) <= live
      ensures this.that == that && this.live == live && Valid()
      ensures trail == [] || AtEntry()
      ensures FromHere() == Entries(that.tree)
    {
      this.that, this.live := that, live;
      trail, nodes := [], [];
      new;
      EnterRoot();
      WalkOn();
    }

    /** lower_bound(): before all entries, then moved to the first that is not before the key. */
    constructor LowerBound(that: TrieDB, key: Nibbles, ghost live: multiset<Hash>)
      requires that.Valid() && that.Serves(live, false) && RootRefs(that.hash, that.tree) <= live
      ensures this.that == that && this.live == live && Valid()
      ensures trail == [] || AtEntry()
      ensures exists passed ::
        Entries(that.tree) == passed + FromHere() && AllBefore(passed, key) && NoneBefore(FromHere(), key)
    {
      this.that, this.live := that, live;
      trail, nodes := [], [];
      new;
      ghost var passed := Start(key);
    }

    /** Enters the root and walks on to the first entry that is not before the key. */
    method Start(key: Nibbles) returns (ghost passed: seq<KeyValue>)
      requires that.Valid() && that.Serves(live, false) && RootRefs(that.hash, that.tree) <= live
      modifies this`trail, this`nodes
      ensures Valid() && (trail == [] || AtEntry())
      ensures Entries(that.tree) == passed + FromHere() && AllBefore(passed, key) && NoneBefore(FromHere(), key)
    {
      hide FrameOk, Rest, TotalWeight, KeyOf, Stopped, Earlier, Entries, Under, Current;
      EnterRoot();
      FirstAim(key);
      passed := Walk(key, key);
    }

    lemma FirstAim(key: Nibbles)
      requires Valid() && |trail| == 1 && trail[0].child == ENTERING && KeyOf(trail[0].key) == []
      requires Rest(trail[..0], nodes[..0]) == []
      ensures Aimed(key, key)
    {
      hide FrameOk, KeyOf, Earlier, Entries, Under;
      assert [] + key == key;
      if key == [] {
        NoneBeforeNothing(Left());
      }
    }

    /** Moves on to the next entry, and past the end after the last. */
    method Next()
      requires Valid() && Ready() && AtEntry()
      modifies this`trail, this`nodes
      ensures Valid() && (trail == [] || AtEntry())
      ensures old(FromHere()) == [old(Here())] + FromHere()
    {
      WalkOn();
    }

    /** Reads the current entry and moves on. */
    method Take() returns (pair: Pair)
      requires Valid() && Ready() && trail != [] && AtEntry() && |FromHere()[0].key| % 2 == 0
      modifies this`trail, this`nodes
      ensures Valid() && (trail == [] || AtEntry())
      ensures old(FromHere()) == [KeyValue(Unpack(pair.key), pair.value)] + FromHere()
    {
      hide Rest, KeyOf, FrameOk, Current, Stopped, Unpack;
      var key, value := At();
      pair := Pair(key, value);
      Next();
    }

    /** at(): the key in bytes and the value. Only keys of whole bytes can be read. */
    method At() returns (key: Bytes, value: Bytes)
      requires Valid() && AtEntry() && |Here().key| % 2 == 0
      ensures Here() == KeyValue(Unpack(key), value)
    {
      hide NodeItem, Ref, Unpack;
      var f := trail[|trail| - 1];
      ghost var n := nodes[|nodes| - 1];
      ItemKind(that.hash, n);
      that.BranchEntries(n);
      key := f.key[1..];
      UnpackTail(f.key);
      value := f.rlp.items[if |f.rlp.items| == 2 then 1 else 16].bytes;
    }

    lemma UnpackTail(data: Bytes)
      requires data != []
      ensures Unpack(data)[2..] == Unpack(data[1..])
    {
      forall i | 0 <= i < 2 * (|data| - 1)
        ensures Unpack(data)[i + 2] == Unpack(data[1..])[i]
      {
        UnpackAt(data, i + 2);
        UnpackAt(data[1..], i);
      }
    }

    method EnterRoot()
      requires that.Valid() && that.Serves(live, false) && RootRefs(that.hash, that.tree) <= live
      modifies this`trail, this`nodes
      ensures Valid() && |trail| == 1 && trail[0].child == ENTERING && KeyOf(trail[0].key) == []
      ensures Left() == Entries(that.tree) && Rest(trail[..0], nodes[..0]) == []
    {
      hide Encode, Decode, NodeItem, KeyOf;
      var item := that.ReadNode(that.root, that.tree, live, false);
      assert RefsBelow(that.hash, that.tree) <= RootRefs(that.hash, that.tree);
      // one null byte is the hex-prefix form of the empty key
      trail, nodes := [Frame(item, [0], ENTERING)], [that.tree];
      EmptyKey();
      PushFrame([], [], Frame(item, [0], ENTERING), that.tree);
      UnderNothing(Entries(that.tree));
    }

    lemma EmptyKey()
      ensures KeyOf([0]) == []
    {
      assert Unpack([0]) == [0, 0];
    }

    lemma UnderNothing(entries: seq<KeyValue>)
      ensures Under([], entries) == entries
    {
      forall i | 0 <= i < |entries|
        ensures Under([], entries)[i] == entries[i]
      {
        assert [] + entries[i].key == entries[i].key;
      }
    }

    // -------------------------------------------------------------- the loop without a key

    /** next() without a key: walks on to the next entry. */
    method WalkOn()
      requires Valid() && Ready()
      modifies this`trail, this`nodes
      ensures Valid() && (trail == [] || AtEntry())
      ensures FromHere() == old(Left())
    {
      hide FrameOk, Rest, TotalWeight, KeyOf, Stopped;
      while trail != []
        invariant Valid() && Left() == old(Left())
        decreases TotalWeight(trail, nodes)
      {
        var stopped := TurnOn();
        if stopped {
          return;
        }
      }
      NothingLeft();
    }

    lemma NotAtEnd()
      requires Valid() && AtEntry()
      ensures |FromHere()| > 0
    {
    }

    lemma NothingLeft()
      requires Valid() && trail == []
      ensures FromHere() == Left() == []
    {
    }

    /** One turn stops at the next entry, or has less to walk. */
    method TurnOn() returns (stopped: bool)
      requires Valid() && Ready() && trail != []
      modifies this`trail, this`nodes
      ensures Valid()
      ensures stopped ==> AtEntry() && FromHere() == old(Left())
      ensures !stopped ==> Left() == old(Left()) && TotalWeight(trail, nodes) < old(TotalWeight(trail, nodes))
    {
      hide NodeItem, Rest, TotalWeight, KeyOf, Entries, EntriesFrom, Under, FrameOk, FromChild, WeightFrom, Size, Ref;
      var f := trail[|trail| - 1];
      ghost var n := nodes[|nodes| - 1];
      ghost var front, below := trail[..|trail| - 1], nodes[..|nodes| - 1];
      assert FrameOk(f, n);
      TopShaped();
      PushFrame(front, below, f, n);
      TopKnown(front, below, f, n);
      if f.child == ENTERING {
        stopped := EnterOn(front, below, f, n);
      } else {
        ItemKind(that.hash, n);
        SeenIsLeafOrBranch(f, n);
        if |f.rlp.items| != 17 {
          Leave(front, below, f, n);
          stopped := false;
        } else {
          var k;
          stopped, k := Scan(NextChild(f.child), [], front, below, f, n);
        }
      }
    }

    lemma SeenIsLeafOrBranch(f: Frame, n: Node)
      requires FrameOk(f, n) && f.child != ENTERING
      ensures f.rlp.List? && (|f.rlp.items| == 17 <==> n.Branch?) && (n.Leaf? || (n.Branch? && f.child <= AT_NODE))
    {
      ItemKind(that.hash, n);
      BranchItemCount(n);
    }

    method EnterOn(ghost front: seq<Frame>, ghost below: seq<Node>, ghost f: Frame, ghost n: Node) returns (stopped: bool)
      requires Valid() && Ready() && OnTop(front, below, f, n) && f.child == ENTERING
      modifies this`trail, this`nodes
      ensures Valid()
      ensures stopped ==> AtEntry() && FromHere() == After(f, n) + Rest(front, below)
      ensures !stopped ==>
        Left() == After(f, n) + Rest(front, below) && TotalWeight(trail, nodes) < Weight(f, n) + TotalWeight(front, below)
    {
      hide NodeItem, EntriesFrom, Rest, TotalWeight, KeyOf, LeafOf, HexPrefix, Under, FromChild, WeightFrom, Ref, FrameOk;
      TopKnown(front, below, f, n);
      ItemKind(that.hash, n);
      BranchItemCount(n);
      var top := trail[|trail| - 1];
      if EmptyItem(top.rlp) {
        NothingUnder(KeyOf(f.key));
        Leave(front, below, f, n);
        stopped := false;
      } else if |top.rlp.items| == 2 {
        TwoItemsWhole(n, KeyOf(f.key));
        var key := HexPrefix(KeyOf(top.key) + KeyOf(top.rlp.items[0].bytes), false);
        HexPrefixRoundTrip(KeyOf(f.key) + n.key, false);
        if LeafOf(top.rlp.items[0].bytes) {
          LeafEntry(n, KeyOf(f.key));
          AtLeaf(key, front, below, f, n);
          stopped := true;
        } else {
          ThroughExtension(key, front, below, f, n);
          stopped := false;
        }
      } else {
        BranchWhole(n, []);
        var k;
        stopped, k := Scan(AT_NODE, [], front, below, f, n);
      }
    }

    // -------------------------------------------------------------- the loop with a key

    /** What is left of the key looked for leads on from the node being entered; once it is used up, nothing before the
      key is left. */
    ghost predicate Aimed(k: Nibbles, target: Nibbles)
      requires Valid()
      reads this
    {
      if k == [] then NoneBefore(Left(), target)
      else
        trail != [] &&
        var top := |trail| - 1;
        trail[top].child == ENTERING && target == KeyOf(trail[top].key) + k
        && NoneBefore(Rest(trail[..top], nodes[..top]), target)
    }

    /** The same for the node on top that is being entered, in terms of its entries and of the rest. */
    ghost predicate Toward(k: Nibbles, target: Nibbles, p: Nibbles, inside: seq<KeyValue>, rest: seq<KeyValue>) {
      && NoneBefore(rest, target)
      && if k == [] then NoneBefore(Under(p, inside), target) else target == p + k
    }

    lemma AimedOnTop(k: Nibbles, target: Nibbles, front: seq<Frame>, below: seq<Node>, f: Frame, n: Node)
      requires Valid() && OnTop(front, below, f, n) && f.child == ENTERING
      ensures Aimed(k, target) <==> Toward(k, target, KeyOf(f.key), Entries(n), Rest(front, below))
    {
      hide Earlier, KeyOf, Entries, Under, Rest;
      PushFrame(front, below, f, n);
      assert trail[..|trail| - 1] == front && nodes[..|nodes| - 1] == below;
      NoneBeforeBoth(Under(KeyOf(f.key), Entries(n)), Rest(front, below), target);
    }

    lemma NoneBeforeBoth(a: seq<KeyValue>, b: seq<KeyValue>, target: Nibbles)
      ensures NoneBefore(a + b, target) <==> NoneBefore(a, target) && NoneBefore(b, target)
    {
      hide Earlier;
      if NoneBefore(a + b, target) {
        forall i | 0 <= i < |a|
          ensures !Earlier(a[i].key, target)
        {
          assert (a + b)[i] == a[i];
        }
        forall i | 0 <= i < |b|
          ensures !Earlier(b[i].key, target)
        {
          assert (a + b)[|a| + i] == b[i];
        }
      }
    }

    /** One turn of the loop passes over some entries before the key, and either stops or has less to walk. */
    ghost predicate Turned(stopped: bool, k: Nibbles, passed: seq<KeyValue>, all: seq<KeyValue>, weight: nat, target: Nibbles)
      reads this
    {
      && Valid() && AllBefore(passed, target)
      && if stopped then AtEntry() && all == passed + FromHere() && NoneBefore(FromHere(), target)
         else all == passed + Left() && Aimed(k, target) && TotalWeight(trail, nodes) < weight
    }

    /** next() with a key: walks on to the next entry that is not before the key. */
    method Walk(start: Nibbles, ghost target: Nibbles) returns (ghost passed: seq<KeyValue>)
      requires Valid() && Ready() && Aimed(start, target)
      modifies this`trail, this`nodes
      ensures Valid() && (trail == [] || AtEntry())
      ensures old(Left()) == passed + FromHere() && AllBefore(passed, target) && NoneBefore(FromHere(), target)
    {
      hide FrameOk, Rest, TotalWeight, KeyOf, Stopped, Earlier;
      var k := start;
      passed := [];
      while trail != []
        invariant Valid() && Aimed(k, target)
        invariant old(Left()) == passed + Left() && AllBefore(passed, target)
        decreases TotalWeight(trail, nodes)
      {
        ghost var skipped;
        var stopped;
        stopped, k, skipped := Turn(k, target);
        passed := passed + skipped;
        if stopped {
          return;
        }
      }
    }

    method Turn(k: Nibbles, ghost target: Nibbles) returns (stopped: bool, k': Nibbles, ghost passed: seq<KeyValue>)
      requires Valid() && Ready() && trail != [] && Aimed(k, target)
      modifies this`trail, this`nodes
      ensures Turned(stopped, k', passed, old(Left()), old(TotalWeight(trail, nodes)), target)
    {
      hide NodeItem, Rest, TotalWeight, After, Weight, KeyOf, Entries, Under, FrameOk, Aimed, Turned, Toward;
      var f := trail[|trail| - 1];
      ghost var n := nodes[|nodes| - 1];
      ghost var front, below := trail[..|trail| - 1], nodes[..|nodes| - 1];
      assert FrameOk(f, n);
      TopShaped();
      PushFrame(front, below, f, n);
      if f.child == ENTERING {
        AimedOnTop(k, target, front, below, f, n);
        stopped, k', passed := Enter(k, target, front, below, f, n);
      } else {
        NotEntering(k, target);
        stopped, k', passed := Continue(target, front, below, f, n);
      }
    }

    lemma TopShaped()
      requires Valid() && trail != []
      ensures OnTop(trail[..|trail| - 1], nodes[..|nodes| - 1], trail[|trail| - 1], nodes[|nodes| - 1])
    {
    }

    lemma NotEntering(k: Nibbles, target: Nibbles)
      requires Valid() && trail != [] && trail[|trail| - 1].child != ENTERING && Aimed(k, target)
      ensures NoneBefore(Left(), target)
    {
    }

    /** The node on top is seen for the first time. */
    method Enter(k: Nibbles, ghost target: Nibbles,
        ghost front: seq<Frame>, ghost below: seq<Node>, ghost f: Frame, ghost n: Node)
      returns (stopped: bool, k': Nibbles, ghost passed: seq<KeyValue>)
      requires Valid() && Ready() && OnTop(front, below, f, n) && f.child == ENTERING
      requires Toward(k, target, KeyOf(f.key), Entries(n), Rest(front, below))
      modifies this`trail, this`nodes
      ensures Turned(stopped, k', passed, After(f, n) + Rest(front, below), Weight(f, n) + TotalWeight(front, below), target)
    {
      hide NodeItem, EntriesFrom, Rest, TotalWeight, KeyOf, Ref, Earlier, FrameOk;
      TopKnown(front, below, f, n);
      ItemKind(that.hash, n);
      BranchItemCount(n);
      var item := trail[|trail| - 1].rlp;
      if EmptyItem(item) {
        Leave(front, below, f, n);
        assert Under(KeyOf(f.key), Entries(n)) == [];
        stopped, k', passed := false, [], [];
      } else if |item.items| == 2 {
        stopped, k', passed := EnterTwoItems(k, target, front, below, f, n);
      } else {
        stopped, k', passed := EnterBranch(k, target, front, below, f, n);
      }
    }

    lemma BranchItemCount(n: Node)
      requires Shape(n)
      ensures n.Branch? ==> |NodeItem(that.hash, n).items| == 17
      ensures EmptyItem(NodeItem(that.hash, n)) <==> n == Null
    {
      ItemKind(that.hash, n);
    }

    /** The node on top has been seen: a leaf is done with, a branch goes on with its next child. */
    method Continue(ghost target: Nibbles, ghost front: seq<Frame>, ghost below: seq<Node>, ghost f: Frame, ghost n: Node)
      returns (stopped: bool, k': Nibbles, ghost passed: seq<KeyValue>)
      requires Valid() && Ready() && OnTop(front, below, f, n) && f.child != ENTERING && FrameOk(f, n)
      requires NoneBefore(After(f, n) + Rest(front, below), target)
      modifies this`trail, this`nodes
      ensures Turned(stopped, k', passed, After(f, n) + Rest(front, below), Weight(f, n) + TotalWeight(front, below), target)
    {
      hide NodeItem, Under, Entries, EntriesFrom, FromChild, WeightFrom, Rest, TotalWeight, KeyOf, Ref, Earlier;
      ItemKind(that.hash, n);
      var top := trail[|trail| - 1];
      passed := [];
      if |top.rlp.items| != 17 {
        assert n.Leaf? && After(f, n) == [];
        Leave(front, below, f, n);
        stopped, k' := false, [];
        assert After(f, n) + Rest(front, below) == Left();
      } else {
        stopped, k' := Scan(NextChild(top.child), [], front, below, f, n);
      }
    }

    /** Entering a branch: at its value, or at the child the key leads to. */
    method EnterBranch(k: Nibbles, ghost target: Nibbles,
        ghost front: seq<Frame>, ghost below: seq<Node>, ghost f: Frame, ghost n: Node)
      returns (stopped: bool, k': Nibbles, ghost passed: seq<KeyValue>)
      requires Valid() && Ready() && OnTop(front, below, f, n) && n.Branch? && f.child == ENTERING
      requires Toward(k, target, KeyOf(f.key), Entries(n), Rest(front, below))
      modifies this`trail, this`nodes
      ensures Turned(stopped, k', passed, After(f, n) + Rest(front, below), Weight(f, n) + TotalWeight(front, below), target)
    {
      hide NodeItem, Entries, Under, EntriesFrom, SlotEntry, Rest, TotalWeight, FromChild, KeyOf, Earlier, FrameOk, Aimed, Size;
      hide WeightFrom, BeforeChild;
      ghost var p := KeyOf(f.key);
      BranchWhole(n, k);
      if k == [] {
        stopped, k' := Scan(AT_NODE, [], front, below, f, n);
        NoneBeforeBoth(Under(p, FromChild(n, AT_NODE)), Rest(front, below), target);
        passed := [];
      } else {
        BranchNarrowed(p, n, k);
        stopped, k' := Scan(k[0], k[1..], front, below, f, n);
        NoneBeforeBoth(Under(p, FromChild(n, k[0])), Rest(front, below), target);
        passed := Under(p, BeforeChild(n, k[0]));
        if n.children[k[0]] == Null {
          NothingUnder(p + [k[0]]);
        } else {
          AimedBelow(k, target, front, below, f, n);
        }
      }
      StillAimed(k', target);
    }

    lemma NothingUnder(p: Nibbles)
      ensures Under(p, Entries(Null)) == []
    {
    }

    lemma StillAimed(k: Nibbles, target: Nibbles)
      requires Valid()
      ensures k == [] && NoneBefore(Left(), target) ==> Aimed(k, target)
    {
    }

    /** The child the key leads to has been entered. */
    lemma AimedBelow(k: Nibbles, target: Nibbles, front: seq<Frame>, below: seq<Node>, f: Frame, n: Node)
      requires Valid() && n.Branch? && Shape(n) && k != [] && EnteredChild(front, below, f, n, k[0])
      requires |front| == |below| && forall i :: 0 <= i < |below| ==> Shape(below[i])
      requires NoneBefore(Rest(front, below), target) && target == KeyOf(f.key) + k
      ensures Aimed(k[1..], target)
    {
      hide NodeItem, Entries, Under, Rest, FromChild, KeyOf, Earlier, Valid, Aimed, NoneBefore, Toward;
      var p, c, g := KeyOf(f.key), n.children[k[0]], f.(child := k[0]);
      EnteredOnTop(front, below, f, n, k[0]);
      RestNotBefore(k, p, front, below, g, n);
      NoneBeforeBelow(p + [k[0]], Entries(c));
      TowardBelow(k, p, Entries(c), Rest(front + [g], below + [n]));
      AimedOnTop(k[1..], target, front + [g], below + [n], trail[|front| + 1], c);
    }

    lemma EnteredOnTop(front: seq<Frame>, below: seq<Node>, f: Frame, n: Node, child: Nibble)
      requires n.Branch? && Shape(n) && EnteredChild(front, below, f, n, child)
      requires |front| == |below| && forall i :: 0 <= i < |below| ==> Shape(below[i])
      ensures OnTop(front + [f.(child := child)], below + [n], trail[|front| + 1], n.children[child])
    {
      hide KeyOf;
      assert trail == trail[..|front| + 1] + [trail[|front| + 1]];
    }

    lemma RestNotBefore(k: Nibbles, p: Nibbles, front: seq<Frame>, below: seq<Node>, g: Frame, n: Node)
      requires n.Branch? && Shape(n) && k != [] && g.child == k[0] && p == KeyOf(g.key)
      requires |front| == |below| && forall i :: 0 <= i < |below| ==> Shape(below[i])
      requires NoneBefore(Rest(front, below), p + k)
      ensures NoneBefore(Rest(front + [g], below + [n]), p + k)
    {
      hide Entries, Under, Rest, FromChild, KeyOf, Earlier, NoneBefore;
      BranchNarrowed(p, n, k);
      PushFrame(front, below, g, n);
      NoneBeforeBoth(Under(p, FromChild(n, NextChild(k[0]))), Rest(front, below), p + k);
    }

    lemma TowardBelow(k: Nibbles, p: Nibbles, inside: seq<KeyValue>, rest: seq<KeyValue>)
      requires k != [] && NoneBefore(rest, p + k) && NoneBefore(Under(p + [k[0]], inside), p + [k[0]])
      ensures Toward(k[1..], p + k, p + [k[0]], inside, rest)
    {
      hide Earlier, Under;
      assert p + k == p + [k[0]] + k[1..];
      assert k[1..] == [] ==> p + k == p + [k[0]];
    }

    lemma BranchWhole(n: Node, k: Nibbles)
      requires n.Branch? && Shape(n)
      ensures Entries(n) == FromChild(n, AT_NODE)
      ensures WeightFrom(n, AT_NODE) <= Size(n)
      ensures k != [] ==> WeightFrom(n, k[0]) <= Size(n)
    {
      SizeFromShrinks(n.children, if k == [] then 0 else k[0]);
    }

    /** Entering a leaf or an extension: it is walked past if its partial key is before the key looked for. */
    method EnterTwoItems(k: Nibbles, ghost target: Nibbles,
        ghost front: seq<Frame>, ghost below: seq<Node>, ghost f: Frame, ghost n: Node)
      returns (stopped: bool, k': Nibbles, ghost passed: seq<KeyValue>)
      requires Valid() && Ready() && OnTop(front, below, f, n) && (n.Leaf? || n.Extension?) && f.child == ENTERING
      requires Toward(k, target, KeyOf(f.key), Entries(n), Rest(front, below))
      modifies this`trail, this`nodes
      ensures Turned(stopped, k', passed, After(f, n) + Rest(front, below), Weight(f, n) + TotalWeight(front, below), target)
    {
      hide NodeItem, Under, Rest, TotalWeight, KeyOf, LeafOf, HexPrefix, Ref, Earlier, FrameOk, Behind;
      ItemKind(that.hash, n);
      TopKnown(front, below, f, n);
      TwoItemsWhole(n, KeyOf(f.key));
      Narrowed(KeyOf(f.key), n.key, k, Behind(n));
      EarlierSteps(k, n.key);
      var q := KeyOf(trail[|trail| - 1].rlp.items[0].bytes);
      k' := k;
      if !(q <= k') {
        if !Earlier(k', q) {
          stopped, k', passed := PassBy(target, front, below, f, n);
          return;
        }
        k' := [];
      }
      k' := k'[if |q| < |k'| then |q| else |k'|..];
      stopped, k', passed := Arrive(k', q, target, front, below, f, n);
    }

    /** Walks past everything in the leaf or extension on top. */
    method PassBy(ghost target: Nibbles, ghost front: seq<Frame>, ghost below: seq<Node>, ghost f: Frame, ghost n: Node)
      returns (stopped: bool, k': Nibbles, ghost passed: seq<KeyValue>)
      requires Valid() && OnTop(front, below, f, n) && (n.Leaf? || n.Extension?) && f.child == ENTERING
      requires AllBefore(Under(KeyOf(f.key), Entries(n)), target) && NoneBefore(Rest(front, below), target)
      modifies this`trail, this`nodes
      ensures Turned(stopped, k', passed, After(f, n) + Rest(front, below), Weight(f, n) + TotalWeight(front, below), target)
    {
      hide Under, Rest, TotalWeight, KeyOf, Earlier, FrameOk;
      passed := Under(KeyOf(f.key), Entries(n));
      Leave(front, below, f, n);
      stopped, k' := false, [];
    }

    /** The partial key has been taken: a leaf is where the walk stops, an extension gives way to its child. */
    method Arrive(k: Nibbles, q: Nibbles, ghost target: Nibbles,
        ghost front: seq<Frame>, ghost below: seq<Node>, ghost f: Frame, ghost n: Node)
      returns (stopped: bool, k': Nibbles, ghost passed: seq<KeyValue>)
      requires Valid() && Ready() && OnTop(front, below, f, n) && (n.Leaf? || n.Extension?) && f.child == ENTERING
      requires q == n.key && Toward(k, target, KeyOf(f.key) + q, Behind(n), Rest(front, below))
      modifies this`trail, this`nodes
      ensures Turned(stopped, k', passed, After(f, n) + Rest(front, below), Weight(f, n) + TotalWeight(front, below), target)
    {
      hide NodeItem, Under, Rest, TotalWeight, KeyOf, LeafOf, HexPrefix, Ref, Earlier, FrameOk, Behind, Aimed;
      ItemKind(that.hash, n);
      TopKnown(front, below, f, n);
      TwoItemsWhole(n, KeyOf(f.key));
      var top := trail[|trail| - 1];
      var key := HexPrefix(KeyOf(top.key) + q, false);
      HexPrefixRoundTrip(KeyOf(f.key) + n.key, false);
      if LeafOf(top.rlp.items[0].bytes) {
        LeafEntry(n, KeyOf(f.key));
        if k == [] {
          NoneBeforeBoth(Under(KeyOf(f.key) + n.key, Behind(n)), Rest(front, below), target);
          AtLeaf(key, front, below, f, n);
          stopped, k', passed := true, [], [];
        } else {
          LeafBefore(KeyOf(f.key) + n.key, k);
          stopped, k', passed := PassBy(target, front, below, f, n);
        }
      } else {
        stopped, k', passed := Through(k, key, target, front, below, f, n);
      }
    }

    method Through(k: Nibbles, key: Bytes, ghost target: Nibbles,
        ghost front: seq<Frame>, ghost below: seq<Node>, ghost f: Frame, ghost n: Node)
      returns (stopped: bool, k': Nibbles, ghost passed: seq<KeyValue>)
      requires Valid() && Ready() && OnTop(front, below, f, n) && n.Extension? && f.child == ENTERING
      requires key != [] && KeyOf(key) == KeyOf(f.key) + n.key
      requires Toward(k, target, KeyOf(key), Behind(n), Rest(front, below))
      modifies this`trail, this`nodes
      ensures Turned(stopped, k', passed, After(f, n) + Rest(front, below), Weight(f, n) + TotalWeight(front, below), target)
    {
      hide NodeItem, Under, Rest, TotalWeight, KeyOf, Ref, Earlier, FrameOk, Aimed, Toward, Entries, Behind;
      stopped, k', passed := false, k, [];
      TwoItemsWhole(n, KeyOf(f.key));
      ExtensionEntries(n);
      ThroughExtension(key, front, below, f, n);
      AimedOnTop(k, target, front, below, trail[|front|], n.child);
    }

    lemma ExtensionEntries(n: Node)
      requires n.Extension? && Shape(n)
      ensures Behind(n) == Entries(n.child)
    {
    }

    /** The walk stops at the leaf on top. */
    method AtLeaf(key: Bytes, ghost front: seq<Frame>, ghost below: seq<Node>, ghost f: Frame, ghost n: Node)
      requires Valid() && OnTop(front, below, f, n) && n.Leaf? && key != [] && KeyOf(key) == KeyOf(f.key) + n.key
      modifies this`trail
      ensures Valid() && AtEntry() && FromHere() == [KeyValue(KeyOf(f.key) + n.key, n.value)] + Rest(front, below)
    {
      hide NodeItem, Rest, KeyOf;
      var top := trail[|trail| - 1];
      PushFrame(front, below, f.(key := key, child := 0), n);
      trail := trail[..|trail| - 1] + [top.(key := key, child := 0)];
    }

    /** The frame of an extension becomes that of its child. */
    method ThroughExtension(key: Bytes, ghost front: seq<Frame>, ghost below: seq<Node>, ghost f: Frame, ghost n: Node)
      requires Valid() && Ready() && OnTop(front, below, f, n) && n.Extension? && f.child == ENTERING
      requires key != [] && KeyOf(key) == KeyOf(f.key) + n.key
      modifies this`trail, this`nodes
      ensures Valid() && |trail| == |front| + 1 && trail[..|front|] == front && nodes == below + [n.child]
      ensures trail[|front|].child == ENTERING && KeyOf(trail[|front|].key) == KeyOf(f.key) + n.key
      ensures Left() == Under(KeyOf(f.key) + n.key, Entries(n.child)) + Rest(front, below)
      ensures TotalWeight(trail, nodes) == Size(n.child) + TotalWeight(front, below)
    {
      hide NodeItem, Rest, TotalWeight, KeyOf, Under, Ref, RefsBelow, LiveRefs;
      var top := trail[|trail| - 1];
      ItemKind(that.hash, n);
      ExtensionKnown(n);
      var item := that.Dereference(top.rlp.items[1], n.child, live);
      PushFrame(front, below, Frame(item, key, ENTERING), n.child);
      trail := trail[..|trail| - 1] + [Frame(item, key, ENTERING)];
      nodes := below + [n.child];
    }

    lemma ExtensionKnown(n: Node)
      requires n.Extension? && that.Known(n) && RefsBelow(that.hash, n) <= live
      ensures that.Known(n.child) && n.child != Null
      ensures LiveRefs(that.hash, n.child) <= live && RefsBelow(that.hash, n.child) <= live
    {
      hide NodeItem, OwnRef;
      assert RefsBelow(that.hash, n.child) <= LiveRefs(that.hash, n.child);
    }

    lemma TopKnown(front: seq<Frame>, below: seq<Node>, f: Frame, n: Node)
      requires Valid() && OnTop(front, below, f, n)
      ensures FrameOk(f, n)
    {
      assert trail[|front|] == f && nodes[|front|] == n;
    }

    lemma TwoItemsWhole(n: Node, p: Nibbles)
      requires Shape(n) && (n.Leaf? || n.Extension?)
      ensures Under(p, Entries(n)) == Under(p + n.key, Behind(n))
    {
      if n.Leaf? {
        LeafEntry(n, p);
      } else {
        UnderUnder(p, n.key, Entries(n.child));
      }
    }

    lemma LeafEntry(n: Node, p: Nibbles)
      requires n.Leaf?
      ensures Under(p + n.key, Behind(n)) == [KeyValue(p + n.key, n.value)]
    {
      assert p + n.key + [] == p + n.key;
    }

    /** The trail ends with this frame, for this node. */
    ghost predicate OnTop(front: seq<Frame>, below: seq<Node>, f: Frame, n: Node)
      reads this
    {
      && trail == front + [f] && nodes == below + [n] && |front| == |below|
      && Shape(n) && forall i :: 0 <= i < |below| ==> Shape(below[i])
    }

    /** The inner loop: looks for the next child in use of the branch on top, starting with `from`. Stops at the value of
      the branch, enters a child, or leaves the branch. The key is given up unless the first child looked at is
      entered. */
    method Scan(from: nat, k: Nibbles, ghost front: seq<Frame>, ghost below: seq<Node>, ghost f: Frame, ghost n: Node)
      returns (stopped: bool, k': Nibbles)
      requires Valid() && Ready() && OnTop(front, below, f, n) && n.Branch? && from <= EXITING
      modifies this`trail, this`nodes
      ensures Valid()
      ensures stopped ==>
        && !(from < 16 && n.children[from] != Null)
        && AtEntry() && FromHere() == Under(KeyOf(f.key), FromChild(n, from)) + Rest(front, below)
      ensures !stopped ==>
        && Left() == Under(KeyOf(f.key), FromChild(n, from)) + Rest(front, below)
        && TotalWeight(trail, nodes) < WeightFrom(n, from) + TotalWeight(front, below)
      ensures if !stopped && from < 16 && n.children[from] != Null
        then k' == k && EnteredChild(front, below, f, n, from)
        else k' == []
    {
      hide NodeItem, Under, Entries, EntriesFrom, Rest, TotalWeight, FromChild, WeightFrom, KeyOf, HexPrefix, Ref;
      var child;
      child, k' := SkipEmpty(from, k);
      if child == EXITING {
        NothingFrom(n, KeyOf(f.key));
        Leave(front, below, f, n);
        ExitWeight(n, from);
        stopped := false;
      } else if child == AT_NODE {
        Stop(front, below, f, n);
        stopped, k' := true, [];
      } else {
        ChildTaken(n, child, KeyOf(f.key));
        EnterChild(child, front, below, f, n);
        stopped := false;
      }
    }

    /** Drops the frame on top. */
    method Leave(ghost front: seq<Frame>, ghost below: seq<Node>, ghost f: Frame, ghost n: Node)
      requires Valid() && OnTop(front, below, f, n)
      modifies this`trail, this`nodes
      ensures Valid() && trail == front && nodes == below
    {
      hide NodeItem;
      trail, nodes := trail[..|trail| - 1], below;
    }

    /** The walk stops at the value of the branch on top. */
    method Stop(ghost front: seq<Frame>, ghost below: seq<Node>, ghost f: Frame, ghost n: Node)
      requires Valid() && OnTop(front, below, f, n) && n.Branch? && SlotBytes(n.slot) != []
      modifies this`trail
      ensures Valid() && trail == front + [f.(child := AT_NODE)] && AtEntry()
      ensures FromHere() == Under(KeyOf(f.key), FromChild(n, AT_NODE)) + Rest(front, below)
    {
      hide NodeItem, Under, Entries, EntriesFrom, Rest, FromChild, KeyOf, TotalWeight, RefsBelow;
      TopKnown(front, below, f, n);
      var top := trail[|trail| - 1];
      trail := trail[..|trail| - 1] + [top.(child := AT_NODE)];
      PushFrame(front, below, f.(child := AT_NODE), n);
      ChildTaken(n, AT_NODE, KeyOf(f.key));
    }

    /** Moves the branch on top to a child in use and pushes the frame of the child. */
    method EnterChild(child: Nibble, ghost front: seq<Frame>, ghost below: seq<Node>, ghost f: Frame, ghost n: Node)
      requires Valid() && Ready() && OnTop(front, below, f, n)
      requires n.Branch? && n.children[child] != Null
      modifies this`trail, this`nodes
      ensures Valid() && EnteredChild(front, below, f, n, child)
      ensures Left() == Under(KeyOf(f.key), Under([child], Entries(n.children[child])))
        + (Under(KeyOf(f.key), FromChild(n, NextChild(child))) + Rest(front, below))
      ensures TotalWeight(trail, nodes)
        == Size(n.children[child]) + (WeightFrom(n, NextChild(child)) + TotalWeight(front, below))
    {
      hide NodeItem, Under, Entries, Rest, TotalWeight, WeightFrom, FromChild, KeyOf, HexPrefix, Ref, RefsBelow, LiveRefs;
      ghost var c := n.children[child];
      var top := trail[|trail| - 1];
      BranchItems(n);
      ChildKnown(n, child);
      var item := that.Dereference(top.rlp.items[child], c, live);
      var key := HexPrefix(KeyOf(top.key) + [child], false);
      HexPrefixRoundTrip(KeyOf(f.key) + [child], false);
      ghost var g := f.(child := child);
      PushFrame(front, below, g, n);
      PushFrame(front + [g], nodes, Frame(item, key, ENTERING), c);
      UnderUnder(KeyOf(f.key), [child], Entries(c));
      trail := trail[..|trail| - 1] + [top.(child := child)] + [Frame(item, key, ENTERING)];
      nodes := nodes + [c];
    }

    /** The first child in use from a position on; the key is given up on the first step. */
    method SkipEmpty(from: nat, k: Nibbles) returns (child: nat, k': Nibbles)
      requires Valid() && trail != [] && nodes[|nodes| - 1].Branch? && from <= EXITING
      ensures var n := nodes[|nodes| - 1];
        && child <= EXITING
        && FromChild(n, child) == FromChild(n, from) && WeightFrom(n, child) <= WeightFrom(n, from)
        && (child < 16 ==> n.children[child] != Null) && (child == AT_NODE ==> SlotBytes(n.slot) != [])
        && (child == from ==> k' == k || (from == EXITING && k' == []))
        && (child != from ==> k' == [] && !(from < 16 && n.children[from] != Null))
        && (child == EXITING ==> k' == [])
    {
      hide NodeItem, FromChild, WeightFrom;
      ghost var n := nodes[|nodes| - 1];
      BranchItems(n);
      var items := trail[|trail| - 1].rlp.items;
      child, k' := from, k;
      while child != EXITING && EmptyItem(items[child])
        invariant child <= EXITING
        invariant FromChild(n, child) == FromChild(n, from) && WeightFrom(n, child) <= WeightFrom(n, from)
        invariant child == from ==> k' == k
        invariant child != from ==> k' == [] && !(from < 16 && n.children[from] != Null)
        decreases if child == AT_NODE then 18 else EXITING - child
      {
        EmptyChild(n, child);
        child := NextChild(child);
        k' := [];
      }
      if child == EXITING {
        k' := [];
      }
    }

    lemma NothingFrom(n: Node, p: Nibbles)
      requires n.Branch? && Shape(n)
      ensures Under(p, FromChild(n, EXITING)) == []
    {
    }

    lemma ExitWeight(n: Node, from: nat)
      requires n.Branch?
      ensures WeightFrom(n, from) > 0
    {
    }

    /** The trail ends with the branch at this child and the child being entered. */
    ghost predicate EnteredChild(front: seq<Frame>, below: seq<Node>, f: Frame, n: Node, child: Nibble)
      requires n.Branch? && Shape(n)
      reads this
    {
      && nodes == below + [n] + [n.children[child]]
      && |trail| == |front| + 2 && trail[..|front| + 1] == front + [f.(child := child)]
      && trail[|front| + 1].child == ENTERING
      && KeyOf(trail[|front| + 1].key) == KeyOf(f.key) + [child]
    }

    lemma BranchItems(n: Node)
      requires n.Branch? && Shape(n)
      ensures var item := NodeItem(that.hash, n);
        && item.List? && |item.items| == 17
        && (forall i :: 0 <= i < 16 ==> item.items[i] == Ref(that.hash, n.children[i]))
        && (forall i :: 0 <= i < 16 ==> (EmptyItem(item.items[i]) <==> n.children[i] == Null))
        && (EmptyItem(item.items[16]) <==> SlotBytes(n.slot) == [])
    {
      that.BranchEntries(n);
      forall i | 0 <= i < 16
        ensures EmptyItem(Ref(that.hash, n.children[i])) <==> n.children[i] == Null
      {
        RefKind(that.hash, n.children[i]);
      }
    }

    lemma EmptyChild(n: Node, child: nat)
      requires n.Branch? && Shape(n) && child <= AT_NODE
      requires child < 16 ==> n.children[child] == Null
      requires child == AT_NODE ==> SlotBytes(n.slot) == []
      ensures FromChild(n, NextChild(child)) == FromChild(n, child)
      ensures WeightFrom(n, NextChild(child)) <= WeightFrom(n, child)
    {
      if child < 16 {
        SizeFromStep(n.children, child);
        assert Under([child], Entries(Null)) == [];
        assert EntriesFrom(n.children, 16) == [];
      }
    }

    lemma ChildTaken(n: Node, child: nat, p: Nibbles)
      requires n.Branch? && Shape(n) && child <= AT_NODE
      requires child == AT_NODE ==> SlotBytes(n.slot) != []
      ensures child == AT_NODE ==>
        Under(p, FromChild(n, child)) == [KeyValue(p, SlotBytes(n.slot))] + Under(p, FromChild(n, NextChild(child)))
      ensures child < 16 ==>
        && Under(p, FromChild(n, child)) == Under(p, Under([child], Entries(n.children[child]))) + Under(p, FromChild(n, NextChild(child)))
        && WeightFrom(n, NextChild(child)) + Size(n.children[child]) < WeightFrom(n, child)
    {
      if child < 16 {
        SizeFromStep(n.children, child);
        assert EntriesFrom(n.children, 16) == [];
        assert FromChild(n, NextChild(child)) == EntriesFrom(n.children, child + 1);
        UnderConcat(p, Under([child], Entries(n.children[child])), EntriesFrom(n.children, child + 1));
      } else {
        UnderConcat(p, SlotEntry(n.slot), EntriesFrom(n.children, 0));
        assert p + [] == p;
      }
    }

    lemma ChildKnown(n: Node, child: Nibble)
      requires n.Branch? && that.Known(n) && RefsBelow(that.hash, n) <= live
      ensures that.Known(n.children[child])
      ensures LiveRefs(that.hash, n.children[child]) <= live && RefsBelow(that.hash, n.children[child]) <= live
    {
      hide NodeItem, OwnRef, AllRefs;
      SplitChildRefs(that.hash, n.children, child);
      assert RefsBelow(that.hash, n.children[child]) <= LiveRefs(that.hash, n.children[child]);
    }
  }

  // ---------------------------------------------------------------- a whole walk

  datatype Pair = Pair(key: Bytes, value: Bytes)

  /** The pairs are the entries, with their keys in bytes. */
  ghost predicate InBytes(pairs: seq<Pair>, entries: seq<KeyValue>) {
    |pairs| == |entries| && forall i :: 0 <= i < |pairs| ==> entries[i] == KeyValue(Unpack(pairs[i].key), pairs[i].value)
  }

  lemma NoPairs()
    ensures InBytes([], [])
  {
  }

  lemma OneMorePair(pairs: seq<Pair>, passed: seq<KeyValue>, pair: Pair)
    requires InBytes(pairs, passed)
    ensures InBytes(pairs + [pair], passed + [KeyValue(Unpack(pair.key), pair.value)])
  {
  }

  /** Walking a trie from begin() to the end. */
  method Collect(trie: TrieDB, ghost live: multiset<Hash>) returns (pairs: seq<Pair>)
    requires trie.Valid() && trie.Serves(live, false) && RootRefs(trie.hash, trie.tree) <= live
    requires forall e :: e in Entries(trie.tree) ==> |e.key| % 2 == 0
    ensures InBytes(pairs, Entries(trie.tree))
  {
    hide Entries, RootRefs, Unpack, InBytes, Iterator.FromHere, Iterator.Valid, Iterator.AtEntry, NodeStore.Serves;
    NoPairs();
    var it := new Iterator.Begin(trie, live);
    pairs := [];
    ghost var passed: seq<KeyValue> := [];
    while it.trail != []
      invariant it.that == trie && it.live == live && it.Valid() && (it.trail == [] || it.AtEntry())
      invariant passed + it.FromHere() == Entries(trie.tree) && InBytes(pairs, passed)
      decreases |it.FromHere()|
    {
      it.NotAtEnd();
      assert it.FromHere()[0] == Entries(trie.tree)[|passed|];
      var pair := it.Take();
      OneMorePair(pairs, passed, pair);
      ghost var entry := KeyValue(Unpack(pair.key), pair.value);
      assert passed + ([entry] + it.FromHere()) == (passed + [entry]) + it.FromHere();
      pairs, passed := pairs + [pair], passed + [entry];
    }
    it.NothingLeft();
    assert it.FromHere() == [] && passed + it.FromHere() == passed;
  }
}
