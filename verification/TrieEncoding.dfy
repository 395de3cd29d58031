/** Trie nodes as RLP items, and the references a trie holds into its node store. */
module TrieEncoding {
  import opened Bytes
  import opened Rlp
  import opened TrieCommon
  import opened TrieNode

  /** Byte strings the program can hold: half of what a std::vector can, so that a node around one still fits. */
  const MAX_SIZE := 0x4000_0000_0000_0000

  // ---------------------------------------------------------------- items

  function NodeItem(hash: HashFn, n: Node): Item
    decreases n, 0
  {
    match n
    case Null => Data([])
    case Leaf(key, value) => List([Data(HexPrefix(key, true)), Data(value)])
    case Extension(key, child) => List([Data(HexPrefix(key, false)), Ref(hash, child)])
    case Branch(children, slot) => List(Refs(hash, children) + [Data(SlotBytes(slot))])
  }

  function SlotBytes(slot: Option<Bytes>): Bytes {
    match slot case None => [] case Some(value) => value
  }

  function Refs(hash: HashFn, children: seq<Node>): (refs: seq<Item>)
    ensures |refs| == |children|
    ensures forall i :: 0 <= i < |children| ==> refs[i] == Ref(hash, children[i])
    decreases children, 2
  {
    if children == [] then [] else [Ref(hash, children[0])] + Refs(hash, children[1..])
  }

  /** streamNode: a node of 32 bytes or more is replaced by its hash. */
  function Ref(hash: HashFn, n: Node): Item
    decreases n, 1
  {
    var item := NodeItem(hash, n);
    if |Encode(item)| < 32 then item else Data(hash(Encode(item)))
  }

  function EncodeNode(hash: HashFn, n: Node): Bytes {
    Encode(NodeItem(hash, n))
  }

  predicate Hashed(hash: HashFn, n: Node) {
    |EncodeNode(hash, n)| >= 32
  }

  // ---------------------------------------------------------------- sizes

  ghost predicate Sized(n: Node) {
    match n
    case Null => true
    case Leaf(key, value) => |key| < MAX_SIZE && |value| < MAX_SIZE
    case Extension(key, child) => |key| < MAX_SIZE && Sized(child)
    case Branch(children, slot) =>
      |SlotBytes(slot)| < MAX_SIZE && forall i :: 0 <= i < |children| ==> Sized(children[i])
  }

  lemma DataSize(s: Bytes)
    ensures |EncodeData(s)| <= |s| + 9
  {
  }

  lemma {:induction false} RefsSize(hash: HashFn, children: seq<Node>)
    ensures |EncodeAll(Refs(hash, children))| <= 41 * |children|
  {
    if children != [] {
      RefsSize(hash, children[1..]);
      RefSize(hash, children[0]);
    }
  }

  lemma RefSize(hash: HashFn, n: Node)
    ensures |Encode(Ref(hash, n))| <= 41
  {
    if Hashed(hash, n) {
      DataSize(hash(EncodeNode(hash, n)));
    }
  }

  lemma {:induction false} EncodeAllSnoc(items: seq<Item>, last: Item)
    ensures EncodeAll(items + [last]) == EncodeAll(items) + Encode(last)
  {
    if items == [] {
      assert EncodeAll([last]) == Encode(last) + EncodeAll([]);
    } else {
      assert (items + [last])[0] == items[0] && (items + [last])[1..] == items[1..] + [last];
      EncodeAllSnoc(items[1..], last);
    }
  }

  lemma TwoItemsFit(a: Bytes, b: Item)
    requires |a| < MAX_SIZE && Fits(b) && |Encode(b)| <= MAX_SIZE + 41
    ensures Fits(List([Data(a), b]))
  {
    DataSize(a);
    assert [Data(a), b] == [Data(a)] + [b];
    EncodeAllSnoc([Data(a)], b);
    EncodeAllSnoc([], Data(a));
    assert [] + [Data(a)] == [Data(a)];
  }

  lemma EncodeOfData(s: Bytes)
    ensures Encode(Data(s)) == EncodeData(s) && (|s| < LENGTH_LIMIT ==> Fits(Data(s)))
  {
  }

  lemma BranchFits(hash: HashFn, children: seq<Node>, value: Bytes)
    requires |children| == 16 && |value| < MAX_SIZE
    requires forall i :: 0 <= i < 16 ==> Fits(Ref(hash, children[i]))
    ensures Fits(List(Refs(hash, children) + [Data(value)]))
  {
    hide Encode, EncodeAll, Ref;
    RefsSize(hash, children);
    EncodeAllSnoc(Refs(hash, children), Data(value));
    EncodeOfData(value);
    DataSize(value);
  }

  /** Every node of a trie with reasonable keys and values can be decoded again. */
  lemma {:induction false} NodeFits(hash: HashFn, n: Node)
    requires Shape(n) && Sized(n)
    ensures Fits(NodeItem(hash, n)) && Fits(Ref(hash, n))
  {
    match n
    case Null =>
    case Leaf(key, value) =>
      DataSize(value);
      TwoItemsFit(HexPrefix(key, true), Data(value));
    case Extension(key, child) =>
      NodeFits(hash, child);
      RefSize(hash, child);
      TwoItemsFit(HexPrefix(key, false), Ref(hash, child));
    case Branch(children, slot) =>
      forall i | 0 <= i < 16
        ensures Fits(Ref(hash, children[i]))
      {
        NodeFits(hash, children[i]);
      }
      BranchFits(hash, children, SlotBytes(slot));
  }

  lemma DecodeNode(hash: HashFn, n: Node)
    requires Shape(n) && Sized(n)
    ensures EncodeNode(hash, n) != [] && Decode(EncodeNode(hash, n)) == Ok(NodeItem(hash, n))
  {
    NodeFits(hash, n);
    DecodeEncode(NodeItem(hash, n));
    EncodingSize(NodeItem(hash, n), []);
  }

  /** A node as a list: a leaf is its key and value, an extension its key and the reference to its child, a branch sixteen
    references by nibble and its value; no node is the empty string. */
  lemma NodeInItems(hash: HashFn, n: Node)
    ensures n == Null ==> EncodeNode(hash, n) == [0x80]
    ensures n.Leaf? ==> NodeItem(hash, n) == List([Data(HexPrefix(n.key, true)), Data(n.value)])
    ensures n.Extension? ==> NodeItem(hash, n) == List([Data(HexPrefix(n.key, false)), Ref(hash, n.child)])
    ensures n.Branch? && |n.children| == 16 ==>
      && NodeItem(hash, n).List? && |NodeItem(hash, n).items| == 17
      && (forall i :: 0 <= i < 16 ==> NodeItem(hash, n).items[i] == Ref(hash, n.children[i]))
      && NodeItem(hash, n).items[16] == Data(if n.slot.Some? then n.slot.value else [])
  {
    hide Ref;
    assert Encode(Data([])) == [0x80];
  }

  /** What isEmpty, itemCount, keyOf and isLeaf tell from the item. */
  lemma ItemKind(hash: HashFn, n: Node)
    ensures n == Null <==> NodeItem(hash, n) == Data([])
    ensures n == Null ==> Ref(hash, n) == Data([]) && !Hashed(hash, n)
    ensures n != Null ==> NodeItem(hash, n).List? && NodeItem(hash, n) != List([])
    ensures n.Leaf? || n.Extension? ==>
      var items := NodeItem(hash, n).items;
      && |items| == 2 && items[0].Data? && items[0].bytes != []
      && KeyOf(items[0].bytes) == n.key && LeafOf(items[0].bytes) == n.Leaf?
      && items[1] == if n.Leaf? then Data(n.value) else Ref(hash, n.child)
    ensures n.Branch? ==> |NodeItem(hash, n).items| == |n.children| + 1
  {
    if n.Leaf? || n.Extension? {
      HexPrefixRoundTrip(n.key, n.Leaf?);
    }
    assert Encode(Data([])) == [0x80];
  }

  /** A reference is empty, an inline list, or a 32-byte hash. */
  lemma RefKind(hash: HashFn, n: Node)
    ensures n == Null <==> Ref(hash, n) == Data([])
    ensures Ref(hash, n) != List([])
    ensures n != Null ==> (Hashed(hash, n) <==> Ref(hash, n).Data?)
    ensures !Hashed(hash, n) ==> Ref(hash, n) == NodeItem(hash, n)
    ensures Hashed(hash, n) ==> Ref(hash, n) == Data(hash(EncodeNode(hash, n)))
  {
    ItemKind(hash, n);
  }

  /** How big a node may be to be put into its parent: a reference is the node itself if that has less than 32 bytes, and
    otherwise its hash, so that it takes up to 31 bytes or exactly 33. */
  lemma RefBySize(hash: HashFn, n: Node)
    requires n != Null
    ensures Ref(hash, n).List? <==> |EncodeNode(hash, n)| < 32
    ensures Ref(hash, n) == if |EncodeNode(hash, n)| <= 31 then NodeItem(hash, n) else Data(hash(EncodeNode(hash, n)))
    ensures |Encode(Ref(hash, n))| <= 31 || |Encode(Ref(hash, n))| == 33
    ensures |Encode(Ref(hash, n))| == 33 <==> |EncodeNode(hash, n)| >= 32
  {
    ItemKind(hash, n);
    DataLayout(hash(EncodeNode(hash, n)));
  }

  /** A leaf at the edge: with a one-nibble key, 28 bytes of value are put into the parent and 29 are not. */
  lemma LeafAtTheEdge(hash: HashFn, key: Nibble, v: Bytes)
    requires 28 <= |v| <= 29
    ensures |EncodeNode(hash, Leaf([key], v))| == |v| + 3
    ensures Ref(hash, Leaf([key], v)).List? <==> |v| == 28
  {
    var path := HexPrefix([key], true);
    HexPrefixLayout([key], true);
    DataLayout(path);
    DataLayout(v);
    assert [Data(path), Data(v)] == [Data(path)] + [Data(v)] && [] + [Data(path)] == [Data(path)];
    EncodeAllSnoc([Data(path)], Data(v));
    EncodeAllSnoc([], Data(path));
    ListLayout([Data(path), Data(v)]);
    RefBySize(hash, Leaf([key], v));
  }

  // ---------------------------------------------------------------- references into the store

  ghost function OwnRef(hash: HashFn, n: Node): multiset<Hash> {
    if Hashed(hash, n) then multiset{hash(EncodeNode(hash, n))} else multiset{}
  }

  /** The hashes of the nodes below n that are stored, once per position. */
  ghost function RefsBelow(hash: HashFn, n: Node): multiset<Hash>
    decreases n, 0
  {
    match n
    case Null => multiset{}
    case Leaf(_, _) => multiset{}
    case Extension(_, child) => LiveRefs(hash, child)
    case Branch(children, _) => AllRefs(hash, children)
  }

  ghost function LiveRefs(hash: HashFn, n: Node): multiset<Hash>
    decreases n, 1
  {
    OwnRef(hash, n) + RefsBelow(hash, n)
  }

  ghost function AllRefs(hash: HashFn, children: seq<Node>): multiset<Hash>
    decreases children, 2
  {
    if children == [] then multiset{} else LiveRefs(hash, children[0]) + AllRefs(hash, children[1..])
  }

  /** The root is stored whatever its size. */
  ghost function RootRefs(hash: HashFn, n: Node): multiset<Hash> {
    RefsBelow(hash, n) + multiset{hash(EncodeNode(hash, n))}
  }

  ghost function Siblings(hash: HashFn, children: seq<Node>, i: nat): multiset<Hash>
    requires i < |children|
  {
    AllRefs(hash, children[i := Null])
  }

  lemma {:induction false} SplitRefs(hash: HashFn, children: seq<Node>, i: nat, child: Node)
    requires i < |children|
    ensures AllRefs(hash, children[i := child]) == Siblings(hash, children, i) + LiveRefs(hash, child)
  {
    var with, without := children[i := child], children[i := Null];
    ItemKind(hash, Null);
    if i == 0 {
      assert with[1..] == children[1..] == without[1..];
      assert LiveRefs(hash, Null) == multiset{};
    } else {
      assert with[1..] == children[1..][i - 1 := child] && without[1..] == children[1..][i - 1 := Null];
      SplitRefs(hash, children[1..], i - 1, child);
    }
  }

  lemma SplitChildRefs(hash: HashFn, children: seq<Node>, i: nat)
    requires i < |children|
    ensures AllRefs(hash, children) == Siblings(hash, children, i) + LiveRefs(hash, children[i])
  {
    SplitRefs(hash, children, i, children[i]);
    assert children[i := children[i]] == children;
  }

  // ---------------------------------------------------------------- the strings a trie is made of

  /** The encodings of n and of everything below it are among the strings. */
  ghost predicate AllIn(hash: HashFn, strings: iset<Bytes>, n: Node) {
    && EncodeNode(hash, n) in strings
    && match n
       case Null => true
       case Leaf(_, _) => true
       case Extension(_, child) => AllIn(hash, strings, child)
       case Branch(children, _) => forall i :: 0 <= i < |children| ==> AllIn(hash, strings, children[i])
  }

  /** So are the encodings of every node an insertion makes on its way. */
  ghost predicate CoversMerge(hash: HashFn, strings: iset<Bytes>, n: Node, k: Nibbles, v: Bytes)
    requires Shape(n)
    decreases |k|, if n.Branch? then 0 else 1
  {
    && EncodeNode(hash, Merged(n, k, v)) in strings
    && if n == Null then true
       else if n.Branch? then k != [] ==> CoversMerge(hash, strings, n.children[k[0]], k[1..], v)
       else if Follows(n, k) then n.Extension? ==> CoversMerge(hash, strings, n.child, k[|n.key|..], v)
       else
         var shared := Shared(k, n.key);
         ShortOfExtension(n, k);
         if shared > 0
         then AllIn(hash, strings, Extension(n.key[..shared], Tail(n, shared)))
              && CoversMerge(hash, strings, Tail(n, shared), k[shared..], v)
         else AllIn(hash, strings, Branched(n)) && CoversMerge(hash, strings, Branched(n), k, v)
  }

  lemma {:induction false} MergedAllIn(hash: HashFn, strings: iset<Bytes>, n: Node, k: Nibbles, v: Bytes)
    requires Shape(n) && AllIn(hash, strings, n) && CoversMerge(hash, strings, n, k, v)
    ensures AllIn(hash, strings, Merged(n, k, v))
    decreases |k|, if n.Branch? then 0 else 1
  {
    if n == Null {
    } else if n.Branch? {
      if k != [] {
        MergedAllIn(hash, strings, n.children[k[0]], k[1..], v);
      }
    } else if Follows(n, k) {
      if n.Extension? {
        MergedAllIn(hash, strings, n.child, k[|n.key|..], v);
      }
    } else {
      var shared := Shared(k, n.key);
      ShortOfExtension(n, k);
      if shared > 0 {
        MergedAllIn(hash, strings, Tail(n, shared), k[shared..], v);
      } else {
        MergedAllIn(hash, strings, Branched(n), k, v);
      }
    }
  }

  lemma {:induction false} MergedSized(n: Node, k: Nibbles, v: Bytes)
    requires Shape(n) && Sized(n) && |k| < MAX_SIZE && |v| < MAX_SIZE
    ensures Sized(Merged(n, k, v))
    decreases |k|, if n.Branch? then 0 else 1
  {
    if n == Null {
    } else if n.Branch? {
      if k != [] {
        MergedSized(n.children[k[0]], k[1..], v);
      }
    } else if Follows(n, k) {
      if n.Extension? {
        MergedSized(n.child, k[|n.key|..], v);
      }
    } else {
      var shared := Shared(k, n.key);
      ShortOfExtension(n, k);
      if shared > 0 {
        MergedSized(Tail(n, shared), k[shared..], v);
      } else {
        BranchedSized(n);
        MergedSized(Branched(n), k, v);
      }
    }
  }

  lemma BranchedSized(n: Node)
    requires (n.Leaf? || (n.Extension? && n.key != [])) && Sized(n)
    ensures Sized(Branched(n))
    ensures n.key != [] ==> Sized(BelowBranch(n))
  {
  }

  /** All keys of the trie are shorter than `room`, so that joining partial keys cannot outgrow it. */
  ghost predicate SizedIn(n: Node, room: nat)
    decreases n
  {
    match n
    case Null => true
    case Leaf(key, value) => |key| < room && |value| < MAX_SIZE
    case Extension(key, child) => |key| < room && SizedIn(child, room - |key|)
    case Branch(children, slot) =>
      room > 0 && |SlotBytes(slot)| < MAX_SIZE && forall i :: 0 <= i < |children| ==> SizedIn(children[i], room - 1)
  }

  lemma {:induction false} SizedInSized(n: Node, room: nat)
    requires SizedIn(n, room) && room <= MAX_SIZE
    ensures Sized(n)
  {
    match n
    case Null =>
    case Leaf(_, _) =>
    case Extension(key, child) => SizedInSized(child, room - |key|);
    case Branch(children, _) =>
      forall i | 0 <= i < |children|
        ensures Sized(children[i])
      {
        SizedInSized(children[i], room - 1);
      }
  }

  lemma {:induction false} MergedSizedIn(n: Node, k: Nibbles, v: Bytes, room: nat)
    requires Shape(n) && SizedIn(n, room) && |k| < room && |v| < MAX_SIZE
    ensures SizedIn(Merged(n, k, v), room)
    decreases |k|, if n.Branch? then 0 else 1
  {
    hide Tail, Branched, Shared;
    if n == Null {
    } else if n.Branch? {
      if k != [] {
        MergedSizedIn(n.children[k[0]], k[1..], v, room - 1);
      }
    } else if Follows(n, k) {
      if n.Extension? {
        MergedSizedIn(n.child, k[|n.key|..], v, room - |n.key|);
      }
    } else {
      var shared := Shared(k, n.key);
      ShortOfExtension(n, k);
      if shared > 0 {
        TailSizedIn(n, shared, room);
        MergedSizedIn(Tail(n, shared), k[shared..], v, room - shared);
      } else {
        BranchedSizedIn(n, room);
        MergedSizedIn(Branched(n), k, v, room);
      }
    }
  }

  lemma TailSizedIn(n: Node, s: nat, room: nat)
    requires (n.Leaf? && s <= |n.key|) || (n.Extension? && s < |n.key|)
    requires SizedIn(n, room)
    ensures s < room && SizedIn(Tail(n, s), room - s)
  {
  }

  lemma BranchedSizedIn(n: Node, room: nat)
    requires (n.Leaf? || (n.Extension? && n.key != [])) && SizedIn(n, room)
    ensures SizedIn(Branched(n), room)
  {
    if n.key != [] {
      BelowSizedIn(n, room);
    }
  }

  lemma BelowSizedIn(n: Node, room: nat)
    requires (n.Leaf? || n.Extension?) && n.key != [] && SizedIn(n, room)
    ensures room > 0 && SizedIn(BelowBranch(n), room - 1)
  {
  }

  lemma {:induction false} DeletedSizedIn(n: Node, k: Nibbles, room: nat)
    requires WellFormed(n) && Shape(n) && Get(n, k).Some? && SizedIn(n, room)
    ensures SizedIn(Deleted(n, k), room)
  {
    match n
    case Leaf(_, _) =>
    case Extension(key, child) =>
      DeletedSizedIn(child, k[|key|..], room - |key|);
      GraftSizedIn(key, Deleted(child, k[|key|..]), room);
    case Branch(children, slot) =>
      if k == [] {
        CollapseSizedIn(children, None, room);
      } else {
        DeletedSizedIn(children[k[0]], k[1..], room - 1);
        CollapseSizedIn(children[k[0] := Deleted(children[k[0]], k[1..])], slot, room);
      }
  }

  lemma GraftSizedIn(key: Nibbles, n: Node, room: nat)
    requires |key| < room && SizedIn(n, room - |key|)
    ensures SizedIn(Graft(key, n), room)
  {
  }

  lemma CollapseSizedIn(children: seq<Node>, slot: Option<Bytes>, room: nat)
    requires |children| == 16 && SizedIn(Branch(children, slot), room)
    ensures SizedIn(Collapse(children, slot), room)
  {
    if i: nat :| OnlyUsed(children, slot, i) {
      CollapseUnique(children, slot, i);
      if i < 16 {
        RoomForChild(children[i], room - 1);
        assert Used(children, slot, i);
        GraftSizedIn([i], children[i], room);
      }
    }
  }

  lemma RoomForChild(n: Node, room: nat)
    requires SizedIn(n, room) && n != Null
    ensures room > 0
  {
  }
}
