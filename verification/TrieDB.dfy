/** The trie over its node store (libdevcore/TrieDB.h).

  Every method that works on a node takes, as ghosts, the node its item stands for and the references that are live
  besides it. The contracts say which node the result encodes and how the live references change; the references of
  other tries over the same store are part of `frame` and come through untouched.

  Counts are promised when `exact` is set. They survive every call but one kind: a key that ends inside the partial
  key of a stored one makes place() kill a branch node that was never stored (`EndsAtSplit`). That is harmless unless
  an equal node is live, which `Clean` excludes. */
module Trie {
  import opened Bytes
  import opened Rlp
  import opened TrieCommon
  import opened TrieNode
  import opened TrieEncoding
  import opened NodeStore

  /** A branch with at most one entry. No canonical trie with non-empty values contains one. */
  ghost predicate LonelyItem(item: Item) {
    && item.List? && |item.items| == 17
    && exists u :: 0 <= u < 17 && OthersEmpty(item.items, u)
  }

  ghost predicate OthersEmpty(items: seq<Item>, u: int) {
    forall j :: 0 <= j < |items| && j != u ==> items[j] == Data([])
  }

  ghost predicate Lonely(s: Bytes) {
    Decode(s).Ok? && LonelyItem(Decode(s).value)
  }

  ghost predicate Clean(hash: HashFn, strings: iset<Bytes>, live: multiset<Hash>) {
    forall s :: s in strings && hash(s) in live ==> !Lonely(s)
  }

  /** The key runs out at a leaf or extension whose partial key it does not exhaust. */
  ghost predicate EndsAtSplit(n: Node, k: Nibbles)
    requires Shape(n)
    decreases |k|, if n.Branch? then 0 else 1
  {
    if n == Null then false
    else if n.Branch? then k != [] && EndsAtSplit(n.children[k[0]], k[1..])
    else if Follows(n, k) then n.Extension? && EndsAtSplit(n.child, k[|n.key|..])
    else
      var shared := Shared(k, n.key);
      ShortOfExtension(n, k);
      if shared > 0 then EndsAtSplit(Tail(n, shared), k[shared..]) else k == []
  }

  /** The branch that is made where the key ends, and given up for the one with the new value. */
  ghost function MadeBranch(n: Node, k: Nibbles): (made: Node)
    requires Shape(n) && EndsAtSplit(n, k)
    decreases |k|, if n.Branch? then 0 else 1
  {
    if n.Branch? then MadeBranch(n.children[k[0]], k[1..])
    else if Follows(n, k) then MadeBranch(n.child, k[|n.key|..])
    else
      var shared := Shared(k, n.key);
      ShortOfExtension(n, k);
      if shared > 0 then MadeBranch(Tail(n, shared), k[shared..]) else Branched(n)
  }

  /** Only a key that starts a longer stored key can end at a split. */
  lemma {:induction false} SplitKeyIsPrefix(n: Node, k: Nibbles) returns (longer: Nibbles)
    requires WellFormed(n) && Shape(n) && EndsAtSplit(n, k)
    ensures Get(n, longer).Some? && k < longer
    decreases n
  {
    if n.Branch? {
      longer := SplitKeyIsPrefix(n.children[k[0]], k[1..]);
      assert k == [k[0]] + k[1..];
      longer := [k[0]] + longer;
      assert longer[1..] == longer[1..];
    } else if Follows(n, k) {
      var rest := SplitKeyIsPrefix(n.child, k[|n.key|..]);
      assert k == n.key + k[|n.key|..];
      longer := n.key + rest;
      ExtensionGet(n.key, n.child, rest);
    } else {
      longer := SomeKey(n);
      KeyStartsWithPartial(n, longer);
      EndsInsidePartial(n, k);
    }
  }

  lemma KeyStartsWithPartial(n: Node, k: Nibbles)
    requires Shape(n) && (n.Leaf? || n.Extension?) && Get(n, k).Some?
    ensures n.key <= k
  {
  }

  lemma EndsInsidePartial(n: Node, k: Nibbles)
    requires Shape(n) && (n.Leaf? || n.Extension?) && !Follows(n, k) && EndsAtSplit(n, k)
    ensures k < n.key
  {
    var shared := Shared(k, n.key);
    ShortOfExtension(n, k);
    if shared > 0 {
      var tail, rest := Tail(n, shared), k[shared..];
      SharedAt(rest, tail.key, 0);
      assert k == k[..shared] + rest && n.key == k[..shared] + tail.key;
      assert !Follows(tail, rest);
      assert rest == [];
    }
  }

  /** A leaf or an extension is no branch, so storing it keeps the references clean. */
  lemma CleanAdd(hash: HashFn, strings: iset<Bytes>, live: multiset<Hash>, n: Node)
    requires CollisionFree(hash, strings) && Clean(hash, strings, live)
    requires (n.Leaf? || n.Extension?) && Shape(n) && Sized(n) && EncodeNode(hash, n) in strings
    ensures Clean(hash, strings, live + OwnRef(hash, n))
  {
    DecodeNode(hash, n);
    ItemKind(hash, n);
    forall s | s in strings && hash(s) in live + OwnRef(hash, n)
      ensures !Lonely(s)
    {
      if hash(s) !in live {
        assert s == EncodeNode(hash, n);
      }
    }
  }

  /** The branch just made of one node has one entry. */
  lemma BranchedIsLonely(hash: HashFn, n: Node)
    requires n.Leaf? || (n.Extension? && n.key != [])
    ensures LonelyItem(NodeItem(hash, Branched(n)))
  {
    BranchedItem(hash, n);
    assert OthersEmpty(NodeItem(hash, Branched(n)).items, if n.key == [] then 16 else n.key[0]);
  }

  function EmptyRefs(): (refs: seq<Item>)
    ensures |refs| == 16 && forall i :: 0 <= i < 16 ==> refs[i] == Data([])
  {
    seq(16, i => Data([]))
  }

  lemma BranchedItem(hash: HashFn, n: Node)
    requires n.Leaf? || (n.Extension? && n.key != [])
    ensures NodeItem(hash, Branched(n)) ==
        if n.key == [] then List(EmptyRefs() + [Data(n.value)])
        else List(EmptyRefs()[n.key[0] := Ref(hash, BelowBranch(n))] + [Data([])])
  {
    hide Ref, Refs, BelowBranch, NoChildren, EmptyRefs;
    NullRefs(hash, NoChildren());
    if n.key != [] {
      RefsUpdate(hash, NoChildren(), n.key[0], BelowBranch(n));
    }
  }

  lemma BelowItem(hash: HashFn, n: Node)
    requires (n.Leaf? || n.Extension?) && n.key != [] && (n.Leaf? || |n.key| > 1)
    ensures var below := BelowBranch(n);
      && NodeItem(hash, below) == List([Data(HexPrefix(n.key[1..], n.Leaf?)), NodeItem(hash, n).items[1]])
      && RefsBelow(hash, below) == RefsBelow(hash, n)
  {
  }

  lemma NullRefs(hash: HashFn, children: seq<Node>)
    requires |children| == 16 && forall i :: 0 <= i < 16 ==> children[i] == Null
    ensures Refs(hash, children) == EmptyRefs()
  {
    RefKind(hash, Null);
  }

  lemma BranchedRefs(hash: HashFn, n: Node)
    requires n.Leaf? || (n.Extension? && n.key != [])
    ensures RefsBelow(hash, Branched(n)) == if n.key == [] then multiset{} else LiveRefs(hash, BelowBranch(n))
    ensures n.Leaf? ==> RefsBelow(hash, n) == multiset{}
    ensures n.Extension? && |n.key| == 1 ==> RefsBelow(hash, n) == LiveRefs(hash, BelowBranch(n))
  {
    hide AllRefs, LiveRefs, NoChildren;
    NothingBelow(hash, NoChildren());
    if n.key != [] {
      OneChildRefs(hash, NoChildren(), n.key[0], BelowBranch(n));
    }
  }

  lemma OneChildRefs(hash: HashFn, children: seq<Node>, i: nat, child: Node)
    requires i < |children| && forall j :: 0 <= j < |children| ==> children[j] == Null
    ensures AllRefs(hash, children[i := child]) == LiveRefs(hash, child)
  {
    hide AllRefs, LiveRefs;
    SplitRefs(hash, children, i, child);
    NothingBelow(hash, children[i := Null]);
  }

  lemma {:induction false} NothingBelow(hash: HashFn, children: seq<Node>)
    requires forall i :: 0 <= i < |children| ==> children[i] == Null
    ensures AllRefs(hash, children) == multiset{}
  {
    if children != [] {
      ItemKind(hash, Null);
      NothingBelow(hash, children[1..]);
    }
  }

  lemma RefsUpdate(hash: HashFn, children: seq<Node>, i: nat, child: Node)
    requires i < |children|
    ensures Refs(hash, children[i := child]) == Refs(hash, children)[i := Ref(hash, child)]
  {
  }

  ghost function RefsHeld(hash: HashFn, n: Node, inLine: bool): multiset<Hash> {
    RefsBelow(hash, n) + if inLine then multiset{} else OwnRef(hash, n)
  }

  /** How far mergeAt's re-entry is from its end. */
  ghost function Rank(n: Node, k: Nibbles): nat {
    if n == Null || n.Branch? then 0 else if Follows(n, k) then 1 else 2
  }

  // ---------------------------------------------------------------- removal

  /** toHash on what is taken for a reference: shorter data is filled up with zeros in front, and None is the exception for
    longer data and lists. */
  function ToHash(item: Item): Option<Hash> {
    if item.Data? && |item.bytes| <= 32 then Some(seq(32 - |item.bytes|, _ => 0) + item.bytes) else None
  }

  /** itemCount of the node in a string; what is no list has none. */
  function ItemCount(s: Bytes): nat {
    match Decode(s)
    case Ok(List(items)) => |items|
    case _ => 0
  }

  /** Taken for a reference, the value fits a hash and does not lead to a leaf or an extension. */
  ghost predicate PassesAsReference(hash: HashFn, strings: iset<Bytes>, v: Bytes) {
    && ToHash(Data(v)).Some?
    && forall s :: s in strings && hash(s) == ToHash(Data(v)).value ==> ItemCount(s) != 2
  }

  /** Where deleteAt does what it should. It descends from a leaf whose key is a proper prefix, reads past the end
    of a key that stops at a branch without a value, and looks the value of a branch that lost its last child up as if it
    were a reference; entries with an empty value are invisible to it. None of this happens where no key is a proper
    prefix of another (`PrefixFreeRemovable`). */
  ghost predicate Removable(hash: HashFn, strings: iset<Bytes>, n: Node, k: Nibbles)
    requires Shape(n)
    decreases n
  {
    match n
    case Null => true
    case Leaf(key, _) => key <= k ==> key == k
    case Extension(key, child) => key <= k ==> Removable(hash, strings, child, k[|key|..])
    case Branch(children, slot) =>
      && slot != Some([])
      && if k == [] then slot.Some?
         else
           && Removable(hash, strings, children[k[0]], k[1..])
           && (Get(n, k).Some? && OnlyUsed(children[k[0] := Deleted(children[k[0]], k[1..])], slot, 16) ==>
                 PassesAsReference(hash, strings, slot.value))
  }

  /** The strings a removal makes on its way. */
  ghost predicate CoversDelete(hash: HashFn, strings: iset<Bytes>, n: Node, k: Nibbles)
    requires Shape(n) && Get(n, k).Some?
    decreases n
  {
    && EncodeNode(hash, Deleted(n, k)) in strings
    && match n
       case Leaf(_, _) => true
       case Extension(key, child) => CoversDelete(hash, strings, child, k[|key|..])
       case Branch(children, _) => k != [] ==> CoversDelete(hash, strings, children[k[0]], k[1..])
  }

  predicate EmptyItem(item: Item) {
    item == Data([]) || item == List([])
  }

  const NOT_UNIQUE := 255

  ghost predicate OnlyInUse(items: seq<Item>, except: nat, u: nat) {
    u < |items| && u != except && !EmptyItem(items[u])
    && forall j :: 0 <= j < |items| && j != except && j != u ==> EmptyItem(items[j])
  }

  /** uniqueInUse: the only entry in use besides `except`, or 255 if there is none or more than one. */
  method UniqueInUse(items: seq<Item>, except: nat) returns (used: nat)
    requires |items| == 17
    ensures used != NOT_UNIQUE ==> OnlyInUse(items, except, used)
    ensures used == NOT_UNIQUE ==> forall u: nat :: !OnlyInUse(items, except, u)
  {
    used := NOT_UNIQUE;
    for i := 0 to 17
      invariant used == NOT_UNIQUE ==> forall j :: 0 <= j < i && j != except ==> EmptyItem(items[j])
      invariant used != NOT_UNIQUE ==> used < i && used != except && !EmptyItem(items[used])
      invariant used != NOT_UNIQUE ==> forall j :: 0 <= j < i && j != except && j != used ==> EmptyItem(items[j])
    {
      if i != except && !EmptyItem(items[i]) {
        if used == NOT_UNIQUE {
          used := i;
        } else {
          return NOT_UNIQUE;
        }
      }
    }
  }

  /** The entries in use of a branch and of its item are the same, as long as no value is empty. */
  lemma InUseMeansUsed(hash: HashFn, children: seq<Node>, slot: Option<Bytes>, u: nat)
    requires |children| == 16 && slot != Some([])
    ensures var items := NodeItem(hash, Branch(children, slot)).items;
      && (OnlyInUse(items, NOT_UNIQUE, u) <==> OnlyUsed(children, slot, u))
      && (OnlyInUse(items, 16, u) <==> OnlyUsed(children, None, u))
  {
    var items := NodeItem(hash, Branch(children, slot)).items;
    forall i | 0 <= i <= 16
      ensures EmptyItem(items[i]) <==> !Used(children, slot, i)
      ensures i < 16 ==> (Used(children, slot, i) <==> Used(children, None, i))
    {
      if i < 16 {
        RefKind(hash, children[i]);
      }
    }
    assert !Used(children, None, 16);
  }

  lemma OnlyChildRefs(hash: HashFn, children: seq<Node>, slot: Option<Bytes>, u: nat)
    requires |children| == 16 && OnlyUsed(children, slot, u) && u < 16
    ensures AllRefs(hash, children) == LiveRefs(hash, children[u])
  {
    forall j | 0 <= j < 16 && j != u
      ensures children[j] == Null
    {
      assert !Used(children, slot, j);
    }
    SplitChildRefs(hash, children, u);
    NothingBelow(hash, children[u := Null]);
  }

  /** merge: the two-item node that stands for the only entry of a branch. */
  function MergeItem(items: seq<Item>, i: nat): Item
    requires |items| == 17 && i <= 16
  {
    if i != 16 then List([Data(HexPrefix([i], false)), items[i]])
    else List([Data(HexPrefix([], true)), items[16]])
  }

  class TrieDB {
    const db: OverlayDB
    const hash: HashFn
    /** The node strings that occur while this trie lives; no two of them share a hash. */
    ghost const strings: iset<Bytes>
    var root: Hash
    /** The trie the root stands for. */
    ghost var tree: Node

    ghost predicate Serves(live: multiset<Hash>, exact: bool)
      reads db
    {
      CollisionFree(hash, strings) && NodeStore.Serves(hash, strings, db.main, db.disk, live, exact)
    }

    ghost predicate Known(n: Node) {
      Shape(n) && Sized(n) && AllIn(hash, strings, n)
    }

    ghost predicate Ready(n: Node, k: Nibbles, v: Bytes) {
      Known(n) && |k| < MAX_SIZE && |v| < MAX_SIZE && CoversMerge(hash, strings, n, k, v)
    }

    /** The root is stored under its hash and stands for a canonical trie. */
    ghost predicate Valid()
      reads this
    {
      WellFormed(tree) && SizedIn(tree, MAX_SIZE) && Known(tree) && root == hash(EncodeNode(hash, tree))
    }

    /** A new trie over a store, after init(): the empty node becomes the root. */
    constructor (db: OverlayDB, hash: HashFn, ghost strings: iset<Bytes>, ghost frame: multiset<Hash>, ghost exact: bool)
      requires CollisionFree(hash, strings) && [0x80] in strings
      requires NodeStore.Serves(hash, strings, db.main, db.disk, frame, exact)
      modifies db`main
      ensures Valid() && tree == Null
      ensures this.db == db && this.hash == hash && this.strings == strings
      ensures Serves(frame + RootRefs(hash, Null), exact)
    {
      this.db, this.hash, this.strings := db, hash, strings;
      root, tree := hash([0x80]), Null;
      new;
      assert EncodeNode(hash, Null) == [0x80];
      InsertServes(hash, strings, db.main, db.disk, frame, exact, [0x80]);
      assert frame + RootRefs(hash, Null) == frame + multiset{hash([0x80])};
      db.Insert(root, [0x80]);
    }

    /** Giving up a node that was never stored misses, unless the node is too short to be stored or is on disk. */
    ghost function Lost(n: Node): nat
      reads db`disk
    {
      if Hashed(hash, n) && !OnDisk(db.disk, hash(EncodeNode(hash, n))) then 1 else 0
    }

    /** How often an insert misses: once, if it makes a branch where the key ends. */
    ghost function Stray(n: Node, k: Nibbles): nat
      requires Shape(n)
      reads db`disk
    {
      if EndsAtSplit(n, k) then Lost(MadeBranch(n, k)) else 0
    }

    // -------------------------------------------------------------- nodes in the store

    /** node(): reads a stored node back as an item. */
    method ReadNode(h: Hash, ghost n: Node, ghost live: multiset<Hash>, ghost exact: bool) returns (item: Item)
      requires Known(n) && h == hash(EncodeNode(hash, n)) && h in live && Serves(live, exact)
      ensures item == NodeItem(hash, n)
    {
      LookupFinds(hash, strings, db.main, db.disk, live, EncodeNode(hash, n));
      DecodeNode(hash, n);
      var s := db.Find(h);
      item := Decode(s).value;
    }

    /** streamNode: a node goes into its parent as it is, or into the store with its hash in the parent. */
    method StreamNode(b: Bytes, ghost n: Node, ghost live: multiset<Hash>, ghost exact: bool) returns (ref: Item)
      requires Known(n) && b == EncodeNode(hash, n) && Serves(live, exact)
      modifies db`main
      ensures ref == Ref(hash, n) && Serves(live + OwnRef(hash, n), exact)
      ensures db.main == if |b| <= 31 then old(db.main) else Inserted(old(db.main), hash(b), b)
    {
      DecodeNode(hash, n);
      if |b| < 32 {
        ref := Decode(b).value;
        assert live + OwnRef(hash, n) == live;
      } else {
        InsertServes(hash, strings, db.main, db.disk, live, exact, b);
        var h := hash(b);
        db.Insert(h, b);
        ref := Data(h);
      }
    }

    /** killNode: drops the reference to a node of 32 bytes or more. `counted` is false for a node that was never
      stored. */
    method KillNode(item: Item, ghost n: Node, ghost live: multiset<Hash>, ghost exact: bool, ghost counted: bool)
      requires item == NodeItem(hash, n)
      requires Serves(if counted then live + OwnRef(hash, n) else live, exact)
      requires !counted && exact && Hashed(hash, n) ==> hash(EncodeNode(hash, n)) !in live
      modifies db`main, db`misses
      ensures Serves(live, exact)
      ensures exact ==> db.misses == old(db.misses) + if counted then 0 else Lost(n)
      ensures db.main == if |Encode(item)| <= 31 then old(db.main) else Killed(old(db.main), hash(Encode(item)))
    {
      if |Encode(item)| >= 32 {
        var h := hash(Encode(item));
        if counted {
          KillServes(hash, strings, db.main, db.disk, live + OwnRef(hash, n), exact, h);
          assert live + OwnRef(hash, n) - multiset{h} == live;
        } else {
          KillElsewhere(hash, strings, db.main, db.disk, live, exact, h);
        }
        db.Kill(h);
      } else {
        assert live + OwnRef(hash, n) == live;
      }
    }

    // -------------------------------------------------------------- insertion

    /** place: sets the value of a leaf or a branch, or makes a leaf of nothing. */
    method Place(orig: Item, k: Nibbles, v: Bytes, ghost n: Node, ghost frame: multiset<Hash>, ghost exact: bool, ghost inLine: bool)
      returns (b: Bytes)
      requires Known(n) && orig == NodeItem(hash, n)
      requires n == Null || (n.Leaf? && n.key == k) || (n.Branch? && k == [])
      requires Serves(frame + RefsHeld(hash, n, inLine), exact)
      requires inLine && exact && Hashed(hash, n) ==> LonelyItem(orig) && Clean(hash, strings, frame + RefsBelow(hash, n))
      modifies db`main, db`misses
      ensures b == EncodeNode(hash, Merged(n, k, v))
      ensures Serves(frame + RefsBelow(hash, Merged(n, k, v)), exact)
      ensures exact ==> db.misses == old(db.misses) + if inLine then Lost(n) else 0
    {
      ItemKind(hash, n);
      assert inLine && !Hashed(hash, n) ==> OwnRef(hash, n) == multiset{};
      assert frame + RefsHeld(hash, n, false) == frame + RefsBelow(hash, n) + OwnRef(hash, n);
      assert frame + RefsHeld(hash, n, true) == frame + RefsBelow(hash, n);
      if inLine && exact && Hashed(hash, n) {
        DecodeNode(hash, n);
        assert Lonely(EncodeNode(hash, n));
      }
      assert frame + RefsBelow(hash, n) + multiset{} == frame + RefsBelow(hash, n);
      KillNode(orig, n, frame + RefsBelow(hash, n), exact, !(inLine && Hashed(hash, n)));
      if orig == Data([]) {
        b := Encode(List([Data(HexPrefix(k, true)), Data(v)]));
      } else if |orig.items| == 2 {
        b := Encode(List([orig.items[0], Data(v)]));
      } else {
        b := Encode(List(orig.items[..16] + [Data(v)]));
        assert orig.items[..16] == Refs(hash, n.children);
      }
    }

    /** The two nodes cleve makes, as items, and the references below them. */
    lemma CleveItems(n: Node, s: nat)
      requires (n.Leaf? && 0 < s <= |n.key|) || (n.Extension? && 0 < s < |n.key|)
      ensures var tail := Tail(n, s);
        && NodeItem(hash, tail) == List([Data(HexPrefix(n.key[s..], n.Leaf?)), NodeItem(hash, n).items[1]])
        && NodeItem(hash, Extension(n.key[..s], tail)) == List([Data(HexPrefix(n.key[..s], false)), Ref(hash, tail)])
        && RefsBelow(hash, tail) == RefsBelow(hash, n)
    {
      hide HexPrefix, Encode, Decode;
    }

    /** cleve: splits the key of a two-item node behind its first s nibbles. */
    method Cleve(orig: Item, s: nat, ghost n: Node, ghost frame: multiset<Hash>, ghost exact: bool) returns (b: Bytes)
      requires Known(n) && orig == NodeItem(hash, n)
      requires (n.Leaf? && 0 < s <= |n.key|) || (n.Extension? && 0 < s < |n.key|)
      requires Known(Extension(n.key[..s], Tail(n, s)))
      requires Serves(frame + LiveRefs(hash, n), exact)
      modifies db`main, db`misses
      ensures b == EncodeNode(hash, Extension(n.key[..s], Tail(n, s)))
      ensures Serves(frame + LiveRefs(hash, Tail(n, s)), exact)
      ensures exact ==> db.misses == old(db.misses)
    {
      hide Encode, Decode, HexPrefix, KeyOf, LeafOf, NodeItem, OwnRef, RefsBelow, Sound, Covered, Tally;
      ghost var tail := Tail(n, s);
      ItemKind(hash, n);
      CleveItems(n, s);
      assert frame + LiveRefs(hash, n) == frame + RefsBelow(hash, n) + OwnRef(hash, n);
      KillNode(orig, n, frame + RefsBelow(hash, n), exact, true);
      var key := KeyOf(orig.items[0].bytes);
      var bottom := Encode(List([Data(HexPrefix(key[s..], LeafOf(orig.items[0].bytes))), orig.items[1]]));
      var ref := StreamNode(bottom, tail, frame + RefsBelow(hash, n), exact);
      assert frame + RefsBelow(hash, n) + OwnRef(hash, tail) == frame + LiveRefs(hash, tail);
      b := Encode(List([Data(HexPrefix(key[..s], false)), ref]));
    }

    lemma BelowKnown(n: Node)
      requires (n.Leaf? || n.Extension?) && n.key != [] && Known(Branched(n))
      ensures var below := BelowBranch(n);
        && Known(below)
        && (n.Leaf? || |n.key| > 1 ==>
              && NodeItem(hash, below) == List([Data(HexPrefix(n.key[1..], n.Leaf?)), NodeItem(hash, n).items[1]])
              && RefsBelow(hash, below) == RefsBelow(hash, n))
    {
      hide Encode, Decode, NoChildren, HexPrefix, BelowBranch;
      assert BelowBranch(n) == Branched(n).children[n.key[0]];
      if n.Leaf? || |n.key| > 1 {
        BelowItem(hash, n);
      }
    }

    /** branch: turns a two-item node into a branch with the same entries. */
    method MakeBranch(orig: Item, ghost n: Node, ghost frame: multiset<Hash>, ghost exact: bool) returns (b: Bytes)
      requires Known(n) && orig == NodeItem(hash, n) && (n.Leaf? || n.Extension?)
      requires Known(Branched(n))
      requires Serves(frame + LiveRefs(hash, n), exact)
      modifies db`main, db`misses
      ensures b == EncodeNode(hash, Branched(n))
      ensures Serves(frame + RefsBelow(hash, Branched(n)), exact)
      ensures exact ==> db.misses == old(db.misses)
    {
      hide Encode, Decode, HexPrefix, KeyOf, LeafOf, NodeItem, OwnRef, RefsBelow, Sound, Covered, Tally, EmptyRefs;
      ItemKind(hash, n);
      assert frame + LiveRefs(hash, n) == frame + RefsBelow(hash, n) + OwnRef(hash, n);
      KillNode(orig, n, frame + RefsBelow(hash, n), exact, true);
      var key := KeyOf(orig.items[0].bytes);
      var leaf := LeafOf(orig.items[0].bytes);
      BranchedItem(hash, n);
      BranchedRefs(hash, n);
      if |key| == 0 {
        b := Encode(List(EmptyRefs() + [orig.items[1]]));
      } else {
        ghost var below := BelowBranch(n);
        BelowKnown(n);
        var ref;
        if leaf || |key| > 1 {
          ref := StreamNode(Encode(List([Data(HexPrefix(key[1..], leaf)), orig.items[1]])), below, frame + RefsBelow(hash, n), exact);
          assert frame + RefsBelow(hash, n) + OwnRef(hash, below) == frame + LiveRefs(hash, below);
        } else {
          ref := orig.items[1];
        }
        b := Encode(List(EmptyRefs()[key[0] := ref] + [Data([])]));
      }
    }

    /** mergeAt: merges the entry into the trie below the item. */
    method MergeAt(orig: Item, k: Nibbles, v: Bytes, inLine: bool, ghost n: Node, ghost frame: multiset<Hash>, ghost exact: bool)
      returns (b: Bytes)
      requires Ready(n, k, v) && orig == NodeItem(hash, n)
      requires inLine && Hashed(hash, n) ==> n.Branch? || (n.Extension? && Follows(n, k))
      requires inLine && Hashed(hash, n) && n.Branch? && k == [] ==> LonelyItem(orig)
      requires Serves(frame + RefsHeld(hash, n, inLine), exact)
      requires exact && (EndsAtSplit(n, k) || (inLine && Hashed(hash, n) && n.Branch? && k == [])) ==> Clean(hash, strings, frame + RefsBelow(hash, n))
      modifies db`main, db`misses
      ensures b == EncodeNode(hash, Merged(n, k, v))
      ensures Serves(frame + RefsBelow(hash, Merged(n, k, v)), exact)
      ensures exact ==> db.misses == old(db.misses) + if inLine && n.Branch? && k == [] then Lost(n) else Stray(n, k)
      decreases |k|, Rank(n, k), 1
    {
      hide Encode, Decode, HexPrefix, KeyOf, LeafOf, NodeItem, OwnRef, RefsBelow, Sound, Covered, Tally;
      ItemKind(hash, n);
      if orig == Data([]) {
        b := Place(orig, k, v, n, frame, exact, inLine);
      } else if |orig.items| == 2 {
        var key := KeyOf(orig.items[0].bytes);
        var leaf := LeafOf(orig.items[0].bytes);
        if key == k && leaf {
          b := Place(orig, k, v, n, frame, exact, inLine);
        } else if key <= k && !leaf {
          b := MergeBelow(orig, k, v, inLine, n, frame, exact);
        } else {
          b := MergeSplit(orig, k, v, n, frame, exact, inLine);
        }
      } else if |k| == 0 {
        b := Place(orig, k, v, n, frame, exact, inLine);
      } else {
        b := MergeBranch(orig, k, v, inLine, n, frame, exact);
      }
    }

    /** The key leads on through an extension. */
    method MergeBelow(orig: Item, k: Nibbles, v: Bytes, inLine: bool, ghost n: Node, ghost frame: multiset<Hash>, ghost exact: bool)
      returns (b: Bytes)
      requires Ready(n, k, v) && orig == NodeItem(hash, n) && n.Extension? && Follows(n, k)
      requires Serves(frame + RefsHeld(hash, n, inLine), exact)
      requires exact && EndsAtSplit(n, k) ==> Clean(hash, strings, frame + RefsBelow(hash, n))
      modifies db`main, db`misses
      ensures b == EncodeNode(hash, Merged(n, k, v))
      ensures Serves(frame + RefsBelow(hash, Merged(n, k, v)), exact)
      ensures exact ==> db.misses == old(db.misses) + Stray(n, k)
      decreases |k|, 1, 0
    {
      hide Encode, Decode, HexPrefix, KeyOf, LeafOf, OwnRef, Sound, Covered, Tally;
      ItemKind(hash, n);
      if !inLine {
        assert frame + RefsHeld(hash, n, inLine) == frame + RefsBelow(hash, n) + OwnRef(hash, n);
        KillNode(orig, n, frame + RefsBelow(hash, n), exact, true);
      } else {
        assert frame + RefsHeld(hash, n, inLine) == frame + RefsBelow(hash, n);
      }
      var key := KeyOf(orig.items[0].bytes);
      var ref := MergeAtAux(orig.items[1], k[|key|..], v, n.child, frame, exact);
      b := Encode(List([orig.items[0], ref]));
    }

    /** The key leads on through an entry of a branch. */
    method MergeBranch(orig: Item, k: Nibbles, v: Bytes, inLine: bool, ghost n: Node, ghost frame: multiset<Hash>, ghost exact: bool)
      returns (b: Bytes)
      requires Ready(n, k, v) && orig == NodeItem(hash, n) && n.Branch? && k != []
      requires Serves(frame + RefsHeld(hash, n, inLine), exact)
      requires exact && EndsAtSplit(n, k) ==> Clean(hash, strings, frame + RefsBelow(hash, n))
      modifies db`main, db`misses
      ensures b == EncodeNode(hash, Merged(n, k, v))
      ensures Serves(frame + RefsBelow(hash, Merged(n, k, v)), exact)
      ensures exact ==> db.misses == old(db.misses) + Stray(n, k)
      decreases |k|, 0, 0
    {
      hide Encode, Decode, NodeItem, OwnRef, LiveRefs, RefsBelow, Sound, Covered, Tally;
      if !inLine {
        assert frame + RefsHeld(hash, n, inLine) == frame + RefsBelow(hash, n) + OwnRef(hash, n);
        KillNode(orig, n, frame + RefsBelow(hash, n), exact, true);
      } else {
        assert frame + RefsHeld(hash, n, inLine) == frame + RefsBelow(hash, n);
      }
      var i := k[0];
      ghost var merged := Merged(n.children[i], k[1..], v);
      ghost var others := EntryReplaced(n, i, merged, frame, exact);
      var ref := MergeAtAux(orig.items[i], k[1..], v, n.children[i], others, exact);
      b := Encode(List(orig.items[i := ref]));
    }

    /** Entry i of a branch and the references besides it, before and after it is replaced. */
    lemma EntryReplaced(n: Node, i: nat, child: Node, frame: multiset<Hash>, exact: bool) returns (others: multiset<Hash>)
      requires n.Branch? && |n.children| == 16 && i < 16
      ensures var n' := n.(children := n.children[i := child]);
        && NodeItem(hash, n).List? && |NodeItem(hash, n).items| == 17 && NodeItem(hash, n).items[i] == Ref(hash, n.children[i])
        && NodeItem(hash, n') == List(NodeItem(hash, n).items[i := Ref(hash, child)])
        && frame + RefsBelow(hash, n) == others + LiveRefs(hash, n.children[i])
        && frame + RefsBelow(hash, n') == others + LiveRefs(hash, child)
      ensures others + RefsBelow(hash, n.children[i]) <= frame + RefsBelow(hash, n)
    {
      hide Encode, OwnRef, AllRefs, Refs, Ref;
      others := frame + Siblings(hash, n.children, i);
      SplitChildRefs(hash, n.children, i);
      SplitRefs(hash, n.children, i, child);
      RefsUpdate(hash, n.children, i, child);
      assert Refs(hash, n.children)[i := Ref(hash, child)] + [Data(SlotBytes(n.slot))]
          == (Refs(hash, n.children) + [Data(SlotBytes(n.slot))])[i := Ref(hash, child)];
    }

    /** Key and node disagree: cleve behind what they share, or make a branch, and merge again. */
    method MergeSplit(orig: Item, k: Nibbles, v: Bytes, ghost n: Node, ghost frame: multiset<Hash>, ghost exact: bool, ghost inLine: bool)
      returns (b: Bytes)
      requires Ready(n, k, v) && orig == NodeItem(hash, n)
      requires (n.Leaf? || n.Extension?) && !Follows(n, k)
      requires inLine ==> !Hashed(hash, n)
      requires Serves(frame + RefsHeld(hash, n, inLine), exact)
      requires exact && EndsAtSplit(n, k) ==> Clean(hash, strings, frame + RefsBelow(hash, n))
      modifies db`main, db`misses
      ensures b == EncodeNode(hash, Merged(n, k, v))
      ensures Serves(frame + RefsBelow(hash, Merged(n, k, v)), exact)
      ensures exact ==> db.misses == old(db.misses) + Stray(n, k)
      decreases |k|, 2, 0
    {
      hide Encode, Decode, HexPrefix, KeyOf, LeafOf, NodeItem, RefsBelow, Sound, Covered, Tally, Clean;
      hide AllIn, CoversMerge, Sized, Merged, Branched, LonelyItem;
      ItemKind(hash, n);
      assert frame + RefsHeld(hash, n, inLine) == frame + LiveRefs(hash, n);
      var shared := Shared(k, KeyOf(orig.items[0].bytes));
      ShortOfExtension(n, k);
      if shared > 0 {
        ghost var top := Extension(n.key[..shared], Tail(n, shared));
        CleveReady(n, k, v, frame, exact);
        var cleved := Cleve(orig, shared, n, frame, exact);
        DecodeNode(hash, top);
        assert frame + RefsHeld(hash, top, true) == frame + LiveRefs(hash, Tail(n, shared));
        b := MergeAt(Decode(cleved).value, k, v, true, top, frame, exact);
      } else {
        BranchedReady(n, k, v, frame, exact);
        var branched := MakeBranch(orig, n, frame, exact);
        DecodeNode(hash, Branched(n));
        assert frame + RefsHeld(hash, Branched(n), true) == frame + RefsBelow(hash, Branched(n));
        b := MergeAt(Decode(branched).value, k, v, true, Branched(n), frame, exact);
      }
    }

    /** mergeAtAux: merges into the node a reference stands for. */
    method MergeAtAux(orig: Item, k: Nibbles, v: Bytes, ghost n: Node, ghost frame: multiset<Hash>, ghost exact: bool)
      returns (ref: Item)
      requires Ready(n, k, v) && orig == Ref(hash, n)
      requires Serves(frame + LiveRefs(hash, n), exact)
      requires exact && EndsAtSplit(n, k) ==> Clean(hash, strings, frame + RefsBelow(hash, n))
      modifies db`main, db`misses
      ensures ref == Ref(hash, Merged(n, k, v))
      ensures Serves(frame + LiveRefs(hash, Merged(n, k, v)), exact)
      ensures exact ==> db.misses == old(db.misses) + Stray(n, k)
      decreases |k|, 3, 0
    {
      hide Encode, Decode, NodeItem, Ref, RefsBelow, Sound, Covered, Tally, Clean;
      RefKind(hash, n);
      var r := orig;
      var isRemovable := false;
      if orig.Data? && orig != Data([]) {
        r := ReadNode(orig.bytes, n, frame + LiveRefs(hash, n), exact);
        isRemovable := true;
      }
      assert frame + RefsHeld(hash, n, !isRemovable) == frame + LiveRefs(hash, n);
      var b := MergeAt(r, k, v, !isRemovable, n, frame, exact);
      ghost var merged := Merged(n, k, v);
      MergedAllIn(hash, strings, n, k, v);
      MergedSized(n, k, v);
      ref := StreamNode(b, merged, frame + RefsBelow(hash, merged), exact);
      assert frame + RefsBelow(hash, merged) + OwnRef(hash, merged) == frame + LiveRefs(hash, merged);
    }

    /** cleve leaves the merge an extension it can follow. */
    lemma CleveReady(n: Node, k: Nibbles, v: Bytes, frame: multiset<Hash>, exact: bool)
      requires CollisionFree(hash, strings) && Ready(n, k, v)
      requires (n.Leaf? || n.Extension?) && !Follows(n, k) && Shared(k, n.key) > 0
      requires exact && EndsAtSplit(n, k) ==> Clean(hash, strings, frame + RefsBelow(hash, n))
      ensures var s := Shared(k, n.key);
        (n.Extension? ==> s < |n.key|) &&
        var top := Extension(n.key[..s], Tail(n, s));
        && Known(top) && Ready(top, k, v) && Follows(top, k) && Merged(top, k, v) == Merged(n, k, v)
        && (EndsAtSplit(top, k) <==> EndsAtSplit(n, k))
        && (EndsAtSplit(n, k) ==> MadeBranch(top, k) == MadeBranch(n, k))
        && RefsBelow(hash, top) == LiveRefs(hash, Tail(n, s))
        && (exact && EndsAtSplit(n, k) ==> Clean(hash, strings, frame + RefsBelow(hash, top)))
    {
      hide Encode, Decode, HexPrefix, NodeItem, OwnRef, Clean;
      var s := Shared(k, n.key);
      ShortOfExtension(n, k);
      var tail := Tail(n, s);
      CleveItems(n, s);
      assert AllIn(hash, strings, tail);
      if exact && EndsAtSplit(n, k) {
        CleanAdd(hash, strings, frame + RefsBelow(hash, n), tail);
        assert frame + RefsBelow(hash, n) + OwnRef(hash, tail) == frame + LiveRefs(hash, tail);
      }
      assert |n.key[..s]| == s && Sized(tail);
    }

    /** branch leaves the merge a branch, with a single entry if it was never stored. */
    lemma BranchedReady(n: Node, k: Nibbles, v: Bytes, frame: multiset<Hash>, exact: bool)
      requires CollisionFree(hash, strings) && Ready(n, k, v)
      requires (n.Leaf? || n.Extension?) && !Follows(n, k) && Shared(k, n.key) == 0
      requires exact && EndsAtSplit(n, k) ==> Clean(hash, strings, frame + RefsBelow(hash, n))
      ensures var m := Branched(n);
        && Known(m) && Ready(m, k, v) && Merged(m, k, v) == Merged(n, k, v)
        && !EndsAtSplit(m, k) && (EndsAtSplit(n, k) <==> k == []) && (k == [] ==> MadeBranch(n, k) == m)
        && LonelyItem(NodeItem(hash, m))
        && (exact && EndsAtSplit(n, k) ==> Clean(hash, strings, frame + RefsBelow(hash, m)))
    {
      hide Encode, Decode, HexPrefix, NodeItem, OwnRef, Clean, RefsBelow, BelowBranch;
      BranchedIsLonely(hash, n);
      BranchedSized(n);
      BranchedRefs(hash, n);
      if exact && EndsAtSplit(n, k) {
        BelowKnown(n);
        if n.Leaf? || |n.key| > 1 {
          BelowItem(hash, n);
          BelowKind(n);
          CleanAdd(hash, strings, frame + RefsBelow(hash, n), BelowBranch(n));
          assert frame + RefsBelow(hash, n) + OwnRef(hash, BelowBranch(n)) == frame + LiveRefs(hash, BelowBranch(n));
        }
      }
    }

    lemma BelowKind(n: Node)
      requires (n.Leaf? || n.Extension?) && n.key != [] && (n.Leaf? || |n.key| > 1)
      ensures BelowBranch(n).Leaf? || BelowBranch(n).Extension?
    {
    }

    /** insert: sets the value of a key. */
    method Insert(key: Bytes, value: Bytes, ghost frame: multiset<Hash>, ghost exact: bool)
      requires Valid() && Ready(tree, Unpack(key), value)
      requires Serves(frame + RootRefs(hash, tree), exact)
      requires exact && EndsAtSplit(tree, Unpack(key)) ==> Clean(hash, strings, frame + RootRefs(hash, tree))
      modifies this`root, this`tree, db`main, db`misses
      ensures Valid() && tree == Merged(old(tree), Unpack(key), value)
      ensures Serves(frame + RootRefs(hash, tree), exact)
      ensures exact ==> db.misses == old(db.misses) + Stray(old(tree), Unpack(key))
    {
      hide Encode, Decode, NodeItem, RefsBelow, Sound, Covered, Tally, Merged, Lookup;
      var k := Unpack(key);
      ghost var n, n' := tree, Merged(tree, k, value);
      LookupFinds(hash, strings, db.main, db.disk, frame + RootRefs(hash, tree), EncodeNode(hash, tree));
      var rootValue := db.Find(root);
      DecodeNode(hash, tree);
      ghost var others := frame + ShortRootRef(n);
      assert frame + RootRefs(hash, n) == others + RefsHeld(hash, n, false);
      assert others + RefsBelow(hash, n) <= frame + RootRefs(hash, n);
      var b := MergeAt(Decode(rootValue).value, k, value, false, n, others, exact);
      MergedAllIn(hash, strings, n, k, value);
      MergedSizedIn(n, k, value, MAX_SIZE);
      SizedInSized(n', MAX_SIZE);
      MergedWellFormed(n, k, value);
      ReplaceRoot(rootValue, b, n', frame, exact);
    }

    /** The root's own reference, where mergeAt and deleteAt do not count it. */
    ghost function ShortRootRef(n: Node): multiset<Hash> {
      if Hashed(hash, n) then multiset{} else multiset{hash(EncodeNode(hash, n))}
    }

    /** Drops an old root that was too short to be dropped on the way, and stores the new one. */
    method ReplaceRoot(rootValue: Bytes, b: Bytes, ghost n: Node, ghost frame: multiset<Hash>, ghost exact: bool)
      requires Valid() && rootValue == EncodeNode(hash, tree)
      requires WellFormed(n) && SizedIn(n, MAX_SIZE) && Known(n) && b == EncodeNode(hash, n)
      requires Serves(frame + ShortRootRef(tree) + RefsBelow(hash, n), exact)
      modifies this`root, this`tree, db`main, db`misses
      ensures Valid() && tree == n
      ensures Serves(frame + RootRefs(hash, n), exact)
      ensures exact ==> db.misses == old(db.misses)
    {
      hide Encode, Decode, NodeItem, RefsBelow, Sound, Covered, Tally;
      if |rootValue| < 32 {
        KillServes(hash, strings, db.main, db.disk, frame + ShortRootRef(tree) + RefsBelow(hash, n), exact, root);
        assert frame + ShortRootRef(tree) + RefsBelow(hash, n) - multiset{root} == frame + RefsBelow(hash, n);
        db.Kill(root);
      } else {
        assert frame + ShortRootRef(tree) + RefsBelow(hash, n) == frame + RefsBelow(hash, n);
      }
      DecodeNode(hash, n);
      InsertServes(hash, strings, db.main, db.disk, frame + RefsBelow(hash, n), exact, b);
      assert frame + RefsBelow(hash, n) + multiset{hash(b)} == frame + RootRefs(hash, n);
      root := hash(b);
      db.Insert(root, b);
      tree := n;
    }

    // -------------------------------------------------------------- lookup

    /** at: the value of a key, or nothing. */
    method At(key: Bytes, ghost frame: multiset<Hash>) returns (value: Bytes)
      requires Valid() && Serves(frame + RootRefs(hash, tree), false)
      ensures value == SlotBytes(Get(tree, Unpack(key)))
    {
      hide Encode, Decode, NodeItem, RefsBelow, Sound, Covered, Tally, Get;
      assert RefsBelow(hash, tree) <= frame + RootRefs(hash, tree);
      var item := ReadNode(root, tree, frame + RootRefs(hash, tree), false);
      value := AtAux(item, Unpack(key), tree, frame + RootRefs(hash, tree));
    }

    method AtAux(here: Item, k: Nibbles, ghost n: Node, ghost live: multiset<Hash>) returns (value: Bytes)
      requires Known(n) && here == NodeItem(hash, n)
      requires RefsBelow(hash, n) <= live && Serves(live, false)
      ensures value == SlotBytes(Get(n, k))
      decreases n
    {
      hide Encode, Decode, HexPrefix, KeyOf, LeafOf, OwnRef, AllRefs, Sound, Covered, Tally;
      ItemKind(hash, n);
      if here == Data([]) {
        return [];
      }
      if |here.items| == 2 {
        var key := KeyOf(here.items[0].bytes);
        var leaf := LeafOf(here.items[0].bytes);
        if k == key && leaf {
          return here.items[1].bytes;
        } else if key <= k && !leaf {
          var child := Dereference(here.items[1], n.child, live);
          value := AtAux(child, k[|key|..], n.child, live);
        } else {
          return [];
        }
      } else {
        if |k| == 0 {
          return here.items[16].bytes;
        }
        var ref := here.items[k[0]];
        RefKind(hash, n.children[k[0]]);
        if ref == Data([]) || ref == List([]) {
          return [];
        }
        SplitChildRefs(hash, n.children, k[0]);
        var child := Dereference(ref, n.children[k[0]], live);
        value := AtAux(child, k[1..], n.children[k[0]], live);
      }
    }

    /** The node a reference stands for: the list itself, or what is stored under the hash. */
    method Dereference(ref: Item, ghost n: Node, ghost live: multiset<Hash>) returns (item: Item)
      requires Known(n) && n != Null && ref == Ref(hash, n)
      requires LiveRefs(hash, n) <= live && Serves(live, false)
      ensures item == NodeItem(hash, n)
    {
      hide Encode, Decode, NodeItem, Ref, RefsBelow, Sound, Covered, Tally;
      RefKind(hash, n);
      if ref.List? {
        item := ref;
      } else {
        assert OwnRef(hash, n) <= live;
        item := ReadNode(ref.bytes, n, live, false);
      }
    }

    // -------------------------------------------------------------- removal

    /** isTwoItemNode: is it a leaf or an extension that the reference stands for? */
    method IsTwoItemNode(ref: Item, ghost n: Node, ghost live: multiset<Hash>) returns (two: bool)
      requires Known(n) && n != Null && ref == Ref(hash, n)
      requires LiveRefs(hash, n) <= live && Serves(live, false)
      ensures two <==> n.Leaf? || n.Extension?
    {
      hide Encode, Decode, NodeItem, Ref, RefsBelow, Sound, Covered, Tally;
      RefKind(hash, n);
      ItemKind(hash, n);
      if ref.Data? {
        assert OwnRef(hash, n) <= live;
        var item := ReadNode(ref.bytes, n, live, false);
        two := |item.items| == 2;
      } else {
        two := |ref.items| == 2;
      }
    }

    /** graft: joins an extension with the two-item node behind it. */
    method GraftNode(orig: Item, ghost key: Nibbles, ghost n: Node, ghost frame: multiset<Hash>, ghost exact: bool) returns (b: Bytes)
      requires Known(n) && (n.Leaf? || n.Extension?)
      requires orig == List([Data(HexPrefix(key, false)), Ref(hash, n)])
      requires Serves(frame + LiveRefs(hash, n), exact)
      modifies db`main, db`misses
      ensures b == EncodeNode(hash, Graft(key, n))
      ensures Serves(frame + RefsBelow(hash, Graft(key, n)), exact)
      ensures exact ==> db.misses == old(db.misses)
    {
      hide Encode, Decode, HexPrefix, KeyOf, LeafOf, NodeItem, Ref, OwnRef, RefsBelow, Sound, Covered, Tally;
      RefKind(hash, n);
      ItemKind(hash, n);
      GraftItem(key, n);
      HexPrefixRoundTrip(key, false);
      assert frame + LiveRefs(hash, n) == frame + RefsBelow(hash, n) + OwnRef(hash, n);
      var inner := orig.items[1];
      if !inner.List? {
        var h := inner.bytes;
        OwnRefIs(n);
        inner := ReadNode(h, n, frame + LiveRefs(hash, n), exact);
        KillServes(hash, strings, db.main, db.disk, frame + LiveRefs(hash, n), exact, h);
        assert frame + LiveRefs(hash, n) - multiset{h} == frame + RefsBelow(hash, n);
        db.Kill(h);
      } else {
        OwnRefIs(n);
        assert frame + LiveRefs(hash, n) == frame + RefsBelow(hash, n);
      }
      var joined := KeyOf(orig.items[0].bytes) + KeyOf(inner.items[0].bytes);
      b := Encode(List([Data(HexPrefix(joined, LeafOf(inner.items[0].bytes))), inner.items[1]]));
    }

    lemma OwnRefIs(n: Node)
      ensures OwnRef(hash, n) == if Hashed(hash, n) then multiset{hash(EncodeNode(hash, n))} else multiset{}
    {
    }

    lemma GraftItem(key: Nibbles, n: Node)
      requires n.Leaf? || n.Extension?
      ensures NodeItem(hash, n).List? && |NodeItem(hash, n).items| == 2
      ensures NodeItem(hash, Graft(key, n)) == List([Data(HexPrefix(key + n.key, n.Leaf?)), NodeItem(hash, n).items[1]])
      ensures RefsBelow(hash, Graft(key, n)) == RefsBelow(hash, n)
    {
      hide Encode, HexPrefix;
    }

    /** What is left of a branch with one child: that child, one nibble further up. */
    method MergeOnly(items: seq<Item>, u: nat, ghost children: seq<Node>, ghost slot: Option<Bytes>,
                     ghost frame: multiset<Hash>, ghost exact: bool) returns (b: Bytes)
      requires |items| == 17 && |children| == 16 && u < 16
      requires OnlyUsed(children, slot, u) && Known(children[u]) && items[u] == Ref(hash, children[u])
      requires Serves(frame + AllRefs(hash, children), exact)
      modifies db`main, db`misses
      ensures b == EncodeNode(hash, Collapse(children, slot))
      ensures Serves(frame + RefsBelow(hash, Collapse(children, slot)), exact)
      ensures exact ==> db.misses == old(db.misses)
    {
      hide Encode, Decode, HexPrefix, OwnRef, AllRefs, Sound, Covered, Tally, Collapse;
      OnlyChildRefs(hash, children, slot, u);
      CollapseUnique(children, slot, u);
      ghost var child := children[u];
      assert child != Null by {
        assert Used(children, slot, u);
      }
      var merged := MergeItem(items, u);
      var two := IsTwoItemNode(items[u], child, frame + LiveRefs(hash, child));
      if two {
        b := GraftNode(merged, [u], child, frame, exact);
      } else {
        assert Graft([u], child) == Extension([u], child);
        b := Encode(merged);
      }
    }

    /** The same for the value of a branch, which is looked up all the same. */
    method MergeValue(items: seq<Item>, ghost children: seq<Node>, ghost v: Bytes, ghost frame: multiset<Hash>,
      ghost exact: bool)
      returns (b: Bytes)
      requires |items| == 17 && |children| == 16 && items[16] == Data(v)
      requires OnlyUsed(children, Some(v), 16) && PassesAsReference(hash, strings, v)
      requires Serves(frame + AllRefs(hash, children), exact)
      ensures b == EncodeNode(hash, Collapse(children, Some(v)))
      ensures Serves(frame + RefsBelow(hash, Collapse(children, Some(v))), exact)
    {
      hide Encode, Decode, HexPrefix, Collapse, AllRefs;
      CollapseUnique(children, Some(v), 16);
      NoneUsed(children, v);
      NothingBelow(hash, children);
      var node := db.Find(ToHash(items[16]).value);
      FoundInStrings(node, v);
      if ItemCount(node) != 2 {
        b := Encode(MergeItem(items, 16));
      } else {
        assert false;
      }
    }

    lemma NoneUsed(children: seq<Node>, v: Bytes)
      requires |children| == 16 && OnlyUsed(children, Some(v), 16)
      ensures forall i :: 0 <= i < 16 ==> children[i] == Null
    {
      forall i | 0 <= i < 16
        ensures children[i] == Null
      {
        assert !Used(children, Some(v), i);
      }
    }

    lemma FoundInStrings(node: Bytes, v: Bytes)
      requires PassesAsReference(hash, strings, v) && node == db.Find(ToHash(Data(v)).value)
      requires Sound(hash, strings, db.main, db.disk)
      ensures ItemCount(node) != 2
    {
      hide Decode;
      if node == [] {
        NothingDecoded();
      }
    }

    lemma NothingDecoded()
      ensures ItemCount([]) == 0
    {
    }

    /** What the contracts of the removal methods ask of a node. */
    ghost predicate Deletable(n: Node, k: Nibbles, room: nat) {
      && WellFormed(n) && Known(n) && SizedIn(n, room) && room <= MAX_SIZE && Removable(hash, strings, n, k)
      && (Get(n, k).Some? ==> CoversDelete(hash, strings, n, k))
    }

    lemma {:induction false} DeletedKnown(n: Node, k: Nibbles, room: nat)
      requires Deletable(n, k, room) && Get(n, k).Some?
      ensures Known(Deleted(n, k)) && EncodeNode(hash, Deleted(n, k)) != []
    {
      hide Encode, Decode, NodeItem;
      DeletedWellFormed(n, k);
      DeletedSizedIn(n, k, room);
      SizedInSized(Deleted(n, k), room);
      DeletedAllIn(n, k);
      DecodeNode(hash, Deleted(n, k));
    }

    lemma {:induction false} DeletedAllIn(n: Node, k: Nibbles)
      requires WellFormed(n) && Shape(n) && AllIn(hash, strings, n) && Get(n, k).Some? && CoversDelete(hash, strings, n, k)
      ensures AllIn(hash, strings, Deleted(n, k))
      decreases n
    {
      hide Encode, NodeItem;
      match n
      case Leaf(_, _) =>
      case Extension(key, child) =>
        DeletedAllIn(child, k[|key|..]);
        GraftAllIn(key, Deleted(child, k[|key|..]));
      case Branch(children, slot) =>
        if k == [] {
          CollapseAllIn(children, None);
        } else {
          DeletedAllIn(children[k[0]], k[1..]);
          CollapseAllIn(children[k[0] := Deleted(children[k[0]], k[1..])], slot);
        }
    }

    lemma GraftAllIn(key: Nibbles, n: Node)
      requires AllIn(hash, strings, n) && EncodeNode(hash, Graft(key, n)) in strings
      ensures AllIn(hash, strings, Graft(key, n))
    {
      hide Encode, NodeItem;
    }

    lemma CollapseAllIn(children: seq<Node>, slot: Option<Bytes>)
      requires |children| == 16 && forall i :: 0 <= i < 16 ==> AllIn(hash, strings, children[i])
      requires EncodeNode(hash, Collapse(children, slot)) in strings
      ensures AllIn(hash, strings, Collapse(children, slot))
    {
      hide Encode, NodeItem;
      if i: nat :| OnlyUsed(children, slot, i) {
        CollapseUnique(children, slot, i);
        if i < 16 {
          GraftAllIn([i], children[i]);
        }
      }
    }

    /** deleteAt: removes the key from the trie below the item; no bytes mean that it was not there. */
    method DeleteAt(orig: Item, k: Nibbles, ghost n: Node, ghost room: nat, ghost frame: multiset<Hash>, ghost exact: bool)
      returns (b: Bytes)
      requires Deletable(n, k, room) && orig == NodeItem(hash, n)
      requires Serves(frame + LiveRefs(hash, n), exact)
      modifies db`main, db`misses
      ensures Get(n, k).None? ==> b == [] && db.main == old(db.main) && db.misses == old(db.misses)
      ensures Get(n, k).Some? ==> b == EncodeNode(hash, Deleted(n, k)) && b != []
                                  && Serves(frame + RefsBelow(hash, Deleted(n, k)), exact)
      ensures exact ==> db.misses == old(db.misses)
      decreases n, 1
    {
      hide Encode, Decode, HexPrefix, KeyOf, LeafOf, NodeItem, OwnRef, RefsBelow, Sound, Covered, Tally;
      ItemKind(hash, n);
      BranchEntries(n);
      if orig == Data([]) {
        return [];
      }
      if |orig.items| == 2 {
        var key := KeyOf(orig.items[0].bytes);
        if key == k && LeafOf(orig.items[0].bytes) {
          DeletedKnown(n, k, room);
          LeafGone(n, k);
          assert frame + LiveRefs(hash, n) == frame + RefsBelow(hash, n) + OwnRef(hash, n);
          KillNode(orig, n, frame + RefsBelow(hash, n), exact, true);
          return [0x80];
        }
        if key <= k {
          b := DeleteBelow(orig, k, n, room, frame, exact);
        } else {
          return [];
        }
      } else if |k| == 0 && !EmptyItem(orig.items[16]) {
        b := DeleteSlot(orig, n, room, frame, exact);
      } else {
        b := DeleteEntry(orig, k, n, room, frame, exact);
      }
    }

    lemma LeafGone(n: Node, k: Nibbles)
      requires n.Leaf? && n.key == k
      ensures Deleted(n, k) == Null && EncodeNode(hash, Null) == [0x80]
      ensures RefsBelow(hash, n) == multiset{} == RefsBelow(hash, Null)
    {
    }

    lemma BranchEntries(n: Node)
      requires Shape(n)
      ensures n.Branch? ==>
        NodeItem(hash, n).List? &&
        var items := NodeItem(hash, n).items;
        && |items| == 17 && items[16] == Data(SlotBytes(n.slot))
        && forall i :: 0 <= i < 16 ==> items[i] == Ref(hash, n.children[i])
    {
      hide Encode, Ref;
    }

    /** The key leads on through an extension. */
    method DeleteBelow(orig: Item, k: Nibbles, ghost n: Node, ghost room: nat, ghost frame: multiset<Hash>, ghost exact: bool)
      returns (b: Bytes)
      requires Deletable(n, k, room) && orig == NodeItem(hash, n) && n.Extension? && n.key <= k
      requires Serves(frame + LiveRefs(hash, n), exact)
      modifies db`main, db`misses
      ensures Get(n, k).None? ==> b == [] && db.main == old(db.main) && db.misses == old(db.misses)
      ensures Get(n, k).Some? ==> b == EncodeNode(hash, Deleted(n, k)) && b != []
                                  && Serves(frame + RefsBelow(hash, Deleted(n, k)), exact)
      ensures exact ==> db.misses == old(db.misses)
      decreases n, 0
    {
      hide Encode, Decode, HexPrefix, KeyOf, LeafOf, NodeItem, Ref, OwnRef, Sound, Covered, Tally;
      ItemKind(hash, n);
      ExtensionItem(n);
      ghost var rest := k[|n.key|..];
      var key := KeyOf(orig.items[0].bytes);
      assert frame + LiveRefs(hash, n) == frame + OwnRef(hash, n) + LiveRefs(hash, n.child);
      var found, ref := DeleteAtAux(orig.items[1], k[|key|..], n.child, room - |n.key|, frame + OwnRef(hash, n), exact);
      if !found {
        return [];
      }
      ghost var child := Deleted(n.child, rest);
      DeletedKnown(n, k, room);
      DeletedKnown(n.child, rest, room - |n.key|);
      DeletedWellFormed(n.child, rest);
      assert frame + OwnRef(hash, n) + LiveRefs(hash, child) == frame + LiveRefs(hash, child) + OwnRef(hash, n);
      KillNode(orig, n, frame + LiveRefs(hash, child), exact, true);
      var r := List([orig.items[0], ref]);
      var two := IsTwoItemNode(ref, child, frame + LiveRefs(hash, child));
      if two {
        b := GraftNode(r, n.key, child, frame, exact);
      } else {
        ExtensionItem(Extension(n.key, child));
        b := Encode(r);
      }
    }

    lemma ExtensionItem(n: Node)
      requires n.Extension?
      ensures NodeItem(hash, n) == List([Data(HexPrefix(n.key, false)), Ref(hash, n.child)])
    {
    }

    /** The key ends at a branch: its value goes. */
    method DeleteSlot(orig: Item, ghost n: Node, ghost room: nat, ghost frame: multiset<Hash>, ghost exact: bool) returns (b: Bytes)
      requires Deletable(n, [], room) && orig == NodeItem(hash, n) && n.Branch?
      requires Serves(frame + LiveRefs(hash, n), exact)
      modifies db`main, db`misses
      ensures b == EncodeNode(hash, Deleted(n, [])) && b != []
      ensures Serves(frame + RefsBelow(hash, Deleted(n, [])), exact)
      ensures exact ==> db.misses == old(db.misses)
    {
      hide Encode, Decode, NodeItem, Ref, OwnRef, AllRefs, Sound, Covered, Tally, Collapse;
      BranchEntries(n);
      BranchEntries(n.(slot := None));
      DeletedKnown(n, [], room);
      assert frame + LiveRefs(hash, n) == frame + RefsBelow(hash, n) + OwnRef(hash, n);
      KillNode(orig, n, frame + RefsBelow(hash, n), exact, true);
      var used := UniqueInUse(orig.items, 16);
      if used != NOT_UNIQUE {
        InUseMeansUsed(hash, n.children, n.slot, used);
        b := MergeOnly(orig.items, used, n.children, None, frame, exact);
      } else {
        CollapseKeeps(n.children, n.slot, None, 16);
        b := Encode(List(orig.items[..16] + [Data([])]));
        assert orig.items[..16] + [Data([])] == NodeItem(hash, n.(slot := None)).items;
      }
    }

    lemma CollapseKeeps(children: seq<Node>, full: Option<Bytes>, slot: Option<Bytes>, except: nat)
      requires |children| == 16 && full != Some([])
      requires (except == 16 && slot == None) || (except == NOT_UNIQUE && slot == full)
      requires forall u: nat :: !OnlyInUse(NodeItem(hash, Branch(children, full)).items, except, u)
      ensures Collapse(children, slot) == Branch(children, slot)
    {
      forall u: nat
        ensures !OnlyUsed(children, slot, u)
      {
        InUseMeansUsed(hash, children, full, u);
      }
    }

    /** The key leads on through an entry of a branch. */
    method DeleteEntry(orig: Item, k: Nibbles, ghost n: Node, ghost room: nat, ghost frame: multiset<Hash>, ghost exact: bool)
      returns (b: Bytes)
      requires Deletable(n, k, room) && orig == NodeItem(hash, n) && n.Branch? && k != []
      requires Serves(frame + LiveRefs(hash, n), exact)
      modifies db`main, db`misses
      ensures Get(n, k).None? ==> b == [] && db.main == old(db.main) && db.misses == old(db.misses)
      ensures Get(n, k).Some? ==> b == EncodeNode(hash, Deleted(n, k)) && b != []
                                  && Serves(frame + RefsBelow(hash, Deleted(n, k)), exact)
      ensures exact ==> db.misses == old(db.misses)
      decreases n, 0
    {
      hide Encode, Decode, NodeItem, Ref, OwnRef, AllRefs, Sound, Covered, Tally, Collapse;
      var i := k[0];
      ghost var child, rest := n.children[i], k[1..];
      ghost var child' := if Get(child, rest).Some? then Deleted(child, rest) else child;
      ghost var others := EntryReplaced(n, i, child', frame, exact);
      assert frame + LiveRefs(hash, n) == frame + RefsBelow(hash, n) + OwnRef(hash, n);
      assert others + LiveRefs(hash, child) + OwnRef(hash, n) == others + OwnRef(hash, n) + LiveRefs(hash, child);
      var found, ref := DeleteAtAux(orig.items[i], k[1..], child, room - 1, others + OwnRef(hash, n), exact);
      if !found {
        return [];
      }
      ghost var n' := n.(children := n.children[i := child']);
      DeletedKnown(n, k, room);
      DeletedKnown(child, rest, room - 1);
      assert others + OwnRef(hash, n) + LiveRefs(hash, child') == frame + RefsBelow(hash, n') + OwnRef(hash, n);
      KillNode(orig, n, frame + RefsBelow(hash, n'), exact, true);
      BranchEntries(n');
      var items := orig.items[i := ref];
      var used := UniqueInUse(items, NOT_UNIQUE);
      if used == NOT_UNIQUE {
        CollapseKeeps(n'.children, n.slot, n.slot, NOT_UNIQUE);
        b := Encode(List(items));
      } else {
        InUseMeansUsed(hash, n'.children, n.slot, used);
        if used == 16 {
          b := MergeValue(items, n'.children, n.slot.value, frame, exact);
        } else {
          b := MergeOnly(items, used, n'.children, n.slot, frame, exact);
        }
      }
    }

    /** deleteAtAux: removes the key from the node a reference stands for. */
    method DeleteAtAux(orig: Item, k: Nibbles, ghost n: Node, ghost room: nat, ghost frame: multiset<Hash>, ghost exact: bool)
      returns (found: bool, ref: Item)
      requires Deletable(n, k, room) && orig == Ref(hash, n)
      requires Serves(frame + LiveRefs(hash, n), exact)
      modifies db`main, db`misses
      ensures found <==> Get(n, k).Some?
      ensures !found ==> db.main == old(db.main) && db.misses == old(db.misses)
      ensures found ==> ref == Ref(hash, Deleted(n, k)) && Serves(frame + LiveRefs(hash, Deleted(n, k)), exact)
      ensures exact ==> db.misses == old(db.misses)
      decreases n, 2
    {
      hide Encode, Decode, NodeItem, Ref, RefsBelow, Sound, Covered, Tally;
      RefKind(hash, n);
      ref := orig;
      if EmptyItem(orig) {
        return false, orig;
      }
      var here := Dereference(orig, n, frame + LiveRefs(hash, n));
      var b := DeleteAt(here, k, n, room, frame, exact);
      if |b| == 0 {
        return false, orig;
      }
      ghost var gone := Deleted(n, k);
      DeletedKnown(n, k, room);
      ref := StreamNode(b, gone, frame + RefsBelow(hash, gone), exact);
      assert frame + RefsBelow(hash, gone) + OwnRef(hash, gone) == frame + LiveRefs(hash, gone);
      found := true;
    }

    /** remove: takes a key out; a key that is not there changes nothing. */
    method Remove(key: Bytes, ghost frame: multiset<Hash>, ghost exact: bool)
      requires Valid() && Deletable(tree, Unpack(key), MAX_SIZE)
      requires Serves(frame + RootRefs(hash, tree), exact)
      modifies this`root, this`tree, db`main, db`misses
      ensures Valid()
      ensures tree == if Get(old(tree), Unpack(key)).Some? then Deleted(old(tree), Unpack(key)) else old(tree)
      ensures Get(old(tree), Unpack(key)).None? ==> root == old(root) && db.main == old(db.main)
      ensures Serves(frame + RootRefs(hash, tree), exact)
      ensures exact ==> db.misses == old(db.misses)
    {
      hide Encode, Decode, NodeItem, RefsBelow, Sound, Covered, Tally, Lookup, Deleted, Get, Removable, CoversDelete;
      var k := Unpack(key);
      ghost var n := tree;
      LookupFinds(hash, strings, db.main, db.disk, frame + RootRefs(hash, tree), EncodeNode(hash, tree));
      var rootValue := db.Find(root);
      DecodeNode(hash, tree);
      ghost var others := frame + ShortRootRef(n);
      assert frame + RootRefs(hash, n) == others + LiveRefs(hash, n);
      var b := DeleteAt(Decode(rootValue).value, k, n, MAX_SIZE, others, exact);
      if |b| > 0 {
        DeletedKnown(n, k, MAX_SIZE);
        DeletedWellFormed(n, k);
        DeletedSizedIn(n, k, MAX_SIZE);
        ReplaceRoot(rootValue, b, Deleted(n, k), frame, exact);
      }
    }
  }
}
