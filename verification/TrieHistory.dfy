/** What the trie is for: the root depends on the contents alone and commits to them. */
module TrieHistory {
  import opened Bytes
  import opened Rlp
  import opened TrieCommon
  import opened TrieNode
  import opened TrieEncoding
  import opened Trie

  // ---------------------------------------------------------------- runs

  datatype Op = Put(key: Nibbles, value: Bytes) | Erase(key: Nibbles)

  /** What one insert or remove makes of the trie; TrieRuns has the class do it. */
  ghost function Step(n: Node, op: Op): (next: Node)
    requires WellFormed(n) && Shape(n)
    ensures WellFormed(next) && Shape(next)
  {
    match op
    case Put(k, v) => MergedWellFormed(n, k, v); Merged(n, k, v)
    case Erase(k) =>
      if Get(n, k).Some? then DeletedWellFormed(n, k); Deleted(n, k) else n
  }

  ghost function RunTrie(ops: seq<Op>): (n: Node)
    ensures WellFormed(n) && Shape(n)
  {
    if ops == [] then Null else Step(RunTrie(ops[..|ops| - 1]), ops[|ops| - 1])
  }

  function RunMap(ops: seq<Op>): map<Nibbles, Bytes> {
    if ops == [] then map[]
    else
      var m := RunMap(ops[..|ops| - 1]);
      match ops[|ops| - 1]
      case Put(k, v) => m[k := v]
      case Erase(k) => m - {k}
  }

  /** After any run of inserts and removes the trie holds exactly the entries of the resulting map. */
  lemma {:induction false} RunRepresents(ops: seq<Op>)
    ensures Represents(RunTrie(ops), RunMap(ops))
  {
    if ops != [] {
      var before, op := ops[..|ops| - 1], ops[|ops| - 1];
      var n := RunTrie(before);
      RunRepresents(before);
      forall k
        ensures Get(RunTrie(ops), k) == Entry(RunMap(ops), k)
      {
        match op
        case Put(key, value) => GetMerged(n, key, value, k);
        case Erase(key) =>
          if Get(n, key).Some? {
            DeletedWellFormed(n, key);
            GetDeleted(n, key, k);
          }
      }
    }
  }

  /** Two runs end in the same trie, and so in the same root, exactly when they end in the same map. */
  lemma HistoryDoesNotMatter(a: seq<Op>, b: seq<Op>)
    ensures RunMap(a) == RunMap(b) <==> RunTrie(a) == RunTrie(b)
  {
    RunRepresents(a);
    RunRepresents(b);
    Unique(RunTrie(a), RunTrie(b));
    if RunTrie(a) == RunTrie(b) {
      forall k
        ensures Entry(RunMap(a), k) == Entry(RunMap(b), k)
      {
        assert Get(RunTrie(a), k) == Entry(RunMap(a), k) && Get(RunTrie(b), k) == Entry(RunMap(b), k);
      }
      SameEntries(RunMap(a), RunMap(b));
    }
  }

  lemma SameEntries(a: map<Nibbles, Bytes>, b: map<Nibbles, Bytes>)
    requires forall k :: Entry(a, k) == Entry(b, k)
    ensures a == b
  {
    assert forall k :: k in a ==> Entry(a, k) == Entry(b, k);
    assert forall k :: k in b ==> Entry(a, k) == Entry(b, k);
  }

  // ---------------------------------------------------------------- the root commits to the contents

  /** No branch holds an empty value, which would look like no value at all. */
  ghost predicate Visible(n: Node) {
    match n
    case Null => true
    case Leaf(_, _) => true
    case Extension(_, child) => Visible(child)
    case Branch(children, slot) => slot != Some([]) && forall i :: 0 <= i < |children| ==> Visible(children[i])
  }

  lemma {:induction false} NonEmptyVisible(n: Node)
    requires Shape(n) && forall k :: Get(n, k) != Some([])
    ensures Visible(n)
  {
    match n
    case Null =>
    case Leaf(_, _) =>
    case Extension(key, child) =>
      forall k
        ensures Get(child, k) != Some([])
      {
        ExtensionGet(key, child, k);
      }
      NonEmptyVisible(child);
    case Branch(children, slot) =>
      assert Get(n, []) == slot;
      forall i | 0 <= i < 16
        ensures Visible(children[i])
      {
        forall k
          ensures Get(children[i], k) != Some([])
        {
          assert ([i as Nibble] + k)[1..] == k;
          assert Get(n, [i] + k) == Get(children[i], k);
        }
        NonEmptyVisible(children[i]);
      }
  }

  /** Without collisions, two tries with the same root bytes are the same trie. */
  lemma {:induction false} RootCommits(hash: HashFn, strings: iset<Bytes>, a: Node, b: Node)
    requires CollisionFree(hash, strings)
    requires Shape(a) && Sized(a) && AllIn(hash, strings, a) && Visible(a)
    requires Shape(b) && Sized(b) && AllIn(hash, strings, b) && Visible(b)
    ensures EncodeNode(hash, a) == EncodeNode(hash, b) <==> a == b
    decreases a, 1
  {
    hide Encode, HexPrefix, Ref;
    if EncodeNode(hash, a) == EncodeNode(hash, b) {
      DecodeNode(hash, a);
      DecodeNode(hash, b);
      ItemKind(hash, a);
      ItemKind(hash, b);
      if a.Extension? && b.Extension? {
        RefCommits(hash, strings, a.child, b.child);
      } else if a.Branch? && b.Branch? {
        BranchCommits(hash, strings, a, b);
      }
    }
  }

  lemma {:induction false} BranchCommits(hash: HashFn, strings: iset<Bytes>, a: Node, b: Node)
    requires CollisionFree(hash, strings) && a.Branch? && b.Branch?
    requires Shape(a) && Sized(a) && AllIn(hash, strings, a) && Visible(a)
    requires Shape(b) && Sized(b) && AllIn(hash, strings, b) && Visible(b)
    requires NodeItem(hash, a) == NodeItem(hash, b)
    ensures a == b
    decreases a, 0
  {
    hide Encode, Ref;
    var items := NodeItem(hash, a).items;
    assert items[16] == Data(SlotBytes(a.slot)) && items[16] == Data(SlotBytes(b.slot));
    forall i | 0 <= i < 16
      ensures a.children[i] == b.children[i]
    {
      assert items[i] == Ref(hash, a.children[i]) == Ref(hash, b.children[i]);
      RefCommits(hash, strings, a.children[i], b.children[i]);
    }
    assert a.children == b.children;
  }

  lemma {:induction false} RefCommits(hash: HashFn, strings: iset<Bytes>, a: Node, b: Node)
    requires CollisionFree(hash, strings)
    requires Shape(a) && Sized(a) && AllIn(hash, strings, a) && Visible(a)
    requires Shape(b) && Sized(b) && AllIn(hash, strings, b) && Visible(b)
    requires Ref(hash, a) == Ref(hash, b)
    ensures a == b
    decreases a, 2
  {
    hide Encode, NodeItem;
    RefKind(hash, a);
    RefKind(hash, b);
    RootCommits(hash, strings, a, b);
  }

  // ---------------------------------------------------------------- when the contracts of TrieDB apply

  /** No key of the trie is a proper prefix of k, nor k of one of them. Keys of one length are a special case. */
  ghost predicate Apart(n: Node, k: Nibbles)
    requires Shape(n)
  {
    forall other :: Get(n, other).Some? && (other <= k || k <= other) ==> other == k
  }

  ghost predicate PrefixFree(n: Node)
    requires Shape(n)
  {
    forall k :: Get(n, k).Some? ==> Apart(n, k)
  }

  ghost predicate FixedLength(n: Node, length: nat)
    requires Shape(n)
  {
    forall k :: Get(n, k).Some? ==> |k| == length
  }

  lemma FixedLengthIsPrefixFree(n: Node, length: nat, k: Nibbles)
    requires Shape(n) && FixedLength(n, length) && |k| == length
    ensures PrefixFree(n) && Apart(n, k)
  {
    forall a, b: Nibbles | |a| == length && |b| == length && a <= b
      ensures a == b
    {
    }
  }

  lemma EntryPrefixFree(n: Node, i: Nibble, k: Nibbles)
    requires Shape(n) && n.Branch? && PrefixFree(n) && Apart(n, [i] + k)
    ensures PrefixFree(n.children[i]) && Apart(n.children[i], k)
  {
    var child := n.children[i];
    forall a
      ensures Get(n, [i] + a) == Get(child, a)
    {
      assert ([i] + a)[1..] == a;
    }
    forall other | Get(child, other).Some? && (other <= k || k <= other)
      ensures other == k
    {
      PrefixSteps(i, other, k);
      assert Get(n, [i] + other).Some?;
    }
    forall a, b | Get(child, a).Some? && Get(child, b).Some? && (a <= b || b <= a)
      ensures a == b
    {
      PrefixSteps(i, a, b);
      assert Get(n, [i] + a).Some? && Get(n, [i] + b).Some?;
      assert Apart(n, [i] + b);
    }
  }

  lemma PrefixSteps(i: Nibble, a: Nibbles, b: Nibbles)
    ensures a <= b <==> [i] + a <= [i] + b
    ensures a == b <==> [i] + a == [i] + b
  {
    assert ([i] + a)[1..] == a && ([i] + b)[1..] == b;
  }

  lemma ChildPrefixFree(n: Node, k: Nibbles)
    requires Shape(n) && n.Extension? && PrefixFree(n) && n.key <= k && Apart(n, k)
    ensures PrefixFree(n.child) && Apart(n.child, k[|n.key|..])
  {
    var rest := k[|n.key|..];
    assert k == n.key + rest;
    forall a
      ensures Get(n, n.key + a) == Get(n.child, a)
    {
      ExtensionGet(n.key, n.child, a);
    }
    forall other | Get(n.child, other).Some? && (other <= rest || rest <= other)
      ensures other == rest
    {
      PrefixJoins(n.key, other, rest);
      assert Get(n, n.key + other).Some?;
    }
    forall a, b | Get(n.child, a).Some? && Get(n.child, b).Some? && (a <= b || b <= a)
      ensures a == b
    {
      PrefixJoins(n.key, a, b);
      assert Get(n, n.key + a).Some? && Get(n, n.key + b).Some?;
      assert Apart(n, n.key + b);
    }
  }

  lemma PrefixJoins(q: Nibbles, a: Nibbles, b: Nibbles)
    ensures a <= b <==> q + a <= q + b
    ensures b <= a <==> q + b <= q + a
    ensures a == b <==> q + a == q + b
  {
    ConcatInjective(q, a, b);
    assert a <= b ==> b == a + b[|a|..] && q + b == (q + a) + b[|a|..];
    assert b <= a ==> a == b + a[|b|..] && q + a == (q + b) + a[|b|..];
    assert (q + a)[|q|..] == a && (q + b)[|q|..] == b;
    assert q + a <= q + b ==> (q + b)[..|q + a|][|q|..] == a;
    assert q + b <= q + a ==> (q + a)[..|q + b|][|q|..] == b;
  }

  /** A branch of a prefix-free trie holds no value of its own. */
  lemma NoSlot(n: Node)
    requires WellFormed(n) && Shape(n) && n.Branch? && PrefixFree(n)
    ensures n.slot == None
  {
    var a, b := TwoKeys(n);
    assert Apart(n, a) && Apart(n, b);
    assert Get(n, []) == n.slot;
    assert [] <= a && [] <= b;
  }

  /** Where no key is a proper prefix of another, every removal is one deleteAt gets right. */
  lemma {:induction false} PrefixFreeRemovable(hash: HashFn, strings: iset<Bytes>, n: Node, k: Nibbles)
    requires WellFormed(n) && Shape(n) && PrefixFree(n) && Apart(n, k)
    ensures Removable(hash, strings, n, k)
  {
    match n
    case Null =>
    case Leaf(key, _) =>
      assert Get(n, key).Some?;
    case Extension(key, child) =>
      if key <= k {
        ChildPrefixFree(n, k);
        PrefixFreeRemovable(hash, strings, child, k[|key|..]);
      }
    case Branch(children, slot) =>
      NoSlot(n);
      var a, b := TwoKeys(n);
      assert [] <= a && [] <= b;
      assert k != [];
      assert k == [k[0]] + k[1..];
      EntryPrefixFree(n, k[0], k[1..]);
      PrefixFreeRemovable(hash, strings, children[k[0]], k[1..]);
      if Get(n, k).Some? {
        assert !Used(children[k[0] := Deleted(children[k[0]], k[1..])], slot, 16);
      }
  }

  /** Removing a key that is there is right wherever every value passes as a reference, whatever the keys. */
  lemma {:induction false} PresentRemovable(hash: HashFn, strings: iset<Bytes>, n: Node, k: Nibbles)
    requires Shape(n) && Visible(n) && Get(n, k).Some?
    requires forall other :: Get(n, other).Some? ==> PassesAsReference(hash, strings, Get(n, other).value)
    ensures Removable(hash, strings, n, k)
  {
    hide PassesAsReference;
    match n
    case Leaf(_, _) =>
    case Extension(key, child) =>
      forall other | Get(child, other).Some?
        ensures PassesAsReference(hash, strings, Get(child, other).value)
      {
        ExtensionGet(key, child, other);
      }
      PresentRemovable(hash, strings, child, k[|key|..]);
    case Branch(children, slot) =>
      assert Get(n, []) == slot;
      if k != [] {
        forall other | Get(children[k[0]], other).Some?
          ensures PassesAsReference(hash, strings, Get(children[k[0]], other).value)
        {
          assert ([k[0]] + other)[1..] == other;
          assert Get(n, [k[0]] + other) == Get(children[k[0]], other);
        }
        PresentRemovable(hash, strings, children[k[0]], k[1..]);
      }
  }

  /** A canonical trie without empty values has no branch that could be taken for one just made. */
  lemma {:induction false} LiveRefsClean(hash: HashFn, strings: iset<Bytes>, n: Node)
    requires CollisionFree(hash, strings)
    requires WellFormed(n) && Shape(n) && Sized(n) && AllIn(hash, strings, n) && Visible(n)
    ensures Clean(hash, strings, RootRefs(hash, n)) && Clean(hash, strings, LiveRefs(hash, n))
    decreases n, 1
  {
    hide Encode, Decode, NodeItem, RefsBelow;
    RefsBelowClean(hash, strings, n);
    NotLonely(hash, n);
    forall s | s in strings && (hash(s) in RootRefs(hash, n) || hash(s) in LiveRefs(hash, n))
      ensures !Lonely(s)
    {
      if hash(s) !in RefsBelow(hash, n) {
        assert s == EncodeNode(hash, n);
      }
    }
  }

  lemma {:induction false} RefsBelowClean(hash: HashFn, strings: iset<Bytes>, n: Node)
    requires CollisionFree(hash, strings)
    requires WellFormed(n) && Shape(n) && Sized(n) && AllIn(hash, strings, n) && Visible(n)
    ensures Clean(hash, strings, RefsBelow(hash, n))
    decreases n, 0
  {
    hide Encode, Decode, NodeItem, LiveRefs;
    match n
    case Null =>
    case Leaf(_, _) =>
    case Extension(_, child) => LiveRefsClean(hash, strings, child);
    case Branch(children, _) =>
      forall i | 0 <= i < |children|
        ensures Clean(hash, strings, LiveRefs(hash, children[i]))
      {
        LiveRefsClean(hash, strings, children[i]);
      }
      AllRefsClean(hash, strings, children);
  }

  lemma {:induction false} AllRefsClean(hash: HashFn, strings: iset<Bytes>, children: seq<Node>)
    requires forall i :: 0 <= i < |children| ==> Clean(hash, strings, LiveRefs(hash, children[i]))
    ensures Clean(hash, strings, AllRefs(hash, children))
  {
    hide LiveRefs;
    if children != [] {
      assert Clean(hash, strings, LiveRefs(hash, children[0]));
      assert forall i :: 0 <= i < |children[1..]| ==> children[1..][i] == children[i + 1];
      AllRefsClean(hash, strings, children[1..]);
    }
  }

  lemma NotLonely(hash: HashFn, n: Node)
    requires WellFormed(n) && Shape(n) && Sized(n) && Visible(n)
    ensures !Lonely(EncodeNode(hash, n))
  {
    hide Encode, Decode, Ref;
    DecodeNode(hash, n);
    ItemKind(hash, n);
    if n.Branch? {
      var i, j :| 0 <= i < j <= 16 && Used(n.children, n.slot, i) && Used(n.children, n.slot, j);
      var items := NodeItem(hash, n).items;
      EntryInUse(hash, n, i);
      EntryInUse(hash, n, j);
      forall u | 0 <= u < 17
        ensures !OthersEmpty(items, u)
      {
        assert items[if u == i then j else i] != Data([]);
      }
    }
  }

  lemma EntryInUse(hash: HashFn, n: Node, i: nat)
    requires Shape(n) && n.Branch? && n.slot != Some([]) && i <= 16 && Used(n.children, n.slot, i)
    ensures NodeItem(hash, n).items[i] != Data([])
  {
    if i < 16 {
      RefKind(hash, n.children[i]);
    }
  }
}
