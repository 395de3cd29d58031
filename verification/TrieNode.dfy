/** The modified Merkle Patricia tree as a value (Appendix D of the Yellow Paper; libdevcore/TrieDB.h).

  `Merged` and `Deleted` follow mergeAt and deleteAt without the store. What they mean is said by `Get`; that the
  result is in canonical form is said by `WellFormed`, and `Unique` shows that the contents alone determine it. */
module TrieNode {
  import opened Bytes
  import opened TrieCommon

  datatype Node =
    | Null
    | Leaf(key: Nibbles, value: Bytes)
    | Extension(key: Nibbles, child: Node)
    | Branch(children: seq<Node>, slot: Option<Bytes>)

  // ---------------------------------------------------------------- shapes

  /** Structural sanity, kept even by the half-finished nodes an insertion passes through. */
  ghost predicate Shape(n: Node) {
    match n
    case Null => true
    case Leaf(_, _) => true
    case Extension(key, child) => key != [] && child != Null && Shape(child)
    case Branch(children, _) => |children| == 16 && forall i :: 0 <= i < 16 ==> Shape(children[i])
  }

  /** Entry i of a branch is in use; entry 16 is the value slot. */
  predicate Used(children: seq<Node>, slot: Option<Bytes>, i: nat)
    requires |children| == 16
  {
    if i < 16 then children[i] != Null else i == 16 && slot.Some?
  }

  ghost predicate TwoUsed(children: seq<Node>, slot: Option<Bytes>)
    requires |children| == 16
  {
    exists i, j :: 0 <= i < j <= 16 && Used(children, slot, i) && Used(children, slot, j)
  }

  /** The canonical form: an extension leads to a branch, and a branch has at least two entries in use. */
  ghost predicate WellFormed(n: Node) {
    match n
    case Null => true
    case Leaf(_, _) => true
    case Extension(key, child) => key != [] && child.Branch? && WellFormed(child)
    case Branch(children, slot) =>
      && |children| == 16 && TwoUsed(children, slot)
      && forall i :: 0 <= i < 16 ==> WellFormed(children[i])
  }

  lemma {:induction false} WellFormedShape(n: Node)
    requires WellFormed(n)
    ensures Shape(n)
  {
    match n
    case Null =>
    case Leaf(_, _) =>
    case Extension(_, child) => WellFormedShape(child);
    case Branch(children, _) =>
      forall i | 0 <= i < 16
        ensures Shape(children[i])
      {
        WellFormedShape(children[i]);
      }
  }

  // ---------------------------------------------------------------- lookup

  /** atAux: the value stored under a key. */
  function Get(n: Node, k: Nibbles): Option<Bytes>
    requires Shape(n)
    decreases n
  {
    match n
    case Null => None
    case Leaf(key, value) => if k == key then Some(value) else None
    case Extension(key, child) => if key <= k then Get(child, k[|key|..]) else None
    case Branch(children, slot) => if k == [] then slot else Get(children[k[0]], k[1..])
  }

  /** The trie holds exactly the entries of the map. */
  ghost predicate Represents(n: Node, m: map<Nibbles, Bytes>)
    requires Shape(n)
  {
    forall k :: Get(n, k) == Entry(m, k)
  }

  function Entry(m: map<Nibbles, Bytes>, k: Nibbles): Option<Bytes> {
    if k in m then Some(m[k]) else None
  }

  // ---------------------------------------------------------------- insertion

  function NoChildren(): (children: seq<Node>)
    ensures |children| == 16 && forall i :: 0 <= i < 16 ==> children[i] == Null
  {
    seq(16, i => Null)
  }

  /** What cleve leaves below the split: the node with the first s nibbles of its key cut off. */
  function Tail(n: Node, s: nat): (tail: Node)
    requires (n.Leaf? && s <= |n.key|) || (n.Extension? && s < |n.key|)
    ensures Shape(n) ==> Shape(tail)
  {
    if n.Leaf? then Leaf(n.key[s..], n.value) else Extension(n.key[s..], n.child)
  }

  /** The entry that stands for the node in the branch made of it, behind the first nibble of its key. */
  function BelowBranch(n: Node): (below: Node)
    requires (n.Leaf? || n.Extension?) && n.key != []
    ensures Shape(n) ==> Shape(below) && below != Null
  {
    if n.Leaf? then Leaf(n.key[1..], n.value)
    else if |n.key| > 1 then Extension(n.key[1..], n.child)
    else n.child
  }

  /** branch(): the same entries under a branch. */
  function Branched(n: Node): (branched: Node)
    requires n.Leaf? || (n.Extension? && n.key != [])
    ensures branched.Branch? && (Shape(n) ==> Shape(branched))
  {
    if n.key == [] then Branch(NoChildren(), Some(n.value))
    else Branch(NoChildren()[n.key[0] := BelowBranch(n)], None)
  }

  /** The key leads exactly to, or through, this two-item node. */
  predicate Follows(n: Node, k: Nibbles)
    requires n.Leaf? || n.Extension?
  {
    if n.Leaf? then n.key == k else n.key <= k
  }

  /** mergeAt. The measure of its re-entry: cleve shortens the key, branch leaves a branch. */
  function Merged(n: Node, k: Nibbles, v: Bytes): (merged: Node)
    requires Shape(n)
    ensures Shape(merged) && merged != Null
    decreases |k|, if n.Branch? then 0 else 1
  {
    if n == Null then Leaf(k, v)
    else if n.Branch? then
      if k == [] then n.(slot := Some(v))
      else n.(children := n.children[k[0] := Merged(n.children[k[0]], k[1..], v)])
    else if Follows(n, k) then
      if n.Leaf? then Leaf(k, v) else Extension(n.key, Merged(n.child, k[|n.key|..], v))
    else
      var shared := Shared(k, n.key);
      ShortOfExtension(n, k);
      if shared > 0 then Extension(n.key[..shared], Merged(Tail(n, shared), k[shared..], v))
      else Merged(Branched(n), k, v)
  }

  lemma ShortOfExtension(n: Node, k: Nibbles)
    requires (n.Leaf? || n.Extension?) && !Follows(n, k)
    ensures n.Extension? ==> Shared(k, n.key) < |n.key|
  {
    PrefixShared(k, n.key);
  }

  lemma BranchedGet(n: Node, k: Nibbles)
    requires Shape(n) && (n.Leaf? || n.Extension?)
    ensures Get(Branched(n), k) == Get(n, k)
  {
    if n.key != [] && k != [] && k[0] == n.key[0] {
      assert n.key == [n.key[0]] + n.key[1..] && k == [k[0]] + k[1..];
      assert n.key == k <==> n.key[1..] == k[1..];
      assert n.key <= k <==> n.key[1..] <= k[1..];
      if n.Extension? && n.key <= k {
        assert k[|n.key|..] == k[1..][|n.key[1..]|..];
        assert |n.key| == 1 ==> k[1..] == k[|n.key|..];
      }
    }
  }

  lemma CleveGet(n: Node, s: nat, k: Nibbles)
    requires Shape(n) && ((n.Leaf? && 0 < s <= |n.key|) || (n.Extension? && 0 < s < |n.key|))
    ensures Get(Extension(n.key[..s], Tail(n, s)), k) == Get(n, k)
  {
    var head, tail := n.key[..s], n.key[s..];
    assert n.key == head + tail;
    if head <= k {
      var rest := k[s..];
      assert k == head + rest;
      assert n.key == k <==> tail == rest;
      assert n.key <= k <==> tail <= rest;
      assert n.key <= k ==> k[|n.key|..] == rest[|tail|..];
    }
  }

  /** Insertion changes the entry of its key and no other. */
  lemma {:induction false} GetMerged(n: Node, k: Nibbles, v: Bytes, other: Nibbles)
    requires Shape(n)
    ensures Get(Merged(n, k, v), other) == if other == k then Some(v) else Get(n, other)
    decreases |k|, if n.Branch? then 0 else 1
  {
    if n == Null {
    } else if n.Branch? {
      if k != [] && other != [] {
        GetMerged(n.children[k[0]], k[1..], v, other[1..]);
        assert k == [k[0]] + k[1..] && other == [other[0]] + other[1..];
      }
    } else if Follows(n, k) {
      if n.Extension? && n.key <= other {
        GetMerged(n.child, k[|n.key|..], v, other[|n.key|..]);
        assert k == n.key + k[|n.key|..] && other == n.key + other[|n.key|..];
      }
    } else {
      var shared := Shared(k, n.key);
      ShortOfExtension(n, k);
      if shared > 0 {
        GetMergedCleved(n, shared, k, v, other);
      } else {
        GetMerged(Branched(n), k, v, other);
        BranchedGet(n, other);
      }
    }
  }

  lemma {:induction false} GetMergedCleved(n: Node, s: nat, k: Nibbles, v: Bytes, other: Nibbles)
    requires Shape(n) && ((n.Leaf? && 0 < s <= |n.key|) || (n.Extension? && 0 < s < |n.key|))
    requires s <= |k| && k[..s] == n.key[..s]
    ensures Get(Extension(n.key[..s], Merged(Tail(n, s), k[s..], v)), other)
         == if other == k then Some(v) else Get(n, other)
    decreases |k|, 0
  {
    CleveGet(n, s, other);
    assert k == k[..s] + k[s..];
    if n.key[..s] <= other {
      GetMerged(Tail(n, s), k[s..], v, other[s..]);
      assert other == n.key[..s] + other[s..];
    }
  }

  // ---------------------------------------------------------------- insertion keeps the canonical form

  /** Replacing an entry of a branch by one in use leaves two in use. */
  lemma StillTwoUsed(children: seq<Node>, slot: Option<Bytes>, i: nat, child: Node, slot': Option<Bytes>)
    requires |children| == 16 && TwoUsed(children, slot) && i < 16
    requires child != Null && (slot.Some? ==> slot'.Some?)
    ensures TwoUsed(children[i := child], slot')
    ensures TwoUsed(children, slot')
  {
    var a, b :| 0 <= a < b <= 16 && Used(children, slot, a) && Used(children, slot, b);
    assert Used(children[i := child], slot', a) && Used(children[i := child], slot', b);
    assert Used(children, slot', a) && Used(children, slot', b);
  }

  lemma ReplacedWellFormed(n: Node, i: nat, child: Node)
    requires WellFormed(n) && n.Branch? && i < 16 && WellFormed(child) && child != Null
    ensures WellFormed(n.(children := n.children[i := child]))
  {
    StillTwoUsed(n.children, n.slot, i, child, n.slot);
  }

  lemma {:induction false} MergedWellFormed(n: Node, k: Nibbles, v: Bytes)
    requires WellFormed(n) && Shape(n)
    ensures WellFormed(Merged(n, k, v))
    ensures n.Branch? ==> Merged(n, k, v).Branch?
    decreases |k|, if n.Branch? then 0 else 1
  {
    if n == Null {
    } else if n.Branch? {
      if k == [] {
        StillTwoUsed(n.children, n.slot, 0, Leaf([], v), Some(v));
      } else {
        MergedWellFormed(n.children[k[0]], k[1..], v);
        ReplacedWellFormed(n, k[0], Merged(n.children[k[0]], k[1..], v));
      }
    } else if Follows(n, k) {
      if n.Extension? {
        MergedWellFormed(n.child, k[|n.key|..], v);
      }
    } else {
      var shared := Shared(k, n.key);
      ShortOfExtension(n, k);
      if shared > 0 {
        var tail := Tail(n, shared);
        TailSplits(n, k);
        SplitWellFormed(tail, k[shared..], v);
      } else {
        SplitWellFormed(n, k, v);
      }
    }
  }

  /** Below the shared nibbles the rest of the key and the rest of the node have nothing in common. */
  lemma TailSplits(n: Node, k: Nibbles)
    requires WellFormed(n) && (n.Leaf? || n.Extension?) && !Follows(n, k)
    ensures var s := Shared(k, n.key);
      && (n.Extension? ==> s < |n.key|)
      && var tail := Tail(n, s);
        WellFormed(tail) && !Follows(tail, k[s..]) && Shared(k[s..], tail.key) == 0
  {
    var s := Shared(k, n.key);
    ShortOfExtension(n, k);
    SharedAt(k[s..], n.key[s..], 0);
    assert k == k[..s] + k[s..] && n.key == k[..s] + n.key[s..];
  }

  /** Where the key and the node have nothing in common, insertion makes a branch that uses two entries. */
  lemma {:induction false} SplitWellFormed(n: Node, k: Nibbles, v: Bytes)
    requires WellFormed(n) && Shape(n) && (n.Leaf? || n.Extension?)
    requires !Follows(n, k) && Shared(k, n.key) == 0
    ensures WellFormed(Merged(n, k, v)) && Merged(n, k, v).Branch?
    ensures Merged(n, k, v) == Merged(Branched(n), k, v)
    decreases |k|, 0
  {
    var children, slot := Branched(n).children, Branched(n).slot;
    assert forall i :: 0 <= i < 16 ==> WellFormed(children[i]);
    if k == [] {
      TwoUsedBy(children, Some(v), n.key[0], 16);
    } else {
      assert children[k[0]] == Null;
      var merged := children[k[0] := Leaf(k[1..], v)];
      TwoUsedBy(merged, slot, k[0], if n.key == [] then 16 else n.key[0]);
      assert forall i :: 0 <= i < 16 ==> WellFormed(merged[i]);
      assert Merged(Branched(n), k, v) == Branch(merged, slot);
    }
  }

  lemma TwoUsedBy(children: seq<Node>, slot: Option<Bytes>, i: nat, j: nat)
    requires |children| == 16 && i != j && i <= 16 && j <= 16
    requires Used(children, slot, i) && Used(children, slot, j)
    ensures TwoUsed(children, slot)
  {
    if i < j {
    } else {
      assert Used(children, slot, j) && Used(children, slot, i);
    }
  }

  // ---------------------------------------------------------------- the contents determine the canonical form

  /** A trie that is not empty has a key. */
  lemma {:induction false} SomeKey(n: Node) returns (k: Nibbles)
    requires WellFormed(n) && Shape(n) && n != Null
    ensures Get(n, k).Some?
    decreases n, 1
  {
    match n
    case Leaf(key, _) => k := key;
    case Extension(key, child) =>
      k := SomeKey(child);
      k := key + k;
      assert k[|key|..] == k[|key|..];
    case Branch(children, slot) =>
      var i :| 0 <= i <= 16 && Used(children, slot, i);
      k := KeyThrough(n, i);
  }

  lemma {:induction false} KeyThrough(n: Node, i: nat) returns (k: Nibbles)
    requires WellFormed(n) && Shape(n) && n.Branch? && i <= 16 && Used(n.children, n.slot, i)
    ensures Get(n, k).Some?
    ensures if i == 16 then k == [] else k != [] && k[0] == i
    decreases n, 0
  {
    if i == 16 {
      k := [];
    } else {
      var rest := SomeKey(n.children[i]);
      k := [i] + rest;
      assert k[1..] == rest;
    }
  }

  /** A branch has two keys that part at once. */
  lemma TwoKeys(n: Node) returns (a: Nibbles, b: Nibbles)
    requires WellFormed(n) && Shape(n) && n.Branch?
    ensures Get(n, a).Some? && Get(n, b).Some?
    ensures a != b && Shared(a, b) == 0
  {
    var i, j :| 0 <= i < j <= 16 && Used(n.children, n.slot, i) && Used(n.children, n.slot, j);
    a := KeyThrough(n, i);
    b := KeyThrough(n, j);
  }

  /** Of two keys that part right behind q, one does not start with p, unless p is a prefix of q. */
  lemma Escape(p: Nibbles, q: Nibbles, a: Nibbles, b: Nibbles) returns (k: Nibbles)
    requires !(p <= q) && a != b && Shared(a, b) == 0
    ensures (k == a || k == b) && !(p <= q + k)
  {
    PrefixOfConcat(p, q, a);
    PrefixOfConcat(p, q, b);
    if q <= p && p[|q|..] <= a {
      assert a[0] == p[|q|..][0];
      assert b == [] || b[0] != p[|q|..][0];
      k := b;
    } else {
      k := a;
    }
  }

  lemma PrefixOfConcat(p: Nibbles, q: Nibbles, a: Nibbles)
    ensures p <= q + a <==> p <= q || (q <= p && p[|q|..] <= a)
  {
    if |p| <= |q| {
      assert (q + a)[..|p|] == q[..|p|];
    } else if q <= p {
      assert p == q + p[|q|..];
      assert (q + a)[|q|..] == a;
      assert p <= q + a ==> p[|q|..] == (q + a)[..|p|][|q|..];
    } else {
      assert (q + a)[..|q|] == q;
    }
  }

  lemma ConcatInjective(q: Nibbles, a: Nibbles, b: Nibbles)
    ensures q + a == q + b <==> a == b
  {
    assert (q + a)[|q|..] == a && (q + b)[|q|..] == b;
  }

  lemma ExtensionGet(key: Nibbles, child: Node, rest: Nibbles)
    requires Shape(Extension(key, child))
    ensures Get(Extension(key, child), key + rest) == Get(child, rest)
  {
    assert (key + rest)[|key|..] == rest;
  }

  /** A key of b that does not start with p, where b has two keys behind every prefix it forces. */
  lemma KeyNotUnder(p: Nibbles, n: Node) returns (k: Nibbles)
    requires WellFormed(n) && Shape(n)
    requires (n.Branch? && p != []) || (n.Extension? && !(p <= n.key))
    ensures Get(n, k).Some? && !(p <= k)
  {
    if n.Branch? {
      var a, b := TwoKeys(n);
      k := Escape(p, [], a, b);
      assert [] + k == k;
    } else {
      var a, b := TwoKeys(n.child);
      var rest := Escape(p, n.key, a, b);
      k := n.key + rest;
      ExtensionGet(n.key, n.child, rest);
    }
  }

  /** A key of n other than the given one. */
  lemma AnotherKey(n: Node, key: Nibbles) returns (k: Nibbles)
    requires WellFormed(n) && Shape(n) && (n.Branch? || n.Extension?)
    ensures Get(n, k).Some? && k != key
  {
    var prefix := if n.Branch? then [] else n.key;
    var branch := if n.Branch? then n else n.child;
    var a, b := TwoKeys(branch);
    ConcatInjective(prefix, a, b);
    var rest := if prefix + a != key then a else b;
    k := prefix + rest;
    assert rest == k[|prefix|..];
    if n.Extension? {
      ExtensionGet(n.key, n.child, rest);
    } else {
      assert k == rest;
    }
  }

  /** Two different canonical tries differ on some key. */
  lemma {:induction false} Differ(a: Node, b: Node) returns (k: Nibbles)
    requires WellFormed(a) && Shape(a) && WellFormed(b) && Shape(b) && a != b
    ensures Get(a, k) != Get(b, k)
    decreases a
  {
    if a == Null {
      k := SomeKey(b);
    } else if b == Null {
      k := SomeKey(a);
    } else if a.Leaf? {
      if b.Leaf? {
        k := a.key;
      } else {
        k := AnotherKey(b, a.key);
      }
    } else if b.Leaf? {
      k := AnotherKey(a, b.key);
    } else if a.Branch? && b.Branch? {
      if a.slot != b.slot {
        k := [];
      } else {
        assert a.children != b.children;
        var i :| 0 <= i < 16 && a.children[i] != b.children[i];
        var rest := Differ(a.children[i], b.children[i]);
        k := [i] + rest;
        assert k[1..] == rest;
      }
    } else if a.Extension? && b.Extension? && a.key == b.key {
      var rest := Differ(a.child, b.child);
      k := a.key + rest;
      ExtensionGet(a.key, a.child, rest);
      ExtensionGet(b.key, b.child, rest);
    } else if a.Extension? && (b.Branch? || !(a.key <= b.key)) {
      k := KeyNotUnder(a.key, b);
    } else {
      k := KeyNotUnder(b.key, a);
    }
  }

  /** The contents determine the trie, so the order in which they came about does not matter. */
  lemma Unique(a: Node, b: Node)
    requires WellFormed(a) && Shape(a) && WellFormed(b) && Shape(b)
    ensures (forall k :: Get(a, k) == Get(b, k)) <==> a == b
  {
    if a != b {
      var k := Differ(a, b);
    }
  }

  // ---------------------------------------------------------------- removal

  ghost predicate OnlyUsed(children: seq<Node>, slot: Option<Bytes>, i: nat)
    requires |children| == 16
  {
    i <= 16 && Used(children, slot, i) && forall j :: 0 <= j <= 16 && j != i ==> !Used(children, slot, j)
  }

  ghost function TheOnlyUsed(children: seq<Node>, slot: Option<Bytes>): (i: nat)
    requires |children| == 16 && exists i: nat :: OnlyUsed(children, slot, i)
    ensures OnlyUsed(children, slot, i)
  {
    var i: nat :| OnlyUsed(children, slot, i);
    i
  }

  /** graft: puts a key in front of a node. */
  function Graft(key: Nibbles, n: Node): Node {
    match n
    case Null => Null
    case Leaf(rest, value) => Leaf(key + rest, value)
    case Extension(rest, child) => Extension(key + rest, child)
    case Branch(_, _) => Extension(key, n)
  }

  /** merge and graft: a branch left with one entry gives way to it. */
  ghost function Collapse(children: seq<Node>, slot: Option<Bytes>): Node
    requires |children| == 16
  {
    if exists i: nat :: OnlyUsed(children, slot, i) then
      var i := TheOnlyUsed(children, slot);
      if i == 16 then Leaf([], slot.value) else Graft([i], children[i])
    else Branch(children, slot)
  }

  /** deleteAt, for a key that is there. */
  ghost function Deleted(n: Node, k: Nibbles): Node
    requires Shape(n) && Get(n, k).Some?
    decreases n
  {
    match n
    case Leaf(_, _) => Null
    case Extension(key, child) => Graft(key, Deleted(child, k[|key|..]))
    case Branch(children, slot) =>
      if k == [] then Collapse(children, None)
      else Collapse(children[k[0] := Deleted(children[k[0]], k[1..])], slot)
  }

  lemma CollapseUnique(children: seq<Node>, slot: Option<Bytes>, i: nat)
    requires |children| == 16 && OnlyUsed(children, slot, i)
    ensures Collapse(children, slot) == if i == 16 then Leaf([], slot.value) else Graft([i], children[i])
  {
    var j := TheOnlyUsed(children, slot);
    assert Used(children, slot, j) && Used(children, slot, i);
  }

  /** Taking one entry out of a branch leaves two in use, or exactly one. */
  lemma OneOrTwoLeft(children: seq<Node>, slot: Option<Bytes>, i: nat, children': seq<Node>, slot': Option<Bytes>)
    requires |children| == 16 && |children'| == 16 && TwoUsed(children, slot) && i <= 16
    requires forall j :: 0 <= j <= 16 && j != i ==> (Used(children', slot', j) <==> Used(children, slot, j))
    ensures TwoUsed(children', slot') || exists u: nat :: OnlyUsed(children', slot', u)
    ensures !(TwoUsed(children', slot') && exists u: nat :: OnlyUsed(children', slot', u))
  {
    var a, b :| 0 <= a < b <= 16 && Used(children, slot, a) && Used(children, slot, b);
    var c := if a != i then a else b;
    assert Used(children', slot', c);
    if j: nat :| 0 <= j <= 16 && j != c && Used(children', slot', j) {
      TwoUsedBy(children', slot', c, j);
    } else {
      assert OnlyUsed(children', slot', c);
    }
  }

  lemma GraftWellFormed(key: Nibbles, n: Node)
    requires key != [] && WellFormed(n)
    ensures WellFormed(Graft(key, n)) && (Graft(key, n) == Null <==> n == Null)
  {
  }

  lemma GraftGet(key: Nibbles, n: Node, k: Nibbles)
    requires key != [] && WellFormed(n) && Shape(n) && Shape(Graft(key, n))
    ensures Get(Graft(key, n), k) == if key <= k then Get(n, k[|key|..]) else None
  {
    if key <= k {
      var rest := k[|key|..];
      assert k == key + rest;
      if n.Leaf? || n.Extension? {
        assert key + n.key == k <==> n.key == rest;
        assert key + n.key <= k <==> n.key <= rest;
        assert n.key <= rest ==> k[|key + n.key|..] == rest[|n.key|..];
      }
    } else if n.Leaf? || n.Extension? {
      assert key <= key + n.key;
    }
  }

  lemma CollapseWellFormed(n: Node, i: nat, children: seq<Node>, slot: Option<Bytes>)
    requires WellFormed(n) && n.Branch? && |children| == 16 && i <= 16
    requires forall j :: 0 <= j <= 16 && j != i ==> (Used(children, slot, j) <==> Used(n.children, n.slot, j))
    requires forall j :: 0 <= j < 16 ==> WellFormed(children[j])
    ensures WellFormed(Collapse(children, slot)) && Collapse(children, slot) != Null
  {
    OneOrTwoLeft(n.children, n.slot, i, children, slot);
    if u: nat :| OnlyUsed(children, slot, u) {
      CollapseUnique(children, slot, u);
      if u < 16 {
        GraftWellFormed([u], children[u]);
      }
    }
  }

  lemma CollapseGet(children: seq<Node>, slot: Option<Bytes>, k: Nibbles)
    requires Shape(Branch(children, slot)) && Shape(Collapse(children, slot))
    requires forall j :: 0 <= j < 16 ==> WellFormed(children[j])
    ensures Get(Collapse(children, slot), k) == Get(Branch(children, slot), k)
  {
    if i: nat :| OnlyUsed(children, slot, i) {
      CollapseUnique(children, slot, i);
      if i < 16 {
        GraftGet([i], children[i], k);
        assert !Used(children, slot, 16);
        if k != [] {
          assert [i] <= k <==> k[0] == i;
          assert k[0] != i ==> !Used(children, slot, k[0]);
        }
      } else if k != [] {
        assert !Used(children, slot, k[0]);
      }
    }
  }

  /** Removal keeps the canonical form. */
  lemma {:induction false} DeletedWellFormed(n: Node, k: Nibbles)
    requires WellFormed(n) && Shape(n) && Get(n, k).Some?
    ensures WellFormed(Deleted(n, k)) && Shape(Deleted(n, k))
    ensures !n.Leaf? ==> Deleted(n, k) != Null
  {
    match n
    case Leaf(_, _) =>
    case Extension(key, child) =>
      DeletedWellFormed(child, k[|key|..]);
      GraftWellFormed(key, Deleted(child, k[|key|..]));
    case Branch(children, slot) =>
      if k == [] {
        CollapseWellFormed(n, 16, children, None);
      } else {
        DeletedWellFormed(children[k[0]], k[1..]);
        CollapseWellFormed(n, k[0], children[k[0] := Deleted(children[k[0]], k[1..])], slot);
      }
    WellFormedShape(Deleted(n, k));
  }

  /** Removal takes its key out and leaves every other entry alone. */
  lemma {:induction false} GetDeleted(n: Node, k: Nibbles, other: Nibbles)
    requires WellFormed(n) && Shape(n) && Get(n, k).Some? && Shape(Deleted(n, k))
    ensures Get(Deleted(n, k), other) == if other == k then None else Get(n, other)
  {
    match n
    case Leaf(_, _) =>
    case Extension(key, child) =>
      DeletedWellFormed(child, k[|key|..]);
      GraftGet(key, Deleted(child, k[|key|..]), other);
      if key <= other {
        GetDeleted(child, k[|key|..], other[|key|..]);
        assert k == key + k[|key|..] && other == key + other[|key|..];
      }
    case Branch(children, slot) =>
      if k == [] {
        CollapseGet(children, None, other);
      } else {
        DeletedWellFormed(children[k[0]], k[1..]);
        var children' := children[k[0] := Deleted(children[k[0]], k[1..])];
        CollapseGet(children', slot, other);
        if other != [] {
          assert k == [k[0]] + k[1..] && other == [other[0]] + other[1..];
          if other[0] == k[0] {
            GetDeleted(children[k[0]], k[1..], other[1..]);
          }
        }
      }
  }
}
