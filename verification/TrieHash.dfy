/** The batch form of the trie root (libdevcore/TrieHash.cpp): builds the node of a sorted map directly.

  A HexMap is the sequence of its entries in key order, an iterator an index into it. */
module TrieHash {
  import opened Bytes
  import opened Rlp
  import opened RlpStream
  import opened TrieCommon
  import opened TrieNode
  import opened TrieEncoding

  datatype HexEntry = HexEntry(key: Nibbles, value: Bytes)

  type HexMap = seq<HexEntry>

  /** The key lengths are computed in 32 bits. */
  const UNSIGNED_MAX := 0xFFFF_FFFF

  /** Keys in strictly increasing lexicographic order. */
  ghost predicate Sorted(s: HexMap) {
    forall i, j :: 0 <= i < j < |s| ==> Earlier(s[i].key, s[j].key)
  }

  ghost predicate Short(s: HexMap) {
    forall i :: 0 <= i < |s| ==> |s[i].key| < UNSIGNED_MAX && |s[i].value| < MAX_SIZE
  }

  /** The value the map has for a key. */
  ghost function Find(s: HexMap, lo: nat, hi: nat, k: Nibbles): Option<Bytes>
    requires lo <= hi <= |s|
    decreases hi - lo
  {
    if lo == hi then None
    else if s[lo].key == k then Some(s[lo].value)
    else Find(s, lo + 1, hi, k)
  }

  lemma {:induction false} FindIn(s: HexMap, lo: nat, hi: nat, i: nat)
    requires Sorted(s) && lo <= i < hi <= |s|
    ensures Find(s, lo, hi, s[i].key) == Some(s[i].value)
    decreases hi - lo
  {
    if lo < i {
      SharedAt(s[lo].key, s[i].key, 0);
      EarlierDiffers(s[lo].key, s[i].key);
      FindIn(s, lo + 1, hi, i);
    }
  }

  lemma EarlierDiffers(a: Nibbles, b: Nibbles)
    requires Earlier(a, b)
    ensures a != b
  {
    SharedAt(a, a, |a|);
  }

  lemma {:induction false} FindNone(s: HexMap, lo: nat, hi: nat, k: Nibbles)
    requires lo <= hi <= |s|
    requires forall i :: lo <= i < hi ==> s[i].key != k
    ensures Find(s, lo, hi, k) == None
    decreases hi - lo
  {
    if lo < hi {
      FindNone(s, lo + 1, hi, k);
    }
  }

  lemma {:induction false} FindAppend(s: HexMap, lo: nat, mid: nat, hi: nat, k: Nibbles)
    requires lo <= mid <= hi <= |s|
    ensures Find(s, lo, hi, k) == match Find(s, lo, mid, k) case Some(v) => Some(v) case None => Find(s, mid, hi, k)
    decreases mid - lo
  {
    if lo < mid {
      FindAppend(s, lo + 1, mid, hi, k);
    }
  }

  /** Between lo and hi all keys start with the first `pre` nibbles of `prefix`. */
  ghost predicate Under(s: HexMap, lo: nat, hi: nat, prefix: Nibbles) {
    lo <= hi <= |s| && forall i :: lo <= i < hi ==> prefix <= s[i].key
  }

  /** The node stands for the entries from lo to hi with the prefix taken off their keys. */
  ghost predicate StandsFor(n: Node, s: HexMap, lo: nat, hi: nat, prefix: Nibbles)
    requires lo <= hi <= |s|
  {
    WellFormed(n) && Shape(n) && forall k :: Get(n, k) == Find(s, lo, hi, prefix + k)
  }

  // ---------------------------------------------------------------- writing a list item by item

  /** The stream has written `items` of a list of `total`, and nothing else. */
  ghost predicate Inside(st: State, total: nat, items: seq<Item>) {
    if |items| < total then st == State(EncodeAll(items), [OpenList(total - |items|, 0)])
    else |items| == total && st == State(Encode(List(items)), [])
  }

  lemma InsideNext(st: State, total: nat, items: seq<Item>, item: Item)
    requires Inside(st, total, items) && |items| < total && RlpStream.Valid(st)
    requires HasHeader(|EncodeAll(items + [item])|)
    ensures Note(Written(st, Encode(item)), 1).Some?
    ensures Inside(Note(Written(st, Encode(item)), 1).value, total, items + [item])
  {
    EncodeAllSnoc(items, item);
    var payload := EncodeAll(items + [item]);
    var next := Written(st, Encode(item));
    assert next.out == payload;
    if |items| + 1 == total {
      assert next.out[0..] == payload && next.out[..0] == [] && next.open[..0] == [];
      assert [] + Header(|payload|, LIST_START) + payload == Header(|payload|, LIST_START) + payload;
    } else {
      assert next.open[..0] == [];
    }
  }

  // ---------------------------------------------------------------- the common prefix

  /** How many leading nibbles the keys from lo to hi share. */
  method SharedPrefix(s: HexMap, lo: nat, hi: nat, preLen: nat) returns (sharedPre: nat)
    requires lo + 1 < hi <= |s| && Short(s) && preLen <= |s[lo].key|
    requires Under(s, lo, hi, s[lo].key[..preLen])
    ensures preLen <= sharedPre <= |s[lo].key|
    ensures Under(s, lo, hi, s[lo].key[..sharedPre])
    ensures exists i :: lo < i < hi && Shared(s[lo].key, s[i].key) == sharedPre
  {
    var first := s[lo].key;
    sharedPre := UNSIGNED_MAX;
    var i := lo + 1;
    while i < hi && sharedPre > 0
      invariant lo < i <= hi
      invariant i == lo + 1 ==> sharedPre == UNSIGNED_MAX
      invariant i > lo + 1 ==> preLen <= sharedPre <= |first|
      invariant i > lo + 1 ==> forall j :: lo <= j < i ==> first[..sharedPre] <= s[j].key
      invariant i > lo + 1 ==> exists j :: lo < j < i && Shared(first, s[j].key) == sharedPre
    {
      assert first[..preLen] <= s[i].key;
      var shared := SharedUpTo(first, s[i].key, preLen, sharedPre);
      if shared < sharedPre {
        assert Shared(first, s[i].key) == shared;
      }
      sharedPre := shared;
      i := i + 1;
    }
  }

  /** The inner loop: shared nibbles beyond `preLen`, but no more than `limit`. */
  method SharedUpTo(first: Nibbles, other: Nibbles, preLen: nat, limit: nat) returns (shared: nat)
    requires preLen <= |first| && first[..preLen] <= other && preLen <= limit
    ensures preLen <= shared <= limit && shared <= |first| && first[..shared] <= other
    ensures shared < limit ==> Shared(first, other) == shared
  {
    var x := if |first| < |other| then |first| else |other|;
    x := if limit < x then limit else x;
    shared := preLen;
    while shared < x && first[shared] == other[shared]
      invariant preLen <= shared <= limit && shared <= |first| && shared <= |other|
      invariant first[..shared] == other[..shared]
    {
      shared := shared + 1;
    }
    SharedAt(first, other, shared);
  }

  // ---------------------------------------------------------------- order and lookup

  /** Of two keys with a common prefix the later one goes on, and with no smaller nibble. */
  lemma NibbleOrder(a: Nibbles, b: Nibbles, pre: nat)
    requires Earlier(a, b) && pre <= |a| && a[..pre] <= b
    ensures |b| > pre && (|a| > pre ==> a[pre] <= b[pre])
  {
    SharedAt(a, b, pre);
    if |a| > pre && a[pre] != b[pre] {
      SharedAt(a, b, pre);
    }
  }

  /** Entries whose keys differ from k do not matter. */
  lemma FindWithin(s: HexMap, lo: nat, hi: nat, b: nat, m: nat, k: Nibbles)
    requires lo <= b <= m <= hi <= |s|
    requires forall j :: lo <= j < hi && !(b <= j < m) ==> s[j].key != k
    ensures Find(s, lo, hi, k) == Find(s, b, m, k)
  {
    FindAppend(s, lo, b, hi, k);
    FindNone(s, lo, b, k);
    FindAppend(s, b, m, hi, k);
    FindNone(s, m, hi, k);
  }

  lemma OneEntry(s: HexMap, lo: nat, pre: nat)
    requires lo < |s| && pre <= |s[lo].key|
    ensures StandsFor(Leaf(s[lo].key[pre..], s[lo].value), s, lo, lo + 1, s[lo].key[..pre])
  {
    var prefix, rest := s[lo].key[..pre], s[lo].key[pre..];
    assert s[lo].key == prefix + rest;
    forall k
      ensures Get(Leaf(rest, s[lo].value), k) == Find(s, lo, lo + 1, prefix + k)
    {
      ConcatInjective(prefix, rest, k);
    }
  }

  /** Entries that share more than the prefix hang below an extension. */
  lemma BelowExtension(s: HexMap, lo: nat, hi: nat, pre: nat, longer: nat, child: Node)
    requires lo < hi <= |s| && pre < longer <= |s[lo].key|
    requires Under(s, lo, hi, s[lo].key[..longer])
    requires StandsFor(child, s, lo, hi, s[lo].key[..longer]) && child.Branch?
    ensures StandsFor(Extension(s[lo].key[pre..longer], child), s, lo, hi, s[lo].key[..pre])
  {
    var prefix, key, full := s[lo].key[..pre], s[lo].key[pre..longer], s[lo].key[..longer];
    assert full == prefix + key;
    forall k
      ensures Get(Extension(key, child), k) == Find(s, lo, hi, prefix + k)
    {
      if key <= k {
        assert k == key + k[|key|..];
        assert prefix + k == full + k[|key|..];
      } else {
        forall j | lo <= j < hi
          ensures s[j].key != prefix + k
        {
          PrefixOfConcat(full, prefix, k);
          assert full[|prefix|..] == key;
        }
        FindNone(s, lo, hi, prefix + k);
      }
    }
  }

  /** One entry of the branch being built: the node for the keys from b to m, which go on with nibble c. */
  ghost predicate EntryStands(n: Node, s: HexMap, lo: nat, hi: nat, prefix: Nibbles, c: Nibble)
    requires lo <= hi <= |s|
  {
    WellFormed(n) && Shape(n) && Sized(n) && forall k :: Get(n, k) == Find(s, lo, hi, prefix + [c] + k)
  }

  /** Keys from b to m go on with c behind the prefix, the other keys in the range do not. */
  ghost predicate GoOnWith(s: HexMap, lo: nat, hi: nat, b: nat, m: nat, pre: nat, c: Nibble)
    requires lo <= b <= m <= hi <= |s|
  {
    && (forall j :: b <= j < m ==> |s[j].key| > pre && s[j].key[pre] == c)
    && (forall j :: lo <= j < hi && !(b <= j < m) ==> |s[j].key| <= pre || s[j].key[pre] != c)
  }

  lemma EntryFromRange(n: Node, s: HexMap, lo: nat, hi: nat, b: nat, m: nat, pre: nat, c: Nibble)
    requires lo < hi <= |s| && lo <= b <= m <= hi && pre <= |s[lo].key| && Under(s, lo, hi, s[lo].key[..pre])
    requires GoOnWith(s, lo, hi, b, m, pre, c)
    requires b < m ==> StandsFor(n, s, b, m, s[b].key[..pre + 1]) && Sized(n)
    requires b == m ==> n == Null
    ensures EntryStands(n, s, lo, hi, s[lo].key[..pre], c)
  {
    var prefix := s[lo].key[..pre];
    if b < m {
      assert prefix <= s[b].key;
      assert s[b].key[..pre + 1] == prefix + [c];
    }
    forall k
      ensures Get(n, k) == Find(s, lo, hi, prefix + [c] + k)
    {
      assert (prefix + [c] + k)[pre] == c;
      FindWithin(s, lo, hi, b, m, prefix + [c] + k);
    }
  }

  lemma BranchStands(s: HexMap, lo: nat, hi: nat, pre: nat, children: seq<Node>, slot: Option<Bytes>)
    requires Sorted(s) && lo < hi <= |s| && pre <= |s[lo].key| && Under(s, lo, hi, s[lo].key[..pre])
    requires |children| == 16 && forall c: Nibble :: EntryStands(children[c], s, lo, hi, s[lo].key[..pre], c)
    requires slot == if pre == |s[lo].key| then Some(s[lo].value) else None
    requires TwoUsed(children, slot)
    ensures StandsFor(Branch(children, slot), s, lo, hi, s[lo].key[..pre])
  {
    var prefix := s[lo].key[..pre];
    var n := Branch(children, slot);
    assert forall i :: 0 <= i < 16 ==> EntryStands(children[i], s, lo, hi, prefix, i);
    forall k
      ensures Get(n, k) == Find(s, lo, hi, prefix + k)
    {
      if k != [] {
        assert EntryStands(children[k[0]], s, lo, hi, prefix, k[0]);
        assert prefix + k == prefix + [k[0]] + k[1..];
      } else {
        assert prefix + k == prefix;
        if pre == |s[lo].key| {
          assert s[lo].key == prefix;
        } else {
          forall j | lo <= j < hi
            ensures s[j].key != prefix
          {
            if lo < j {
              NibbleOrder(s[lo].key, s[j].key, pre);
            }
          }
          FindNone(s, lo, hi, prefix);
        }
      }
    }
  }

  // ---------------------------------------------------------------- the recursion

  /** What has been written of a list stays small enough for a header. */
  ghost predicate RoomLeft(items: seq<Item>) {
    |EncodeAll(items)| <= MAX_SIZE
  }

  lemma DataInside(st: State, total: nat, items: seq<Item>, data: Bytes)
    requires Inside(st, total, items) && |items| < total && RoomLeft(items) && |data| <= MAX_SIZE
    ensures RlpStream.Valid(st) && HasHeader(|data|)
    ensures Apply(Call.Append(data), st).Some?
    ensures Inside(Apply(Call.Append(data), st).value, total, items + [Data(data)])
    ensures |EncodeAll(items + [Data(data)])| <= |EncodeAll(items)| + |data| + 9
  {
    hide Encode, Note, Inside;
    InsideValid(st, total, items);
    EncodeAllSnoc(items, Data(data));
    EncodeOfData(data);
    DataSize(data);
    FitsHasHeader(|data|);
    FitsHasHeader(|EncodeAll(items + [Data(data)])|);
    InsideNext(st, total, items, Data(data));
  }

  lemma InsideValid(st: State, total: nat, items: seq<Item>)
    requires Inside(st, total, items)
    ensures RlpStream.Valid(st)
  {
  }

  lemma RawInside(st: State, total: nat, items: seq<Item>, item: Item)
    requires Inside(st, total, items) && |items| < total && RoomLeft(items) && |Encode(item)| <= 41
    ensures RlpStream.Valid(st) && Apply(Call.AppendRaw(Encode(item), 1), st).Some?
    ensures Inside(Apply(Call.AppendRaw(Encode(item), 1), st).value, total, items + [item])
  {
    hide Encode, Note, Inside;
    InsideValid(st, total, items);
    EncodeAllSnoc(items, item);
    FitsHasHeader(|EncodeAll(items + [item])|);
    InsideNext(st, total, items, item);
  }

  /** hash256rlp: writes the node for the entries from lo to hi, whose keys share their first preLen nibbles. */
  method Hash256Rlp(hash: HashFn, s: HexMap, lo: nat, hi: nat, preLen: nat, stream: Stream) returns (ghost n: Node)
    requires lo <= hi <= |s| && Sorted(s) && Short(s)
    requires lo < hi ==> preLen <= |s[lo].key| && Under(s, lo, hi, s[lo].key[..preLen])
    requires stream.Value() == State([], [])
    modifies stream
    ensures stream.Value() == State(EncodeNode(hash, n), [])
    ensures StandsFor(n, s, lo, hi, if lo < hi then s[lo].key[..preLen] else []) && Sized(n)
    ensures n == Null <==> lo == hi
    ensures (exists i :: lo < i < hi && Shared(s[lo].key, s[i].key) == preLen) ==> n.Branch?
    decreases hi - lo, if lo < hi then |s[lo].key| - preLen else 0, 1
  {
    hide Encode, Note, Apply, Find, HexPrefix;
    if lo == hi {
      WriteNothing(hash);
      var _ := stream.Append([]);
      n := Null;
      forall k
        ensures Find(s, lo, hi, [] + k) == None
      {
        FindNone(s, lo, hi, [] + k);
      }
    } else if lo + 1 == hi {
      n := WriteLeaf(hash, s, lo, preLen, stream);
    } else {
      var sharedPre := SharedPrefix(s, lo, hi, preLen);
      if sharedPre > preLen {
        n := WriteExtension(hash, s, lo, hi, preLen, sharedPre, stream);
        SharedMore(s, lo, hi, preLen, sharedPre);
      } else {
        n := WriteBranch(hash, s, lo, hi, preLen, stream);
      }
    }
  }

  lemma SharedMore(s: HexMap, lo: nat, hi: nat, pre: nat, longer: nat)
    requires lo < hi <= |s| && pre < longer <= |s[lo].key| && Under(s, lo, hi, s[lo].key[..longer])
    ensures forall i :: lo < i < hi ==> Shared(s[lo].key, s[i].key) != pre
  {
    forall i | lo < i < hi
      ensures Shared(s[lo].key, s[i].key) != pre
    {
      SharedAt(s[lo].key, s[i].key, longer);
    }
  }

  lemma WriteNothing(hash: HashFn)
    ensures HasHeader(0) && EncodeNode(hash, Null) == [0x80]
    ensures Apply(Call.Append([]), State([], [])) == Some(State([0x80], []))
  {
    assert [] + EncodeData([]) == [0x80];
  }

  method WriteLeaf(hash: HashFn, s: HexMap, lo: nat, preLen: nat, stream: Stream) returns (ghost n: Node)
    requires lo < |s| && Short(s) && preLen <= |s[lo].key|
    requires stream.Value() == State([], [])
    modifies stream
    ensures stream.Value() == State(EncodeNode(hash, n), [])
    ensures n == Leaf(s[lo].key[preLen..], s[lo].value)
    ensures StandsFor(n, s, lo, lo + 1, s[lo].key[..preLen]) && Sized(n)
  {
    hide Encode, Note, Apply, Find, HexPrefix;
    n := Leaf(s[lo].key[preLen..], s[lo].value);
    OneEntry(s, lo, preLen);
    StartList(2);
    var ok := stream.AppendList(2);
    var key := EncodeVector(s[lo].key, true, preLen, |s[lo].key|);
    assert s[lo].key[preLen..|s[lo].key|] == s[lo].key[preLen..];
    HexPrefixSize(s[lo].key[preLen..], true);
    DataInside(stream.Value(), 2, [], key);
    ok := stream.Append(key);
    assert [] + [Data(key)] == [Data(key)];
    DataInside(stream.Value(), 2, [Data(key)], s[lo].value);
    ok := stream.Append(s[lo].value);
    assert [Data(key)] + [Data(s[lo].value)] == [Data(key), Data(s[lo].value)];
  }

  lemma HexPrefixSize(key: Nibbles, leaf: bool)
    ensures |HexPrefix(key, leaf)| <= |key| / 2 + 1
  {
  }

  lemma StartList(total: nat)
    requires total > 0
    ensures Apply(Call.AppendList(total), State([], [])).Some?
    ensures Inside(Apply(Call.AppendList(total), State([], [])).value, total, [])
    ensures RoomLeft([])
  {
  }

  method WriteExtension(hash: HashFn, s: HexMap, lo: nat, hi: nat, preLen: nat, sharedPre: nat, stream: Stream)
    returns (ghost n: Node)
    requires lo + 1 < hi <= |s| && Sorted(s) && Short(s) && preLen < sharedPre <= |s[lo].key|
    requires Under(s, lo, hi, s[lo].key[..sharedPre])
    requires exists i :: lo < i < hi && Shared(s[lo].key, s[i].key) == sharedPre
    requires stream.Value() == State([], [])
    modifies stream
    ensures stream.Value() == State(EncodeNode(hash, n), [])
    ensures StandsFor(n, s, lo, hi, s[lo].key[..preLen]) && Sized(n) && n != Null
    decreases hi - lo, |s[lo].key| - preLen, 0
  {
    hide Encode, Note, Apply, Find, HexPrefix;
    StartList(2);
    var ok := stream.AppendList(2);
    var key := EncodeVector(s[lo].key, false, preLen, sharedPre);
    HexPrefixSize(s[lo].key[preLen..sharedPre], false);
    DataInside(stream.Value(), 2, [], key);
    ok := stream.Append(key);
    assert [] + [Data(key)] == [Data(key)];
    assert RoomLeft([Data(key)]);
    ghost var child := Hash256Aux(hash, s, lo, hi, sharedPre, stream, 2, [Data(key)]);
    n := Extension(s[lo].key[preLen..sharedPre], child);
    assert [Data(key)] + [Ref(hash, child)] == [Data(key), Ref(hash, child)];
    BelowExtension(s, lo, hi, preLen, sharedPre, child);
  }

  /** hash256aux: writes the node as it is, or its hash, into the list the stream is in. */
  method Hash256Aux(hash: HashFn, s: HexMap, lo: nat, hi: nat, preLen: nat, stream: Stream, ghost total: nat, ghost items: seq<Item>)
    returns (ghost n: Node)
    requires lo < hi <= |s| && Sorted(s) && Short(s)
    requires preLen <= |s[lo].key| && Under(s, lo, hi, s[lo].key[..preLen])
    requires Inside(stream.Value(), total, items) && |items| < total && RoomLeft(items)
    modifies stream
    ensures Inside(stream.Value(), total, items + [Ref(hash, n)])
    ensures StandsFor(n, s, lo, hi, s[lo].key[..preLen]) && Sized(n) && n != Null
    ensures (exists i :: lo < i < hi && Shared(s[lo].key, s[i].key) == preLen) ==> n.Branch?
    decreases hi - lo, |s[lo].key| - preLen, 2
  {
    hide Encode, Note, Apply, Find, Inside;
    var rlp := new Stream();
    n := Hash256Rlp(hash, s, lo, hi, preLen, rlp);
    var bytes := rlp.out;
    RefSize(hash, n);
    RefKind(hash, n);
    if |bytes| < 32 {
      RawInside(stream.Value(), total, items, NodeItem(hash, n));
      var _ := stream.AppendRaw(bytes, 1);
    } else {
      DataInside(stream.Value(), total, items, hash(bytes));
      var _ := stream.Append(hash(bytes));
    }
  }

  method WriteBranch(hash: HashFn, s: HexMap, lo: nat, hi: nat, preLen: nat, stream: Stream) returns (ghost n: Node)
    requires lo + 1 < hi <= |s| && Sorted(s) && Short(s)
    requires preLen <= |s[lo].key| && Under(s, lo, hi, s[lo].key[..preLen])
    requires exists i :: lo < i < hi && Shared(s[lo].key, s[i].key) == preLen
    requires stream.Value() == State([], [])
    modifies stream
    ensures stream.Value() == State(EncodeNode(hash, n), [])
    ensures StandsFor(n, s, lo, hi, s[lo].key[..preLen]) && Sized(n) && n.Branch?
    decreases hi - lo, |s[lo].key| - preLen, 0, 1
  {
    hide Encode, Note, Apply, Find, Inside, Sorted, Under, Progress, Refs;
    StartList(17);
    var ok := stream.AppendList(17);
    ghost var children: seq<Node> := [];
    var b: nat := lo;
    if preLen == |s[lo].key| {
      b := b + 1;
    }
    BranchStarts(s, lo, hi, preLen);
    for i := 0 to 16
      invariant |children| == i && b <= hi
      invariant Inside(stream.Value(), 17, Refs(hash, children)) && RoomLeft(Refs(hash, children))
      invariant Progress(s, lo, hi, preLen, b, children)
    {
      ghost var child;
      b, child := WriteRun(hash, s, lo, hi, preLen, b, i, stream, children);
      RefsSnoc(hash, children, child);
      children := children + [child];
      RefsSize(hash, children);
    }
    ghost var slot := if preLen == |s[lo].key| then Some(s[lo].value) else None;
    if preLen == |s[lo].key| {
      DataInside(stream.Value(), 17, Refs(hash, children), s[lo].value);
      ok := stream.Append(s[lo].value);
    } else {
      DataInside(stream.Value(), 17, Refs(hash, children), []);
      ok := stream.Append([]);
    }
    n := Branch(children, slot);
    BranchDone(s, lo, hi, preLen, b, children, slot);
    ListDone(stream.Value(), Refs(hash, children) + [Data(SlotBytes(slot))]);
  }

  /** The entries of the branch that are written, and where the rest of the keys begin. */
  ghost predicate Progress(s: HexMap, lo: nat, hi: nat, pre: nat, b: nat, children: seq<Node>) {
    var first := if lo < |s| && pre == |s[lo].key| then lo + 1 else lo;
    && lo < hi <= |s| && pre <= |s[lo].key| && first <= b <= hi && |children| <= 16
    && (forall j :: b <= j < hi ==> |s[j].key| > pre && s[j].key[pre] >= |children|)
    && (forall j :: first <= j < b ==> |s[j].key| > pre && s[j].key[pre] < |children| && children[s[j].key[pre]] != Null)
    && (forall c: Nibble :: c < |children| ==> EntryStands(children[c], s, lo, hi, s[lo].key[..pre], c))
  }

  /** Writes the entry for the keys that go on with nibble c. */
  method WriteRun(hash: HashFn, s: HexMap, lo: nat, hi: nat, preLen: nat, b: nat, c: Nibble, stream: Stream, ghost children: seq<Node>)
    returns (m: nat, ghost child: Node)
    requires lo + 1 < hi <= |s| && Sorted(s) && Short(s)
    requires preLen <= |s[lo].key| && Under(s, lo, hi, s[lo].key[..preLen])
    requires Progress(s, lo, hi, preLen, b, children) && |children| == c
    requires Inside(stream.Value(), 17, Refs(hash, children)) && RoomLeft(Refs(hash, children))
    modifies stream
    ensures Inside(stream.Value(), 17, Refs(hash, children) + [Ref(hash, child)])
    ensures m <= hi && Progress(s, lo, hi, preLen, m, children + [child])
    decreases hi - lo, |s[lo].key| - preLen, 0, 0
  {
    hide Encode, Note, Apply, Find, Inside, Sorted, Under, Refs, StandsFor, EntryStands, GoOnWith, RoomLeft;
    m := EndOfRun(s, b, hi, preLen, c);
    RunGoesOn(s, lo, hi, if preLen == |s[lo].key| then lo + 1 else lo, b, m, preLen, c);
    hide Progress;
    child := Null;
    if b == m {
      DataInside(stream.Value(), 17, Refs(hash, children), []);
      var ok := stream.Append([]);
      RefKind(hash, Null);
    } else {
      RunIsUnder(s, lo, hi, b, m, preLen, c);
      RunIsShorter(s, lo, hi, b, m, preLen);
      child := Hash256Aux(hash, s, b, m, preLen + 1, stream, 17, Refs(hash, children));
    }
    EntryFromRange(child, s, lo, hi, b, m, preLen, c);
    ProgressMade(s, lo, hi, preLen, b, m, children, child);
  }

  lemma ProgressMade(s: HexMap, lo: nat, hi: nat, pre: nat, b: nat, m: nat, children: seq<Node>, child: Node)
    requires Progress(s, lo, hi, pre, b, children) && |children| < 16 && b <= m <= hi <= |s|
    requires GoOnWith(s, lo, hi, b, m, pre, |children|) && (b < m ==> child != Null)
    requires forall j :: m <= j < hi ==> s[j].key[pre] >= |children| + 1
    requires EntryStands(child, s, lo, hi, s[lo].key[..pre], |children|)
    ensures Progress(s, lo, hi, pre, m, children + [child])
  {
    hide EntryStands;
  }

  lemma RunIsShorter(s: HexMap, lo: nat, hi: nat, b: nat, m: nat, pre: nat)
    requires lo <= b < m <= hi <= |s| && pre < |s[b].key|
    ensures m - b < hi - lo || (m - b == hi - lo && b == lo)
  {
  }

  lemma BranchDone(s: HexMap, lo: nat, hi: nat, pre: nat, b: nat, children: seq<Node>, slot: Option<Bytes>)
    requires Sorted(s) && lo < hi <= |s| && pre <= |s[lo].key| && Under(s, lo, hi, s[lo].key[..pre]) && Short(s)
    requires Progress(s, lo, hi, pre, b, children) && |children| == 16
    requires slot == if pre == |s[lo].key| then Some(s[lo].value) else None
    requires exists i :: lo < i < hi && Shared(s[lo].key, s[i].key) == pre
    ensures StandsFor(Branch(children, slot), s, lo, hi, s[lo].key[..pre]) && Sized(Branch(children, slot))
  {
    hide Find;
    assert b < |s| && pre < |s[b].key| ==> s[b].key[pre] < 16;
    assert b == hi;
    TwoRuns(s, lo, hi, pre, children, slot);
    assert forall c: Nibble :: EntryStands(children[c], s, lo, hi, s[lo].key[..pre], c);
    BranchStands(s, lo, hi, pre, children, slot);
    assert forall i :: 0 <= i < 16 ==> EntryStands(children[i], s, lo, hi, s[lo].key[..pre], i);
  }

  lemma ListDone(st: State, items: seq<Item>)
    requires Inside(st, |items|, items)
    ensures st == State(Encode(List(items)), [])
  {
  }

  lemma RefsSnoc(hash: HashFn, children: seq<Node>, child: Node)
    ensures Refs(hash, children + [child]) == Refs(hash, children) + [Ref(hash, child)]
  {
  }

  /** The first index from b on whose key does not go on with nibble c. */
  method EndOfRun(s: HexMap, b: nat, hi: nat, preLen: nat, c: nat) returns (m: nat)
    requires b <= hi <= |s| && forall j :: b <= j < hi ==> |s[j].key| > preLen
    ensures b <= m <= hi
    ensures forall j :: b <= j < m ==> s[j].key[preLen] == c
    ensures m < hi ==> s[m].key[preLen] != c
  {
    m := b;
    while m < hi && s[m].key[preLen] == c
      invariant b <= m <= hi
      invariant forall j :: b <= j < m ==> s[j].key[preLen] == c
    {
      m := m + 1;
    }
  }

  /** Behind an entry that ends at the branch, all keys go on. */
  lemma BranchStarts(s: HexMap, lo: nat, hi: nat, pre: nat)
    requires Sorted(s) && lo < hi <= |s| && pre <= |s[lo].key| && Under(s, lo, hi, s[lo].key[..pre])
    ensures Progress(s, lo, hi, pre, if pre == |s[lo].key| then lo + 1 else lo, [])
  {
    forall j | lo < j < hi
      ensures |s[j].key| > pre
    {
      NibbleOrder(s[lo].key, s[j].key, pre);
    }
  }

  lemma RunGoesOn(s: HexMap, lo: nat, hi: nat, first: nat, b: nat, m: nat, pre: nat, c: Nibble)
    requires Sorted(s) && lo < hi <= |s| && lo <= first <= b <= m <= hi
    requires pre <= |s[lo].key| && Under(s, lo, hi, s[lo].key[..pre])
    requires first == if pre == |s[lo].key| then lo + 1 else lo
    requires forall j :: b <= j < hi ==> |s[j].key| > pre && s[j].key[pre] >= c
    requires forall j :: first <= j < b ==> |s[j].key| > pre && s[j].key[pre] < c
    requires forall j :: b <= j < m ==> s[j].key[pre] == c
    requires m < hi ==> s[m].key[pre] != c
    ensures GoOnWith(s, lo, hi, b, m, pre, c)
    ensures forall j :: m <= j < hi ==> s[j].key[pre] >= c + 1
  {
    forall j | m <= j < hi
      ensures s[j].key[pre] >= c + 1
    {
      if m < j {
        assert s[lo].key[..pre] <= s[m].key && s[lo].key[..pre] <= s[j].key;
        assert s[m].key[..pre] == s[lo].key[..pre];
        NibbleOrder(s[m].key, s[j].key, pre);
      }
    }
  }

  lemma RunIsUnder(s: HexMap, lo: nat, hi: nat, b: nat, m: nat, pre: nat, c: Nibble)
    requires lo <= b < m <= hi <= |s| && pre <= |s[lo].key| && Under(s, lo, hi, s[lo].key[..pre])
    requires GoOnWith(s, lo, hi, b, m, pre, c)
    ensures pre + 1 <= |s[b].key| && Under(s, b, m, s[b].key[..pre + 1])
  {
    forall j | b <= j < m
      ensures s[b].key[..pre + 1] <= s[j].key
    {
      assert s[lo].key[..pre] <= s[b].key && s[lo].key[..pre] <= s[j].key;
      assert s[b].key[..pre + 1] == s[lo].key[..pre] + [c];
      assert s[j].key[..pre + 1] == s[lo].key[..pre] + [c];
    }
  }

  /** Keys that part at the branch put two of its entries to use. */
  lemma TwoRuns(s: HexMap, lo: nat, hi: nat, pre: nat, children: seq<Node>, slot: Option<Bytes>)
    requires Sorted(s) && lo < hi <= |s| && pre <= |s[lo].key| && |children| == 16
    requires forall j :: (if pre == |s[lo].key| then lo + 1 else lo) <= j < hi ==>
      |s[j].key| > pre && children[s[j].key[pre]] != Null
    requires pre == |s[lo].key| ==> slot.Some?
    requires exists i :: lo < i < hi && Shared(s[lo].key, s[i].key) == pre
    ensures TwoUsed(children, slot)
  {
    var i :| lo < i < hi && Shared(s[lo].key, s[i].key) == pre;
    TwoUsedBy(children, slot, s[i].key[pre], if pre == |s[lo].key| then 16 else s[lo].key[pre]);
  }

  /** A canonical node with exactly the entries of the map. */
  ghost predicate Holds(n: Node, s: HexMap) {
    WellFormed(n) && Shape(n) && forall k :: Get(n, k) == Find(s, 0, |s|, k)
  }

  // ---------------------------------------------------------------- the root of a map

  /** What a map from byte strings has for a nibble key. */
  function ByteEntry(m: map<Bytes, Bytes>, k: Nibbles): Option<Bytes> {
    if |k| % 2 == 0 && Pack(k) in m then Some(m[Pack(k)]) else None
  }

  /** The node is the canonical trie with the entries of the map. */
  ghost predicate Keeps(n: Node, m: map<Bytes, Bytes>) {
    WellFormed(n) && Shape(n) && forall k :: Get(n, k) == ByteEntry(m, k)
  }

  /** The canonical trie of a map, by inserting its entries in any order. */
  ghost function TrieOf(m: map<Bytes, Bytes>): (n: Node)
    ensures Shape(n) && WellFormed(n)
    decreases m.Keys
  {
    if m == map[] then Null
    else
      var k :| k in m;
      var rest := TrieOf(m - {k});
      MergedWellFormed(rest, Unpack(k), m[k]);
      Merged(rest, Unpack(k), m[k])
  }

  /** The root hash of a map. */
  ghost function Root256(hash: HashFn, m: map<Bytes, Bytes>): Hash {
    hash(EncodeNode(hash, TrieOf(m)))
  }

  lemma PutByteEntry(m: map<Bytes, Bytes>, key: Bytes, value: Bytes, k: Nibbles)
    ensures ByteEntry(m[key := value], k) == if k == Unpack(key) then Some(value) else ByteEntry(m, k)
    ensures ByteEntry(m - {key}, k) == if k == Unpack(key) then None else ByteEntry(m, k)
  {
    hide Pack, Unpack;
    PackUnpack(key);
    if |k| % 2 == 0 {
      UnpackPack(k);
    }
  }

  /** The trie of a map is the one canonical trie with its entries. */
  lemma TrieOfKeeps(n: Node, m: map<Bytes, Bytes>)
    ensures Keeps(n, m) <==> n == TrieOf(m)
  {
    hide Get, Merged, WellFormed, Shape;
    EntriesOfTrie(m);
    if Keeps(n, m) {
      Unique(n, TrieOf(m));
    }
  }

  lemma {:induction false} EntriesOfTrie(m: map<Bytes, Bytes>)
    ensures forall k :: Get(TrieOf(m), k) == ByteEntry(m, k)
    decreases m.Keys
  {
    hide Get, Merged, WellFormed, Shape, ByteEntry;
    if m == map[] {
      NothingEntered();
    } else {
      var key :| key in m && TrieOf(m) == Merged(TrieOf(m - {key}), Unpack(key), m[key]);
      EntriesOfTrie(m - {key});
      forall k
        ensures Get(TrieOf(m), k) == ByteEntry(m, k)
      {
        GetMerged(TrieOf(m - {key}), Unpack(key), m[key], k);
        PutByteEntry(m, key, m[key], k);
        assert m[key := m[key]] == m;
      }
    }
  }

  lemma NothingEntered()
    ensures forall k :: Get(Null, k) == ByteEntry(map[], k)
  {
  }

  // ---------------------------------------------------------------- the map with nibble keys

  /** Sets the value of a key, which goes to its place in the order. */
  function Assigned(s: HexMap, key: Nibbles, value: Bytes): HexMap {
    if s == [] || Earlier(key, s[0].key) then [HexEntry(key, value)] + s
    else if key == s[0].key then [HexEntry(key, value)] + s[1..]
    else [s[0]] + Assigned(s[1..], key, value)
  }

  lemma {:induction false} EarlierTotal(a: Nibbles, b: Nibbles)
    ensures Earlier(a, b) || a == b || Earlier(b, a)
  {
    if a != [] && b != [] && a[0] == b[0] {
      EarlierTotal(a[1..], b[1..]);
      assert a == [a[0]] + a[1..] && b == [b[0]] + b[1..];
    }
  }

  lemma {:induction false} EarlierTransitive(a: Nibbles, b: Nibbles, c: Nibbles)
    requires Earlier(a, b) && Earlier(b, c)
    ensures Earlier(a, c)
  {
    if a != [] && a[0] == b[0] == c[0] {
      EarlierTransitive(a[1..], b[1..], c[1..]);
    }
  }

  lemma {:induction false} AssignedSorted(s: HexMap, key: Nibbles, value: Bytes)
    requires Sorted(s)
    ensures Sorted(Assigned(s, key, value))
    ensures forall e :: e in Assigned(s, key, value) <==> e == HexEntry(key, value) || (e in s && e.key != key)
  {
    hide Earlier;
    var result := Assigned(s, key, value);
    if s != [] {
      var first, rest := s[0], s[1..];
      assert s == [first] + rest;
      assert forall i :: 0 <= i < |rest| ==> rest[i] == s[i + 1];
      forall e | e in rest
        ensures Earlier(first.key, e.key) && e.key != first.key
      {
        EarlierDiffers(first.key, e.key);
      }
      if Earlier(key, first.key) {
        EarlierDiffers(key, first.key);
        forall e | e in rest
          ensures Earlier(key, e.key) && e.key != key
        {
          EarlierTransitive(key, first.key, e.key);
          EarlierDiffers(key, e.key);
        }
      } else if key != first.key {
        EarlierTotal(key, first.key);
        AssignedSorted(rest, key, value);
        assert forall e :: e in Assigned(rest, key, value) ==> Earlier(first.key, e.key);
      }
      PutFirst(result[0], result[1..]);
    }
  }

  lemma PutFirst(first: HexEntry, rest: HexMap)
    requires Sorted(rest) && forall e :: e in rest ==> Earlier(first.key, e.key)
    ensures Sorted([first] + rest)
  {
    hide Earlier;
  }

  /** Looking up a key finds the entry with that key. */
  lemma FindEntry(s: HexMap, k: Nibbles)
    requires Sorted(s)
    ensures forall e :: e in s && e.key == k ==> Find(s, 0, |s|, k) == Some(e.value)
    ensures (forall e :: e in s ==> e.key != k) ==> Find(s, 0, |s|, k) == None
  {
    hide Find, Earlier;
    forall e | e in s && e.key == k
      ensures Find(s, 0, |s|, k) == Some(e.value)
    {
      var i :| 0 <= i < |s| && s[i] == e;
      FindIn(s, 0, |s|, i);
    }
    if forall e :: e in s ==> e.key != k {
      FindNone(s, 0, |s|, k);
    }
  }

  /** The sorted map has the entries of the given part of the map. */
  ghost predicate Converted(s: HexMap, m: map<Bytes, Bytes>, done: set<Bytes>) {
    && Sorted(s)
    && (forall e :: e in s ==> |e.key| % 2 == 0 && Pack(e.key) in done && Pack(e.key) in m && e.value == m[Pack(e.key)])
    && forall k :: k in done && k in m ==> HexEntry(Unpack(k), m[k]) in s
  }

  lemma ConvertOne(s: HexMap, m: map<Bytes, Bytes>, done: set<Bytes>, k: Bytes)
    requires Converted(s, m, done) && k in m && k !in done
    ensures Converted(Assigned(s, Unpack(k), m[k]), m, done + {k})
  {
    hide Pack, Unpack, Assigned, Sorted;
    AssignedSorted(s, Unpack(k), m[k]);
    PackUnpack(k);
    forall other | other in done && other in m
      ensures Unpack(other) != Unpack(k)
    {
      PackUnpack(other);
    }
  }

  lemma ConvertedHolds(s: HexMap, m: map<Bytes, Bytes>, n: Node)
    requires Converted(s, m, m.Keys) && Holds(n, s)
    ensures n == TrieOf(m)
  {
    hide Pack, Unpack, Find, Get, Shape, WellFormed, Sorted;
    forall k
      ensures Get(n, k) == ByteEntry(m, k)
    {
      FindEntry(s, k);
      if |k| % 2 == 0 && Pack(k) in m {
        UnpackPack(k);
        assert HexEntry(Unpack(Pack(k)), m[Pack(k)]) in s;
      }
    }
    TrieOfKeeps(n, m);
  }

  ghost predicate ShortMap(m: map<Bytes, Bytes>) {
    forall k :: k in m ==> 2 * |k| < UNSIGNED_MAX && |m[k]| < MAX_SIZE
  }

  lemma ConvertedShort(s: HexMap, m: map<Bytes, Bytes>, done: set<Bytes>)
    requires Converted(s, m, done) && ShortMap(m)
    ensures Short(s)
  {
  }

  /** rlp256: the root node of the canonical trie with the entries of the map. The keys may be taken in any order. */
  method Rlp256(hash: HashFn, m: map<Bytes, Bytes>) returns (root: Bytes)
    requires ShortMap(m)
    ensures root == EncodeNode(hash, TrieOf(m))
  {
    hide Find, Get, EncodeNode, Sorted, Short, Sized, Under, StandsFor, Converted, ShortMap, Holds;
    if m == map[] {
      WriteNothing(hash);
      return [0x80];
    }
    var hexMap: HexMap := [];
    var todo := m.Keys;
    NothingConverted(m);
    while todo != {}
      invariant todo <= m.Keys && Converted(hexMap, m, m.Keys - todo)
      decreases todo
    {
      var k :| k in todo;
      ConvertOne(hexMap, m, m.Keys - todo, k);
      assert m.Keys - todo + {k} == m.Keys - (todo - {k});
      hexMap := Assigned(hexMap, Unpack(k), m[k]);
      todo := todo - {k};
    }
    assert m.Keys - todo == m.Keys;
    ConvertedShort(hexMap, m, m.Keys);
    SomethingConverted(hexMap, m);
    WholeRange(hexMap);
    var stream := new Stream();
    ghost var n := Hash256Rlp(hash, hexMap, 0, |hexMap|, 0, stream);
    StandsHolds(n, hexMap);
    ConvertedHolds(hexMap, m, n);
    root := stream.out;
  }

  /** hash256. */
  method Hash256(hash: HashFn, m: map<Bytes, Bytes>) returns (root: Hash)
    requires ShortMap(m)
    ensures root == Root256(hash, m)
  {
    var node := Rlp256(hash, m);
    root := hash(node);
  }

  lemma NothingConverted(m: map<Bytes, Bytes>)
    ensures Converted([], m, m.Keys - m.Keys)
  {
  }

  lemma SomethingConverted(s: HexMap, m: map<Bytes, Bytes>)
    requires m != map[] && Converted(s, m, m.Keys)
    ensures s != [] && Sorted(s)
  {
    var k :| k in m;
    assert HexEntry(Unpack(k), m[k]) in s;
  }

  lemma WholeRange(s: HexMap)
    requires s != []
    ensures Under(s, 0, |s|, s[0].key[..0])
  {
  }

  lemma StandsHolds(n: Node, s: HexMap)
    requires s != [] && StandsFor(n, s, 0, |s|, s[0].key[..0])
    ensures Holds(n, s)
  {
    forall k
      ensures Get(n, k) == Find(s, 0, |s|, k)
    {
      assert s[0].key[..0] + k == k;
    }
  }
}
