/** Whole runs of a trie over its store (libdevcore/TrieDB.h:77-309, OverlayDB.cpp:97-141, StateCacheDB.cpp). */
module TrieRuns {
  import opened Bytes
  import Rlp
  import opened TrieCommon
  import opened TrieNode
  import opened TrieEncoding
  import opened NodeStore
  import opened Trie
  import opened TrieHistory
  import TrieHash
  import TrieIteration

  /** What is done to a trie and to the store under it. */
  datatype Action = Insert(key: Bytes, value: Bytes) | Remove(key: Bytes) | Commit | Purge

  function Writes(actions: seq<Action>): seq<Op> {
    if actions == [] then []
    else
      var before := Writes(actions[..|actions| - 1]);
      match actions[|actions| - 1]
      case Insert(k, v) => before + [Put(Unpack(k), v)]
      case Remove(k) => before + [Erase(Unpack(k))]
      case _ => before
  }

  /** The trie after the actions. */
  ghost function TrieAfter(actions: seq<Action>): (n: Node)
    ensures WellFormed(n) && Shape(n)
  {
    RunTrie(Writes(actions))
  }

  /** The map after the actions. */
  function Contents(actions: seq<Action>): map<Bytes, Bytes> {
    if actions == [] then map[]
    else
      var before := Contents(actions[..|actions| - 1]);
      match actions[|actions| - 1]
      case Insert(k, v) => before[k := v]
      case Remove(k) => before - {k}
      case _ => before
  }

  ghost predicate HasKey(action: Action) {
    action.Insert? || action.Remove?
  }

  /** No key is a proper prefix of another. */
  ghost predicate KeysApart(actions: seq<Action>) {
    forall i, j :: 0 <= i < |actions| && 0 <= j < |actions| && HasKey(actions[i]) && HasKey(actions[j]) ==>
      (actions[i].key <= actions[j].key ==> actions[i].key == actions[j].key)
  }

  /** Keys of one length are the common case. */
  lemma FixedLengthKeys(actions: seq<Action>, length: nat)
    requires forall i :: 0 <= i < |actions| && HasKey(actions[i]) ==> |actions[i].key| == length
    ensures KeysApart(actions)
  {
  }

  /** The strings considered are those the action makes. */
  ghost predicate CoveredAction(hash: HashFn, strings: iset<Bytes>, n: Node, action: Action)
    requires Shape(n)
  {
    match action
    case Insert(k, v) => 2 * |k| < MAX_SIZE && |v| < MAX_SIZE && CoversMerge(hash, strings, n, Unpack(k), v)
    case Remove(k) => Get(n, Unpack(k)).Some? ==> CoversDelete(hash, strings, n, Unpack(k))
    case _ => true
  }

  ghost predicate RunCovered(hash: HashFn, strings: iset<Bytes>, actions: seq<Action>) {
    forall i :: 0 <= i < |actions| ==> CoveredAction(hash, strings, TrieAfter(actions[..i]), actions[i])
  }

  // ---------------------------------------------------------------- keys

  lemma UnpackPrefix(a: Bytes, b: Bytes)
    requires Unpack(a) <= Unpack(b)
    ensures a <= b
  {
    hide Unpack;
    var front := b[..|a|];
    forall i | 0 <= i < 2 * |a|
      ensures Unpack(front)[i] == Unpack(a)[i]
    {
      UnpackAt(front, i);
      UnpackAt(b, i);
    }
    assert Unpack(front) == Unpack(a);
    PackUnpack(front);
    PackUnpack(a);
  }

  /** The trie after a run is the canonical trie of the map after it. */
  lemma {:induction false} RunKeeps(actions: seq<Action>)
    ensures TrieHash.Keeps(TrieAfter(actions), Contents(actions))
  {
    hide TrieHash.ByteEntry, Get;
    RunRepresents(Writes(actions));
    forall k
      ensures Get(TrieAfter(actions), k) == TrieHash.ByteEntry(Contents(actions), k)
    {
      EntryAgrees(actions, k);
    }
  }

  lemma {:induction false} EntryAgrees(actions: seq<Action>, k: Nibbles)
    ensures TrieNode.Entry(RunMap(Writes(actions)), k) == TrieHash.ByteEntry(Contents(actions), k)
  {
    hide TrieHash.ByteEntry;
    if actions == [] {
      TrieHash.NothingEntered();
    } else {
      var last := |actions| - 1;
      var before, writes := Contents(actions[..last]), Writes(actions[..last]);
      EntryAgrees(actions[..last], k);
      match actions[last]
      case Insert(key, v) =>
        TrieHash.PutByteEntry(before, key, v, k);
        assert (writes + [Put(Unpack(key), v)])[..|writes|] == writes;
      case Remove(key) =>
        TrieHash.PutByteEntry(before, key, [], k);
        assert (writes + [Erase(Unpack(key))])[..|writes|] == writes;
      case _ =>
    }
  }

  lemma {:induction false} ContentsKeys(actions: seq<Action>, k: Bytes)
    requires k in Contents(actions)
    ensures exists i :: 0 <= i < |actions| && HasKey(actions[i]) && actions[i].key == k
  {
    var last := |actions| - 1;
    if actions[last] != Insert(k, Contents(actions)[k]) {
      ContentsKeys(actions[..last], k);
      var i :| 0 <= i < last && HasKey(actions[..last][i]) && actions[..last][i].key == k;
      assert HasKey(actions[i]) && actions[i].key == k;
    }
  }

  /** Every key of the trie is one that was written. */
  lemma WrittenKey(actions: seq<Action>, i: nat, k: Nibbles) returns (j: nat)
    requires i <= |actions| && Get(TrieAfter(actions[..i]), k).Some?
    ensures j < i && HasKey(actions[j]) && Unpack(actions[j].key) == k
  {
    hide Get;
    RunKeeps(actions[..i]);
    UnpackPack(k);
    ContentsKeys(actions[..i], Pack(k));
    j :| 0 <= j < i && HasKey(actions[..i][j]) && actions[..i][j].key == Pack(k);
  }

  lemma KeyApart(actions: seq<Action>, i: nat, j: nat)
    requires KeysApart(actions) && i <= |actions| && j < |actions| && HasKey(actions[j])
    ensures Apart(TrieAfter(actions[..i]), Unpack(actions[j].key))
  {
    hide Get, Unpack;
    var k := Unpack(actions[j].key);
    forall other | Get(TrieAfter(actions[..i]), other).Some? && (other <= k || k <= other)
      ensures other == k
    {
      var m := WrittenKey(actions, i, other);
      if other <= k {
        UnpackPrefix(actions[m].key, actions[j].key);
      } else {
        UnpackPrefix(actions[j].key, actions[m].key);
      }
    }
  }

  lemma StaysPrefixFree(actions: seq<Action>, i: nat)
    requires KeysApart(actions) && i <= |actions|
    ensures PrefixFree(TrieAfter(actions[..i]))
  {
    hide Get, KeysApart, Apart;
    forall k | Get(TrieAfter(actions[..i]), k).Some?
      ensures Apart(TrieAfter(actions[..i]), k)
    {
      var j := WrittenKey(actions, i, k);
      KeyApart(actions, i, j);
    }
  }

  lemma NotAtSplit(n: Node, k: Nibbles)
    requires WellFormed(n) && Shape(n) && Apart(n, k)
    ensures !EndsAtSplit(n, k)
  {
    if EndsAtSplit(n, k) {
      var longer := SplitKeyIsPrefix(n, k);
      assert false;
    }
  }

  lemma OneMore(actions: seq<Action>, i: nat)
    requires i < |actions|
    ensures var n, n' := TrieAfter(actions[..i]), TrieAfter(actions[..i + 1]);
      match actions[i]
      case Insert(k, v) => n' == Merged(n, Unpack(k), v)
      case Remove(k) => n' == if Get(n, Unpack(k)).Some? then Deleted(n, Unpack(k)) else n
      case _ => n' == n
  {
    hide Merged, Deleted, Get, Unpack;
    var writes := Writes(actions[..i]);
    assert actions[..i + 1][..i] == actions[..i];
    match actions[i]
    case Insert(k, v) => assert (writes + [Put(Unpack(k), v)])[..|writes|] == writes;
    case Remove(k) => assert (writes + [Erase(Unpack(k))])[..|writes|] == writes;
    case _ =>
  }

  // ---------------------------------------------------------------- values that are not empty

  ghost predicate NonEmptyValues(actions: seq<Action>) {
    forall i :: 0 <= i < |actions| && actions[i].Insert? ==> actions[i].value != []
  }

  lemma {:induction false} ContentsNonEmpty(actions: seq<Action>, k: Bytes)
    requires NonEmptyValues(actions) && k in Contents(actions)
    ensures Contents(actions)[k] != []
  {
    var last := |actions| - 1;
    if actions[last] != Insert(k, Contents(actions)[k]) {
      ContentsNonEmpty(actions[..last], k);
    }
  }

  lemma RunVisible(actions: seq<Action>)
    requires NonEmptyValues(actions)
    ensures Visible(TrieAfter(actions))
  {
    hide Get, Visible;
    RunKeeps(actions);
    forall k | Get(TrieAfter(actions), k).Some?
      ensures Get(TrieAfter(actions), k) != Some([])
    {
      ContentsNonEmpty(actions, Pack(k));
    }
    NonEmptyVisible(TrieAfter(actions));
  }

  // ---------------------------------------------------------------- what a run may do, and what it misses

  /** What a run starts from: other references to the store, and what is on disk. */
  datatype Setting = Setting(hash: HashFn, frame: multiset<Hash>, disk: Disk)

  ghost function LiveAt(s: Setting, actions: seq<Action>, i: nat): multiset<Hash>
    requires i <= |actions|
  {
    s.frame + RootRefs(s.hash, TrieAfter(actions[..i]))
  }

  /** On disk is what was there, and what was live at some commit. */
  ghost predicate OnDiskAfter(s: Setting, actions: seq<Action>, i: nat, h: Hash)
    requires i <= |actions|
  {
    || OnDisk(s.disk, h)
    || (s.disk.Some? && exists k :: 0 <= k < i && actions[k] == Commit && h in LiveAt(s, actions, k))
  }

  /** What each step asks for: an insert whose key ends inside a partial key may meet no live branch that looks as if it
    was just made, and a removal has to be one deleteAt gets right. */
  ghost predicate Harmless(s: Setting, strings: iset<Bytes>, actions: seq<Action>, i: nat)
    requires i < |actions|
  {
    var n := TrieAfter(actions[..i]);
    match actions[i]
    case Insert(k, _) => EndsAtSplit(n, Unpack(k)) ==> Clean(s.hash, strings, s.frame) && Visible(n)
    case Remove(k) => Removable(s.hash, strings, n, Unpack(k))
    case _ => true
  }

  ghost predicate AllHarmless(s: Setting, strings: iset<Bytes>, actions: seq<Action>) {
    forall i :: 0 <= i < |actions| ==> Harmless(s, strings, actions, i)
  }

  /** An insert misses once if it makes a branch where its key ends that is neither too short to be stored nor on disk. */
  ghost function StrayAt(s: Setting, actions: seq<Action>, i: nat): nat
    requires i < |actions|
  {
    var n := TrieAfter(actions[..i]);
    if !actions[i].Insert? || !EndsAtSplit(n, Unpack(actions[i].key)) then 0
    else
      var made := MadeBranch(n, Unpack(actions[i].key));
      if Hashed(s.hash, made) && !OnDiskAfter(s, actions, i, s.hash(EncodeNode(s.hash, made))) then 1 else 0
  }

  ghost function Strays(s: Setting, actions: seq<Action>, i: nat): nat
    requires i <= |actions|
  {
    if i == 0 then 0 else Strays(s, actions, i - 1) + StrayAt(s, actions, i - 1)
  }

  /** Runs that write no empty values may insert any keys. */
  lemma NonEmptyHarmless(s: Setting, strings: iset<Bytes>, actions: seq<Action>)
    requires NonEmptyValues(actions) && Clean(s.hash, strings, s.frame)
    requires forall i :: 0 <= i < |actions| && actions[i].Remove? ==>
      Removable(s.hash, strings, TrieAfter(actions[..i]), Unpack(actions[i].key))
    ensures AllHarmless(s, strings, actions)
  {
    hide TrieAfter, EndsAtSplit, Removable, Unpack, Visible, Clean;
    forall i | 0 <= i < |actions|
      ensures Harmless(s, strings, actions, i)
    {
      RunVisible(actions[..i]);
    }
  }

  lemma {:induction false} ContentsWritten(actions: seq<Action>, k: Bytes) returns (i: nat)
    requires k in Contents(actions)
    ensures i < |actions| && actions[i] == Insert(k, Contents(actions)[k])
  {
    i := |actions| - 1;
    if actions[i] != Insert(k, Contents(actions)[k]) {
      i := ContentsWritten(actions[..i], k);
    }
  }

  /** Runs that write no empty values, nor any that could be taken for a reference, may insert any keys and remove any that
    are there. */
  lemma PresentHarmless(s: Setting, strings: iset<Bytes>, actions: seq<Action>)
    requires NonEmptyValues(actions) && Clean(s.hash, strings, s.frame)
    requires forall i :: 0 <= i < |actions| && actions[i].Insert? ==> PassesAsReference(s.hash, strings, actions[i].value)
    requires forall i :: 0 <= i < |actions| && actions[i].Remove? ==> actions[i].key in Contents(actions[..i])
    ensures AllHarmless(s, strings, actions)
  {
    hide TrieAfter, EndsAtSplit, Removable, Unpack, Pack, Visible, Clean, PassesAsReference, Contents, Get;
    forall i | 0 <= i < |actions| && actions[i].Remove?
      ensures Removable(s.hash, strings, TrieAfter(actions[..i]), Unpack(actions[i].key))
    {
      var n, m, key := TrieAfter(actions[..i]), Contents(actions[..i]), actions[i].key;
      RunVisible(actions[..i]);
      RunKeeps(actions[..i]);
      PackUnpack(key);
      assert Get(n, Unpack(key)) == TrieHash.ByteEntry(m, Unpack(key)) == Some(m[key]);
      forall other | Get(n, other).Some?
        ensures PassesAsReference(s.hash, strings, Get(n, other).value)
      {
        var j := ContentsWritten(actions[..i], Pack(other));
        assert actions[j].Insert?;
      }
      PresentRemovable(s.hash, strings, n, Unpack(key));
    }
    NonEmptyHarmless(s, strings, actions);
  }

  /** Where no key is a proper prefix of another, everything may be done, and nothing misses. */
  lemma ApartHarmless(s: Setting, strings: iset<Bytes>, actions: seq<Action>)
    requires KeysApart(actions)
    ensures AllHarmless(s, strings, actions) && Strays(s, actions, |actions|) == 0
  {
    hide TrieAfter, EndsAtSplit, Removable, Unpack, Visible, Clean, Apart, PrefixFree, KeysApart, OnDiskAfter, EncodeNode, Hashed;
    forall i | 0 <= i < |actions|
      ensures Harmless(s, strings, actions, i) && StrayAt(s, actions, i) == 0
    {
      if HasKey(actions[i]) {
        StaysPrefixFree(actions, i);
        KeyApart(actions, i, i);
        NotAtSplit(TrieAfter(actions[..i]), Unpack(actions[i].key));
        PrefixFreeRemovable(s.hash, strings, TrieAfter(actions[..i]), Unpack(actions[i].key));
      }
    }
    NoneStray(s, actions, |actions|);
  }

  lemma {:induction false} NoneStray(s: Setting, actions: seq<Action>, i: nat)
    requires i <= |actions| && forall j :: 0 <= j < |actions| ==> StrayAt(s, actions, j) == 0
    ensures Strays(s, actions, i) == 0
  {
    hide StrayAt;
    if i > 0 {
      NoneStray(s, actions, i - 1);
    }
  }

  // ---------------------------------------------------------------- the run

  /** What every step keeps: the trie is the one after the actions, the counts are the references, on disk is what was live
    at a commit. */
  ghost predicate RunsOn(trie: TrieDB, s: Setting, actions: seq<Action>, i: nat)
    requires i <= |actions|
    reads trie, trie.db
  {
    && trie.hash == s.hash && trie.Valid() && trie.tree == TrieAfter(actions[..i])
    && trie.Serves(LiveAt(s, actions, i), true)
    && trie.db.disk.Some? == s.disk.Some?
    && forall h: Hash :: OnDisk(trie.db.disk, h) <==> OnDiskAfter(s, actions, i, h)
  }

  /** A new trie, and then any run of inserts, removes, commits and purges, with keys of any length. In the end the counts
    are exact, the root is that of the batch builder for the resulting map, and kills have missed as often as branches
    were made where a key ends. Other references to the store, in the frame, are served all along. */
  method RunAny(db: OverlayDB, hash: HashFn, actions: seq<Action>, ghost strings: iset<Bytes>, ghost frame: multiset<Hash>)
    returns (trie: TrieDB)
    requires CollisionFree(hash, strings) && [0x80] in strings
    requires NodeStore.Serves(hash, strings, db.main, db.disk, frame, true)
    requires RunCovered(hash, strings, actions) && AllHarmless(Setting(hash, frame, db.disk), strings, actions)
    modifies db
    ensures fresh(trie) && trie.db == db && trie.hash == hash && trie.strings == strings && trie.Valid()
    ensures trie.tree == TrieAfter(actions) && trie.Serves(frame + RootRefs(hash, trie.tree), true)
    ensures db.misses == old(db.misses) + Strays(Setting(hash, frame, old(db.disk)), actions, |actions|)
    ensures trie.root == TrieHash.Root256(hash, Contents(actions))
  {
    hide TrieAfter, CoveredAction, Contents, NodeStore.Serves, CollisionFree, RootRefs, EncodeNode, StrayAt, Harmless;
    ghost var s := Setting(hash, frame, db.disk);
    trie := new TrieDB(db, hash, strings, frame, true);
    StartsEmpty(actions);
    for i := 0 to |actions|
      invariant trie.db == db && trie.hash == hash && trie.strings == strings && fresh(trie)
      invariant RunsOn(trie, s, actions, i) && db.misses == old(db.misses) + Strays(s, actions, i)
    {
      assert Harmless(s, strings, actions, i);
      Do(trie, actions, i, s);
    }
    assert actions[..|actions|] == actions;
    RunKeeps(actions);
    TrieHash.TrieOfKeeps(trie.tree, Contents(actions));
  }

  /** The same with keys of which none is a proper prefix of another, where every removal is right and no kill misses. */
  method Run(db: OverlayDB, hash: HashFn, actions: seq<Action>, ghost strings: iset<Bytes>, ghost frame: multiset<Hash>)
    returns (trie: TrieDB)
    requires CollisionFree(hash, strings) && [0x80] in strings
    requires NodeStore.Serves(hash, strings, db.main, db.disk, frame, true)
    requires KeysApart(actions) && RunCovered(hash, strings, actions)
    modifies db
    ensures fresh(trie) && trie.db == db && trie.hash == hash && trie.strings == strings && trie.Valid()
    ensures trie.tree == TrieAfter(actions) && trie.Serves(frame + RootRefs(hash, trie.tree), true)
    ensures db.misses == old(db.misses)
    ensures trie.root == TrieHash.Root256(hash, Contents(actions))
  {
    ApartHarmless(Setting(hash, frame, db.disk), strings, actions);
    hide KeysApart, RunCovered, AllHarmless, Strays, TrieAfter, Contents, NodeStore.Serves;
    trie := RunAny(db, hash, actions, strings, frame);
  }

  lemma StartsEmpty(actions: seq<Action>)
    ensures TrieAfter(actions[..0]) == Null
  {
  }

  lemma CleanWith(hash: HashFn, strings: iset<Bytes>, frame: multiset<Hash>, n: Node)
    requires CollisionFree(hash, strings) && Clean(hash, strings, frame) && Visible(n)
    requires WellFormed(n) && Shape(n) && Sized(n) && AllIn(hash, strings, n)
    ensures Clean(hash, strings, frame + RootRefs(hash, n))
  {
    hide Lonely, RootRefs, EncodeNode;
    LiveRefsClean(hash, strings, n);
  }

  /** What a commit puts on disk. */
  lemma CommitStores(hash: HashFn, strings: iset<Bytes>, main: Memory, disk: Disk, live: multiset<Hash>, h: Hash)
    requires NodeStore.Serves(hash, strings, main, disk, live, true) && disk.Some?
    ensures OnDisk(Some(disk.value + Batch(main)), h) <==> OnDisk(disk, h) || h in live
  {
    assert !OnDisk(disk, h) ==> Count(main, h) == live[h];
  }

  lemma DiskGrows(s: Setting, actions: seq<Action>, i: nat, h: Hash)
    requires i < |actions|
    ensures OnDiskAfter(s, actions, i + 1, h) <==>
      OnDiskAfter(s, actions, i, h) || (s.disk.Some? && actions[i] == Commit && h in LiveAt(s, actions, i))
  {
    hide LiveAt;
  }

  method Do(trie: TrieDB, actions: seq<Action>, i: nat, ghost s: Setting)
    requires i < |actions| && RunCovered(trie.hash, trie.strings, actions) && Harmless(s, trie.strings, actions, i)
    requires RunsOn(trie, s, actions, i)
    modifies trie`root, trie`tree, trie.db
    ensures RunsOn(trie, s, actions, i + 1) && trie.db.misses == old(trie.db.misses) + StrayAt(s, actions, i)
  {
    hide TrieAfter, Get, Merged, Deleted, Unpack, RootRefs, Removable, CoversMerge, CoversDelete, NodeStore.Serves;
    hide EndsAtSplit, EncodeNode, OnDiskAfter, Clean, Visible, CollisionFree;
    ghost var n, live := trie.tree, s.frame + RootRefs(trie.hash, trie.tree);
    OneMore(actions, i);
    assert CoveredAction(trie.hash, trie.strings, TrieAfter(actions[..i]), actions[i]);
    forall h: Hash
      ensures OnDiskAfter(s, actions, i + 1, h) <==>
        OnDiskAfter(s, actions, i, h) || (s.disk.Some? && actions[i] == Commit && h in live)
    {
      DiskGrows(s, actions, i, h);
    }
    match actions[i]
    case Insert(k, v) =>
      if EndsAtSplit(n, Unpack(k)) {
        CleanWith(trie.hash, trie.strings, s.frame, n);
      }
      trie.Insert(k, v, s.frame, true);
    case Remove(k) =>
      trie.Remove(k, s.frame, true);
    case Commit =>
      if trie.db.disk.Some? {
        CommitServes(trie.hash, trie.strings, trie.db.main, trie.db.disk, live);
        forall h: Hash
          ensures OnDisk(Some(trie.db.disk.value + Batch(trie.db.main)), h) <==> OnDisk(trie.db.disk, h) || h in live
        {
          CommitStores(trie.hash, trie.strings, trie.db.main, trie.db.disk, live, h);
        }
      }
      trie.db.Commit();
    case Purge =>
      PurgeKeepsLive(trie.hash, trie.strings, trie.db.main, trie.db.disk, live);
      trie.db.Purge();
  }

  // ---------------------------------------------------------------- walking after a run

  /** The entries are in key order and are exactly those of the map. */
  ghost predicate Lists(entries: seq<TrieIteration.KeyValue>, m: map<Bytes, Bytes>) {
    && TrieIteration.Sorted(entries)
    && (forall e :: e in entries ==> TrieHash.ByteEntry(m, e.key) == Some(e.value))
    && forall k :: k in m ==> TrieIteration.KeyValue(Unpack(k), m[k]) in entries
  }

  /** After any run that writes no empty values, whatever the keys, a walk lists the map. */
  lemma RunWalk(actions: seq<Action>)
    requires NonEmptyValues(actions)
    ensures Lists(TrieIteration.Entries(TrieAfter(actions)), Contents(actions))
  {
    hide Get, Unpack, Pack, Visible, TrieIteration.Entries, TrieIteration.Sorted, TrieAfter, NonEmptyValues;
    var n, m := TrieAfter(actions), Contents(actions);
    RunKeeps(actions);
    RunVisible(actions);
    TrieIteration.EntriesSorted(n);
    forall e | e in TrieIteration.Entries(n)
      ensures TrieHash.ByteEntry(m, e.key) == Some(e.value)
    {
      TrieIteration.EntriesAreContents(n, e.key, e.value);
    }
    forall k | k in m
      ensures TrieIteration.KeyValue(Unpack(k), m[k]) in TrieIteration.Entries(n)
    {
      PackUnpack(k);
      TrieIteration.EntriesAreContents(n, Unpack(k), m[k]);
    }
  }

  /** The pairs are those of the map, with their keys in order. */
  ghost predicate IsMapInOrder(pairs: seq<TrieIteration.Pair>, m: map<Bytes, Bytes>) {
    && (forall i, j :: 0 <= i < j < |pairs| ==> Earlier(Unpack(pairs[i].key), Unpack(pairs[j].key)))
    && (forall i :: 0 <= i < |pairs| ==> pairs[i].key in m && m[pairs[i].key] == pairs[i].value)
    && forall k :: k in m ==> TrieIteration.Pair(k, m[k]) in pairs
  }

  lemma ListedInOrder(pairs: seq<TrieIteration.Pair>, entries: seq<TrieIteration.KeyValue>, m: map<Bytes, Bytes>)
    requires TrieIteration.InBytes(pairs, entries) && Lists(entries, m)
    ensures IsMapInOrder(pairs, m)
  {
    hide Unpack, Pack, Earlier;
    forall i | 0 <= i < |pairs|
      ensures pairs[i].key in m && m[pairs[i].key] == pairs[i].value
    {
      assert entries[i] in entries;
      PackUnpack(pairs[i].key);
    }
    forall k | k in m
      ensures TrieIteration.Pair(k, m[k]) in pairs
    {
      var i :| 0 <= i < |entries| && entries[i] == TrieIteration.KeyValue(Unpack(k), m[k]);
      PackUnpack(k);
      PackUnpack(pairs[i].key);
      assert pairs[i] == TrieIteration.Pair(k, m[k]);
    }
  }

  /** After any run that writes no empty values, the iterator goes through the map in key order. */
  method RunAndWalk(db: OverlayDB, hash: HashFn, actions: seq<Action>, ghost strings: iset<Bytes>, ghost frame: multiset<Hash>)
    returns (pairs: seq<TrieIteration.Pair>)
    requires CollisionFree(hash, strings) && [0x80] in strings
    requires NodeStore.Serves(hash, strings, db.main, db.disk, frame, true)
    requires RunCovered(hash, strings, actions) && AllHarmless(Setting(hash, frame, db.disk), strings, actions)
    requires NonEmptyValues(actions)
    modifies db
    ensures IsMapInOrder(pairs, Contents(actions))
  {
    hide RunCovered, AllHarmless, Strays, TrieAfter, Contents, NodeStore.Serves, RootRefs, TrieIteration.InBytes, NonEmptyValues;
    hide TrieIteration.Entries, TrieIteration.Sorted, Unpack;
    var trie := RunAny(db, hash, actions, strings, frame);
    RunWalk(actions);
    Inexact(hash, strings, db.main, db.disk, frame + RootRefs(hash, trie.tree));
    pairs := TrieIteration.Collect(trie, frame + RootRefs(hash, trie.tree));
    ListedInOrder(pairs, TrieIteration.Entries(trie.tree), Contents(actions));
  }

  // ---------------------------------------------------------------- keys that start other keys

  lemma TwoBytes()
    ensures Unpack([0x12]) == [1, 2] && Unpack([0x12, 0x34]) == [1, 2, 3, 4]
  {
    hide Unpack;
    var one, two: Bytes := [0x12], [0x12, 0x34];
    UnpackAt(one, 0);
    UnpackAt(one, 1);
    UnpackAt(two, 0);
    UnpackAt(two, 1);
    UnpackAt(two, 2);
    UnpackAt(two, 3);
  }

  lemma AfterFirst(first: Action, second: Action)
    requires first.Insert?
    ensures var actions := [first, second];
      TrieAfter(actions[..0]) == Null && TrieAfter(actions[..1]) == Leaf(Unpack(first.key), first.value)
  {
    hide TrieAfter, Unpack;
    StartsEmpty([first, second]);
    OneMore([first, second], 0);
  }

  /** A key that ends inside a stored one misses once: below the two nibbles they share a branch is made for the rest of the
    stored key, which is as long as its long value, and is given up without ever having been stored. */
  lemma StrayKill(hash: HashFn, frame: multiset<Hash>, v: Bytes, w: Bytes)
    requires |v| == 40
    ensures Strays(Setting(hash, frame, None), [Insert([0x12, 0x34], v), Insert([0x12], w)], 2) == 1
  {
    hide TrieAfter, Unpack, OnDiskAfter;
    var s, actions := Setting(hash, frame, None), [Insert([0x12, 0x34], v), Insert([0x12], w)];
    TwoBytes();
    AfterFirst(actions[0], actions[1]);
    SplitsInside(hash, v);
    NothingOnDisk(s, actions, 1, hash(EncodeNode(hash, Branched(Leaf([3, 4], v)))));
    assert Strays(s, actions, 0) == 0 && StrayAt(s, actions, 0) == 0;
    assert Strays(s, actions, 1) == 0 && StrayAt(s, actions, 1) == 1;
  }

  lemma NothingOnDisk(s: Setting, actions: seq<Action>, i: nat, h: Hash)
    requires s.disk == None && i <= |actions|
    ensures !OnDiskAfter(s, actions, i, h)
  {
  }

  lemma SplitsInside(hash: HashFn, v: Bytes)
    requires |v| == 40
    ensures !EndsAtSplit(Null, [1, 2, 3, 4])
    ensures EndsAtSplit(Leaf([1, 2, 3, 4], v), [1, 2])
    ensures MadeBranch(Leaf([1, 2, 3, 4], v), [1, 2]) == Branched(Leaf([3, 4], v))
    ensures Hashed(hash, Branched(Leaf([3, 4], v)))
  {
    hide Branched, EncodeNode;
    var n, tail := Leaf([1, 2, 3, 4], v), Leaf([3, 4], v);
    SharedAt([1, 2], [1, 2, 3, 4], 2);
    assert [1, 2][2..] == [] && [1, 2, 3, 4][2..] == [3, 4];
    assert Tail(n, 2) == tail;
    SharedAt([], [3, 4], 0);
    assert EndsAtSplit(tail, []);
    LongBranch(hash, v);
  }

  lemma LongBranch(hash: HashFn, v: Bytes)
    requires |v| == 40
    ensures Hashed(hash, Branched(Leaf([3, 4], v)))
  {
    hide Rlp.Encode, HexPrefix;
    var below, n := Leaf([4], v), Branched(Leaf([3, 4], v));
    assert n.children[3] == below;
    Rlp.PartOfList(NodeItem(hash, below).items, 1);
    RefKind(hash, below);
    assert NodeItem(hash, n).items[3] == Ref(hash, below);
    Rlp.PartOfList(NodeItem(hash, n).items, 3);
  }

  /** Removing a key that goes on behind the key of a leaf is not the no-op it should be: deleteAt follows the leaf as if it
    were an extension, and its value is no reference. */
  lemma LeafFollowed(hash: HashFn, strings: iset<Bytes>, v: Bytes)
    requires |v| > 32
    ensures var n, k := TrieAfter([Insert([0x12], v)]), Unpack([0x12, 0x34]);
      var item := NodeItem(hash, n);
      && Get(n, k) == None && !Removable(hash, strings, n, k)
      && item.List? && |item.items| == 2 && item.items[0].Data?
      && KeyOf(item.items[0].bytes) < k && ToHash(item.items[1]) == None
  {
    hide TrieAfter, Unpack, KeyOf, HexPrefix, Removable, Get;
    var actions := [Insert([0x12], v), Purge];
    TwoBytes();
    AfterFirst(actions[0], actions[1]);
    assert actions[..1] == [Insert([0x12], v)];
    HexPrefixRoundTrip([1, 2], true);
    LeafNotRemovable(hash, strings, [1, 2], [1, 2, 3, 4], v);
  }

  lemma LeafNotRemovable(hash: HashFn, strings: iset<Bytes>, key: Nibbles, k: Nibbles, v: Bytes)
    requires key < k
    ensures !Removable(hash, strings, Leaf(key, v), k) && Get(Leaf(key, v), k) == None
  {
  }

  /** Removing the only longer key from a branch that holds a value is not what it should be either: the value is the entry
    that is left, and it is looked up as if it were a reference, which fails for a long one. */
  lemma ValueFollowed(hash: HashFn, strings: iset<Bytes>, v: Bytes, w: Bytes)
    requires |v| > 32
    ensures var n, k := TrieAfter([Insert([0x12], v), Insert([0x12, 0x34], w)]), Unpack([0x12, 0x34]);
      && n == Extension([1, 2], Branch(NoChildren()[3 := Leaf([4], w)], Some(v)))
      && Get(n, k) == Some(w) && !Removable(hash, strings, n, k)
      && OnlyUsed(NoChildren(), Some(v), 16)
      && NodeItem(hash, Branch(NoChildren(), Some(v))).List?
      && ToHash(NodeItem(hash, Branch(NoChildren(), Some(v))).items[16]) == None
  {
    hide TrieAfter, Unpack, NoChildren, Removable, Get, Merged, OnlyUsed, NodeItem, ToHash;
    var actions := [Insert([0x12], v), Insert([0x12, 0x34], w)];
    ValueItem(hash, v);
    TwoBytes();
    AfterFirst(actions[0], actions[1]);
    OneMore(actions, 1);
    assert actions[..2] == actions;
    GoesOnBehind(v, w);
    BranchNotRemovable(hash, strings, v, w);
  }

  lemma ValueItem(hash: HashFn, v: Bytes)
    requires |v| > 32
    ensures var item := NodeItem(hash, Branch(NoChildren(), Some(v)));
      item.List? && |item.items| == 17 && ToHash(item.items[16]) == None
  {
    hide NoChildren, Ref;
  }

  lemma GoesOnBehind(v: Bytes, w: Bytes)
    ensures Merged(Leaf([1, 2], v), [1, 2, 3, 4], w) == Extension([1, 2], Branch(NoChildren()[3 := Leaf([4], w)], Some(v)))
  {
    hide NoChildren;
    var k := [1, 2, 3, 4];
    SharedAt(k, [1, 2], 2);
    assert k[2..] == [3, 4] && [1, 2][2..] == [];
    assert Tail(Leaf([1, 2], v), 2) == Leaf([], v);
    SharedAt([3, 4], [], 0);
    assert [3, 4][1..] == [4];
    assert Merged(Leaf([], v), [3, 4], w) == Merged(Branch(NoChildren(), Some(v)), [3, 4], w);
    assert Merged(Null, [4], w) == Leaf([4], w);
  }

  lemma BranchNotRemovable(hash: HashFn, strings: iset<Bytes>, v: Bytes, w: Bytes)
    requires |v| > 32
    ensures var n, k := Extension([1, 2], Branch(NoChildren()[3 := Leaf([4], w)], Some(v))), [1, 2, 3, 4];
      Shape(n) && Get(n, k) == Some(w) && !Removable(hash, strings, n, k)
    ensures OnlyUsed(NoChildren(), Some(v), 16)
  {
    var children := NoChildren()[3 := Leaf([4], w)];
    var k := [1, 2, 3, 4];
    assert k[2..] == [3, 4] && [3, 4][1..] == [4];
    var branch := Branch(children, Some(v));
    assert Get(children[3], [4]) == Some(w) && Get(branch, [3, 4]) == Some(w);
    assert Get(Extension([1, 2], branch), k) == Get(branch, k[2..]);
    assert Deleted(children[3], [4]) == Null && children[3 := Null] == NoChildren();
    assert OnlyUsed(NoChildren(), Some(v), 16);
    assert !Removable(hash, strings, branch, [3, 4]);
  }
}
