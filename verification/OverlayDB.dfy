/** The reference-counted node store over a disk database (libdevcore/StateCacheDB.cpp, OverlayDB.cpp).

  Without a disk the object is a StateCacheDB. `Tally` says what the counts mean: for every hash that is not on
  disk the count in memory is its number of live references. On disk nothing is ever deleted, so the counts of
  hashes that are there do not matter. */
module NodeStore {
  import opened Bytes

  datatype Entry = Entry(value: Bytes, count: nat)

  type Memory = map<Hash, Entry>
  type Disk = Option<map<Hash, Bytes>>

  function Count(main: Memory, h: Hash): nat {
    if h in main then main[h].count else 0
  }

  predicate OnDisk(disk: Disk, h: Hash) {
    disk.Some? && h in disk.value
  }

  predicate Present(main: Memory, disk: Disk, h: Hash) {
    h in main || OnDisk(disk, h)
  }

  /** OverlayDB::lookup: memory first, whatever the count, then disk. */
  function Lookup(main: Memory, disk: Disk, h: Hash): Bytes {
    if h in main && main[h].value != [] then main[h].value
    else if OnDisk(disk, h) then disk.value[h]
    else []
  }

  function Inserted(main: Memory, h: Hash, v: Bytes): Memory {
    main[h := Entry(v, Count(main, h) + 1)]
  }

  function Killed(main: Memory, h: Hash): Memory {
    if Count(main, h) > 0 then main[h := Entry(main[h].value, main[h].count - 1)] else main
  }

  function Purged(main: Memory): Memory {
    map h | h in main && main[h].count > 0 :: main[h]
  }

  function Batch(main: Memory): map<Hash, Bytes> {
    map h | h in main && main[h].count > 0 :: main[h].value
  }

  // ---------------------------------------------------------------- what a store holds

  /** Every string is filed under its hash, and is one of the strings considered. */
  ghost predicate Sound(hash: HashFn, strings: iset<Bytes>, main: Memory, disk: Disk) {
    && (forall h :: h in main ==> main[h].value in strings && main[h].value != [] && hash(main[h].value) == h)
    && (disk.Some? ==> forall h :: h in disk.value ==>
          disk.value[h] in strings && disk.value[h] != [] && hash(disk.value[h]) == h)
  }

  ghost predicate Covered(main: Memory, disk: Disk, live: multiset<Hash>) {
    forall h: Hash :: h in live ==> Present(main, disk, h)
  }

  /** The counts are the live references. */
  ghost predicate Tally(main: Memory, disk: Disk, live: multiset<Hash>) {
    forall h: Hash :: !OnDisk(disk, h) ==> Count(main, h) == live[h]
  }

  /** The store serves the live references; if `exact`, its counts are right as well. */
  ghost predicate Serves(hash: HashFn, strings: iset<Bytes>, main: Memory, disk: Disk, live: multiset<Hash>, exact: bool) {
    && Sound(hash, strings, main, disk)
    && Covered(main, disk, live)
    && (exact ==> Tally(main, disk, live))
  }

  /** A live string is found under its hash, as long as no two of the strings collide. */
  lemma LookupFinds(hash: HashFn, strings: iset<Bytes>, main: Memory, disk: Disk, live: multiset<Hash>, s: Bytes)
    requires CollisionFree(hash, strings) && s in strings
    requires Serves(hash, strings, main, disk, live, false) && hash(s) in live
    ensures Lookup(main, disk, hash(s)) == s
  {
    assert Present(main, disk, hash(s));
  }

  lemma InsertServes(hash: HashFn, strings: iset<Bytes>, main: Memory, disk: Disk, live: multiset<Hash>, exact: bool, v: Bytes)
    requires Serves(hash, strings, main, disk, live, exact) && v in strings && v != []
    ensures Serves(hash, strings, Inserted(main, hash(v), v), disk, live + multiset{hash(v)}, exact)
  {
  }

  /** Dropping a live reference never finds a zero count, unless the hash is on disk. */
  lemma KillServes(hash: HashFn, strings: iset<Bytes>, main: Memory, disk: Disk, live: multiset<Hash>, exact: bool, h: Hash)
    requires Serves(hash, strings, main, disk, live, exact) && h in live
    ensures Serves(hash, strings, Killed(main, h), disk, live - multiset{h}, exact)
    ensures exact ==> Count(main, h) > 0 || OnDisk(disk, h)
  {
    assert exact && !OnDisk(disk, h) ==> Count(main, h) == live[h];
  }

  /** A kill of a hash that has no live reference changes nothing that counts. */
  lemma KillElsewhere(hash: HashFn, strings: iset<Bytes>, main: Memory, disk: Disk, live: multiset<Hash>, exact: bool, h: Hash)
    requires Serves(hash, strings, main, disk, live, exact) && (exact ==> h !in live)
    ensures Serves(hash, strings, Killed(main, h), disk, live, exact)
  {
    assert exact && !OnDisk(disk, h) ==> Count(main, h) == live[h];
  }

  /** Without a disk, purge keeps exactly the live nodes. */
  lemma PurgeKeepsLive(hash: HashFn, strings: iset<Bytes>, main: Memory, disk: Disk, live: multiset<Hash>)
    requires Serves(hash, strings, main, disk, live, true)
    ensures Serves(hash, strings, Purged(main), disk, live, true)
    ensures disk.None? ==> forall h: Hash :: h in Purged(main) <==> h in live
  {
    forall h: Hash | h in live
      ensures Present(Purged(main), disk, h)
    {
      assert !OnDisk(disk, h) ==> Count(main, h) == live[h];
    }
    forall h: Hash | !OnDisk(disk, h)
      ensures Count(Purged(main), h) == live[h] && (h in Purged(main) <==> h in live)
    {
      assert Count(main, h) == live[h];
    }
  }

  /** commit never loses a live node: what was counted is on disk afterwards, and what was not is not live. */
  lemma CommitServes(hash: HashFn, strings: iset<Bytes>, main: Memory, disk: Disk, live: multiset<Hash>)
    requires Serves(hash, strings, main, disk, live, true) && disk.Some?
    ensures Serves(hash, strings, map[], Some(disk.value + Batch(main)), live, true)
  {
    var disk' := Some(disk.value + Batch(main));
    forall h: Hash | h in live
      ensures Present(map[], disk', h)
    {
      assert !OnDisk(disk, h) ==> Count(main, h) == live[h];
    }
    forall h: Hash | !OnDisk(disk', h)
      ensures Count(map[], h) == live[h]
    {
      assert !OnDisk(disk, h) && Count(main, h) == live[h];
    }
  }

  // ---------------------------------------------------------------- whole runs

  datatype Store = Store(main: Memory, disk: Disk)

  datatype Action = Insertion(value: Bytes) | Killing(h: Hash) | Purging | Committing

  /** What an action makes of the store; see the contracts of the methods below. */
  function Act(hash: HashFn, st: Store, action: Action): Store {
    match action
    case Insertion(v) => st.(main := Inserted(st.main, hash(v), v))
    case Killing(h) => st.(main := Killed(st.main, h))
    case Purging => st.(main := Purged(st.main))
    case Committing => if st.disk.None? then st else Store(map[], Some(st.disk.value + Batch(st.main)))
  }

  ghost function LiveAfter(hash: HashFn, live: multiset<Hash>, action: Action): multiset<Hash> {
    match action
    case Insertion(v) => live + multiset{hash(v)}
    case Killing(h) => live - multiset{h}
    case _ => live
  }

  function RunStore(hash: HashFn, st: Store, actions: seq<Action>): Store {
    if actions == [] then st
    else Act(hash, RunStore(hash, st, actions[..|actions| - 1]), actions[|actions| - 1])
  }

  ghost function RunLive(hash: HashFn, live: multiset<Hash>, actions: seq<Action>): multiset<Hash> {
    if actions == [] then live
    else LiveAfter(hash, RunLive(hash, live, actions[..|actions| - 1]), actions[|actions| - 1])
  }

  /** References are only given up where there are any. */
  ghost predicate LegalRun(hash: HashFn, strings: iset<Bytes>, live: multiset<Hash>, actions: seq<Action>) {
    actions == [] ||
    var last := |actions| - 1;
    && LegalRun(hash, strings, live, actions[..last])
    && (actions[last].Insertion? ==> actions[last].value in strings && actions[last].value != [])
    && (actions[last].Killing? ==> actions[last].h in RunLive(hash, live, actions[..last]))
  }

  /** Through any interleaving of inserts, kills, purges and commits, the counts stay the live references, every live
    string is found, and a kill misses neither the count nor the disk. */
  lemma {:induction false} RunServes(hash: HashFn, strings: iset<Bytes>, st: Store, live: multiset<Hash>, actions: seq<Action>)
    requires CollisionFree(hash, strings) && Serves(hash, strings, st.main, st.disk, live, true)
    requires LegalRun(hash, strings, live, actions)
    ensures var after, now := RunStore(hash, st, actions), RunLive(hash, live, actions);
      && Serves(hash, strings, after.main, after.disk, now, true)
      && (forall s :: s in strings && hash(s) in now ==> Lookup(after.main, after.disk, hash(s)) == s)
    ensures actions != [] && actions[|actions| - 1].Killing? ==>
      var before, h := RunStore(hash, st, actions[..|actions| - 1]), actions[|actions| - 1].h;
      Count(before.main, h) > 0 || OnDisk(before.disk, h)
  {
    hide Serves, Inserted, Killed, Purged, Batch, Lookup, CollisionFree;
    if actions != [] {
      var front, action := actions[..|actions| - 1], actions[|actions| - 1];
      var before, was := RunStore(hash, st, front), RunLive(hash, live, front);
      RunServes(hash, strings, st, live, front);
      match action
      case Insertion(v) => InsertServes(hash, strings, before.main, before.disk, was, true, v);
      case Killing(h) => KillServes(hash, strings, before.main, before.disk, was, true, h);
      case Purging => PurgeKeepsLive(hash, strings, before.main, before.disk, was);
      case Committing =>
        if before.disk.Some? {
          CommitServes(hash, strings, before.main, before.disk, was);
        }
    }
    var after, now := RunStore(hash, st, actions), RunLive(hash, live, actions);
    Inexact(hash, strings, after.main, after.disk, now);
    forall s | s in strings && hash(s) in now
      ensures Lookup(after.main, after.disk, hash(s)) == s
    {
      LookupFinds(hash, strings, after.main, after.disk, now, s);
    }
  }

  lemma Inexact(hash: HashFn, strings: iset<Bytes>, main: Memory, disk: Disk, live: multiset<Hash>)
    requires Serves(hash, strings, main, disk, live, true)
    ensures Serves(hash, strings, main, disk, live, false)
  {
  }

  // ---------------------------------------------------------------- the class

  class OverlayDB {
    var main: Memory
    var disk: Disk
    /** How often kill found neither a count to lower nor the node on disk; the source logs these. */
    ghost var misses: nat

    constructor (disk: Disk)
      ensures main == map[] && this.disk == disk && misses == 0
    {
      main, this.disk, misses := map[], disk, 0;
    }

    method Insert(h: Hash, v: Bytes)
      modifies this`main
      ensures main == Inserted(old(main), h, v)
    {
      if h in main {
        main := main[h := Entry(v, main[h].count)];
        main := main[h := Entry(main[h].value, main[h].count + 1)];
      } else {
        main := main[h := Entry(v, 1)];
      }
    }

    method Kill(h: Hash)
      modifies this`main, this`misses
      ensures main == Killed(old(main), h)
      ensures misses == old(misses) + if Count(old(main), h) == 0 && !OnDisk(disk, h) then 1 else 0
    {
      var killed := false;
      if h in main {
        if main[h].count > 0 {
          main := main[h := Entry(main[h].value, main[h].count - 1)];
          killed := true;
        }
      }
      if !killed && !OnDisk(disk, h) {
        misses := misses + 1;
      }
    }

    function Find(h: Hash): Bytes
      reads this`main, this`disk
    {
      Lookup(main, disk, h)
    }

    /** Drops every entry without references. */
    method Purge()
      modifies this`main
      ensures main == Purged(old(main))
    {
      var todo := main.Keys;
      while todo != {}
        invariant todo <= main.Keys <= old(main).Keys
        invariant forall h :: h in main ==> main[h] == old(main)[h]
        invariant forall h :: h in old(main) && h !in todo ==> (h in main <==> old(main)[h].count > 0)
        decreases todo
      {
        var h :| h in todo;
        todo := todo - {h};
        if main[h].count == 0 {
          main := main - {h};
        }
      }
    }

    /** Writes every referenced node to disk in one batch and forgets the memory. Without a disk nothing happens. */
    method Commit()
      modifies this`main, this`disk
      ensures old(disk).None? ==> main == old(main) && disk == old(disk)
      ensures old(disk).Some? ==> main == map[] && disk == Some(old(disk).value + Batch(old(main)))
    {
      if disk.Some? {
        var batch: map<Hash, Bytes> := map[];
        var todo := main.Keys;
        while todo != {}
          invariant todo <= main.Keys
          invariant batch.Keys <= main.Keys
          invariant forall h :: h in main && h !in todo ==> (h in batch <==> main[h].count > 0)
          invariant forall h :: h in batch ==> h !in todo && main[h].count > 0 && batch[h] == main[h].value
          decreases todo
        {
          var h :| h in todo;
          todo := todo - {h};
          if main[h].count > 0 {
            batch := batch[h := main[h].value];
          }
        }
        assert batch == Batch(main);
        disk := Some(disk.value + batch);
        main := map[];
      }
    }
  }
}
