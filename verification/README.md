# Aleth: trie, RLP, interpreter and block building, modelled and proved

This project models five parts of the Aleth Ethereum client in Dafny and proves what they are for. `dafny verify
dfyconfig.toml` checks all of it.

**RLP** (`Bytes`, `Rlp`, `RlpStream`, `RlpView`). `Rlp` has the recursive encoder and the strict decoder; the accepted
encoding of an item is unique and prefix-free. `RlpStream` is the writer that begins lists with an item count and shifts
their headers in when the last item arrives; well-nested calls write what the recursive encoder writes. `RlpView` is
reading with the index cache and the iterator.

**The Merkle Patricia trie over a reference-counted store** (`TrieCommon`, `TrieNode`, `TrieEncoding`, `OverlayDB`,
`TrieDB`, `TrieHash`, `TrieHistory`, `TrieRun`, `TrieIterator`). `TrieNode` says what a node stands for and that a
canonical node is determined by its contents. `TrieDB` is the class that splits, merges and grafts nodes while it kills
and inserts them in the store of `OverlayDB`; its methods are proved against `TrieNode`, byte for byte and count for
count: with `exact` set, the count of every hash that is not on disk is the number of places that refer to it. A `frame`
of references held by others is carried through every contract. `TrieHash` is the batch builder, written over the
streaming encoder; `TrieHistory` shows that the trie depends on the contents alone. `TrieRun` is about whole runs of the
classes: inserts, removes, commits and purges from a new trie on, with keys of any length, after which the counts are
exact, the number of missed kills is known, and the root is the one the batch builder gives for the resulting map
(`TrieRuns.RunAny`). `TrieIterator` walks a trie in key order with a trail of nodes, from the beginning or from a key.

**The interpreter** (`VmCode`, `VmOptimize`, `Vm`, `VmGas`, `VmWords`). `VmCode` gives the instructions that depend on
the code; all others are a parameter. `VmOptimize` proves that the code rewritten with PUSHC, JUMPC and JUMPCI does the
same steps, and exactly when; `Vm` is the object that rewrites and runs. `VmGas` has the costs in unbounded numbers and
the accounting in 64-bit words, which agrees with them. `VmWords` is exponentiation and signed arithmetic.

**Block building and checking** (`SealEngine`, `Header`, `Uncles`, `Block`). Headers made from their parents pass
`verify`, along whole chains. The uncles a proposer selects are let in by a validator over any block tree. The block
object is a state machine between executing, committing and sealing, whose roots are those of `TrieHash`; what it seals
is imported from its bytes, with every check of header, roots, uncles and run, if and only if its header may stand
(`ImportSealed`).

**RangeMask** (`RangeMask`). Interval sets agree with sets of numbers.

## How to read the contracts

- The hash function is a parameter. Nothing is assumed of it beyond its 32 bytes; where a statement needs that strings do
  not collide, it says so about a given set `strings`, and `CoversMerge` and `CoversDelete` list the strings an operation
  makes.
- Ghost parameters tell a method what its bytes stand for (`n`, `live`, `frame`, `front`, `below`); they decide nothing.
- A C++ exception is `None`, an error value or a `false` result. `Astray` in `VmCode` is a read outside the code, the pool
  or the stack, which the interpreter does not check for and which is proved not to happen.
- What definitions mean is written out in numbers, without naming them, by the lemmas whose names end in `Exactly`, `Exact`,
  `InNumbers`, `InFull`, `InBytes`, `Layout` or `Goes`.
- `SIZE` bounds (`MAX_SIZE`, `LENGTH_LIMIT`, `SIZE_LIMIT`) keep lengths within the fields that hold them.

## Where the code and what is said of it differ

- Removal is safe on more than keys of one length: wherever no key is a proper prefix of another (`PrefixFreeRemovable`),
  and with any keys for a key that is there, if no value leads to a node when taken for a reference
  (`PresentRemovable`). Outside that, `deleteAt` descends from a leaf whose key is a proper prefix (`LeafFollowed`), reads
  past a key that stops at a branch without a value, and takes the last value of a branch for a reference
  (`ValueFollowed`).
- `place` may give up a branch that was never stored, when the key is a proper prefix of a stored one
  (`SplitKeyIsPrefix`). This hits nothing live in a trie of non-empty values (`LiveRefsClean`), so counts are exact
  through runs of inserts with any keys (`RunAny` with `NonEmptyHarmless`); it costs one missed kill unless the branch is
  short or on disk (`StrayKill`).
- The pool offset has 16 bits: with more than 65536 long pushes a constant may be read back wrong. `RunsAgreeExactly` says
  which runs are the same all the same, `TooManyConstants` is a program that goes wrong from the start.
- `RangeMask::lowest` adds a beginning and a number of elements in 32 bits. If that wraps around, what it returns is no
  legal mask; `Lowest` says exactly when, `LowestWraps` is such a call.
- `RangeMask::operator-=` is documented as set difference; when the other ground range reaches further, it also puts in
  what was outside (`DifferenceGrows`), and a mask subtracted from itself stays what it was. `Subtract` gives the exact
  condition.
- `RangeMask::next` starts over from the smallest element after the largest unsigned number (`NextStartsOver`).
- The gas limit window of `verify` is empty when the parent's limit is below the bound divisor (`GasLimitAgrees`).
- Children of the genesis block are never selected as uncles, though a validator would let them in. `SelectUncles` shows
  that these are all that is left out when fewer than two are selected, `BrotherMissed` is a tree where one is.

## Model

| member | source | states |
|---|---|---|
| `Bytes.BigEndianRoundTrip` | libdevcore/CommonData.h:120-145 | reading back the digits a number was written with gives the number, and the first digit written is never zero |
| `Bytes.BigEndianCanonical` | libdevcore/CommonData.h:134-145 | bytes without a leading zero are exactly the digits of the number they are read as |
| `Bytes.BytesRequired` | libdevcore/CommonData.h:209-221 | the counting loop gives the number of digits of the shortest form |
| `Rlp.DecodeEncode` | libdevcore/RLP.cpp:106-226 | decoding the encoding of any item tree that fits 64-bit lengths gives the tree back |
| `Rlp.DecodeEncodeExactly` | libdevcore/RLP.cpp:157-213 | an item survives encoding and decoding if and only if all its payloads fit the length fields |
| `Rlp.EncodeDecode` | libdevcore/RLP.cpp:36-53 | whatever byte string the strict decoder accepts, down to every nested item, is the encoding of what it decodes to, so no item has a second accepted form |
| `Rlp.PrefixFree` | libdevcore/RLP.cpp:36-53 | no accepted string is a proper prefix of another |
| `Rlp.EncodeInjective` | libdevcore/RLP.cpp:294-347 | different items have different encodings |
| `Rlp.DataLayout` | libdevcore/RLP.cpp:294-313 | which bytes a string becomes: up to 0x7f itself, up to 55 bytes behind 0x80 and the length, more behind 0xb7 and the digits of the length |
| `Rlp.ListLayout` | libdevcore/RLP.cpp:274-292 | the same for a list, from 0xc0 and 0xf7 on |
| `Rlp.SplitEncodeAll` | libdevcore/RLP.cpp:215-226 | a list's payload is cut into exactly the encodings of its children |
| `Rlp.ViewOfEncoding` | libdevcore/RLP.h:308-337 | kind, emptiness and payload read off an encoding are those of the item |
| `RlpView.View.At` | libdevcore/RLP.cpp:83-104 | operator[] with its cache: item i is the i-th child, or null past the end, whatever was read before |
| `RlpView.ItemCount` | libdevcore/RLP.cpp:215-226 | items() counts the children |
| `RlpView.Iterator.Next` | libdevcore/RLP.cpp:55-66 | the iterator goes from child to child |
| `RlpView.Iterator.EndIsPastLast` | libdevcore/RLP.cpp:68-81 | the iterator equals end() exactly after the last child |
| `RlpView.CutsOfEncoding` | libdevcore/RLP.cpp:55-104 | on an encoded list the children read are the encodings of the items |
| `RlpStream.Stream.NoteAppended` | libdevcore/RLP.cpp:235-272 | closes every list the item completes and shifts its header in, or fails, as the specification of one note says |
| `RlpStream.Stream.ShiftHeaderIn` | libdevcore/RLP.cpp:246-266 | the header of the innermost list is put in front of its payload and the rest moves back |
| `RlpStream.Stream.Append` | libdevcore/RLP.cpp:294-313 | a string is written with its header and noted |
| `RlpStream.Stream.AppendInt` | libdevcore/RLP.cpp:315-338 | an integer is written as its shortest digits |
| `RlpStream.Stream.AppendRaw` | libdevcore/RLP.cpp:228-233 | raw bytes are written and announced as so many items |
| `RlpStream.Stream.AppendList` | libdevcore/RLP.cpp:274-282 | a list is begun, or an empty one written |
| `RlpStream.Stream.AppendListPayload` | libdevcore/RLP.cpp:284-292 | a list with a ready payload is written with its header |
| `RlpStream.Stream.PushInt` | libdevcore/RLP.h:430-449 | the digits of a length are put behind what was written |
| `RlpStream.EncodeInt` | libdevcore/RLP.cpp:315-338 | what the stream writes for an integer is the encoding of its shortest digits |
| `RlpStream.ScriptWritesItems` | libdevcore/RLP.cpp:228-292 | inside any lists still open, a well-nested series of calls has the effect of writing the recursive encodings of its items at once |
| `RlpStream.StreamingRefinesEncode` | libdevcore/RLP.cpp:228-347 | well-nested calls for one item leave exactly its recursive encoding and no open list |
| `TrieCommon.HexPrefixRoundTrip` | libdevcore/TrieCommon.h:97-112 | key and leaf flag are read back from the hex-prefix form |
| `TrieCommon.HexPrefixCanonical` | libdevcore/TrieCommon.cpp:46-61 | a string whose flag bits are legal is the hex-prefix form of what is read from it |
| `TrieCommon.HexPrefixLayout` | libdevcore/TrieCommon.cpp:46-61 | which bytes a key becomes: two for a leaf and one for an odd length in the first nibble, then the nibbles, high half first |
| `TrieCommon.Halves` | libdevcore/CommonData.cpp:111-121 | every byte is two nibbles, the high one first |
| `TrieCommon.EncodeVector` | libdevcore/TrieCommon.cpp:46-61 | the encoder over nibble vectors writes the hex-prefix form of the range |
| `TrieCommon.EncodeBytes` | libdevcore/TrieCommon.cpp:63-82 | the encoder over bytes with an offset writes the same form |
| `TrieCommon.EncodeJoined` | libdevcore/TrieCommon.cpp:84-114 | the encoder over two slices writes the form of the joined key |
| `TrieCommon.SharedNibbles` | libdevcore/TrieCommon.h:38-48 | the loop counts the longest common prefix of two slices |
| `TrieCommon.Contains` | libdevcore/TrieCommon.h:65-68 | true exactly when the other slice is a prefix |
| `TrieCommon.IsEarlierThan` | libdevcore/TrieCommon.h:69-85 | true exactly when the slice comes before the other in key order |
| `TrieNode.GetMerged` | libdevcore/TrieDB.h:833-922 | after an insert the key has its value and every other key what it had, for keys of any length |
| `TrieNode.MergedWellFormed` | libdevcore/TrieDB.h:833-902 | an insert keeps the canonical form: no empty or chained extensions, no branch with fewer than two entries in use |
| `TrieNode.GetDeleted` | libdevcore/TrieDB.h:947-1066 | after a removal exactly that key is gone |
| `TrieNode.DeletedWellFormed` | libdevcore/TrieDB.h:947-1048 | a removal keeps the canonical form, collapsing and grafting where it has to |
| `TrieNode.CollapseWellFormed` | libdevcore/TrieDB.h:1013-1048 | a branch left with one entry becomes the canonical node for it |
| `TrieNode.Differ` | libdevcore/TrieDB.h:777-1195 | two different canonical tries differ in the value of some key, which is given |
| `TrieNode.Unique` | libdevcore/TrieDB.h:777-1195 | tries in canonical form are equal exactly when they hold the same entries |
| `TrieEncoding.DecodeNode` | libdevcore/TrieDB.h:833-836 | a stored node decodes to its item |
| `TrieEncoding.NodeInItems` | libdevcore/TrieDB.h:1167-1195 | what the list of a node holds, item by item |
| `TrieEncoding.ItemKind` | libdevcore/TrieCommon.h:97-117 | empty, leaf, extension and branch are told apart by the item alone, and key and flag read from it are the node's |
| `TrieEncoding.RefKind` | libdevcore/TrieDB.h:1103-1110 | a reference is empty, the node itself, or its hash, the latter exactly for nodes that are stored |
| `TrieEncoding.RefBySize` | libdevcore/TrieDB.h:1103-1110 | a node of up to 31 bytes is put into its parent and one of 32 or more is referred to by hash, so that a reference takes up to 31 bytes or exactly 33 |
| `TrieEncoding.LeafAtTheEdge` | libdevcore/TrieDB.h:1103-1110 | with a one-nibble key a leaf of 28 bytes of value is put into its parent and one of 29 is not |
| `TrieEncoding.SplitRefs` | libdevcore/TrieDB.h:298-299 | replacing one child changes the references of a branch by exactly the references of the two children |
| `TrieEncoding.MergedAllIn` | libdevcore/TrieDB.h:833-922 | every node of the trie after an insert is among the strings considered |
| `NodeStore.OverlayDB.Insert` | libdevcore/StateCacheDB.cpp:79-95 | the value is kept under its hash and its count goes up by one |
| `NodeStore.OverlayDB.Kill` | libdevcore/StateCacheDB.cpp:97-124 | a positive count goes down by one, anything else changes nothing; kills that miss are counted |
| `NodeStore.OverlayDB.Purge` | libdevcore/StateCacheDB.cpp:153-171 | the loop drops exactly the entries with no count |
| `NodeStore.OverlayDB.Commit` | libdevcore/OverlayDB.cpp:48-100 | what has a count goes to disk over what was there, and memory is emptied |
| `NodeStore.LookupFinds` | libdevcore/OverlayDB.cpp:125-139 | every live string is found under its hash |
| `NodeStore.InsertServes` | libdevcore/StateCacheDB.cpp:79-95 | an insert adds one live reference and keeps the counts equal to the live references |
| `NodeStore.KillServes` | libdevcore/StateCacheDB.cpp:97-124 | a kill takes one live reference away and keeps the counts equal |
| `NodeStore.PurgeKeepsLive` | libdevcore/StateCacheDB.cpp:153-171 | with exact counts a purge keeps exactly the live nodes |
| `NodeStore.RunServes` | libdevcore/OverlayDB.cpp:48-163 | for every user of the store that gives up only references it has, through any interleaving of inserts, kills, purges and commits, the counts stay the live references, every live string is found, and no kill misses |
| `NodeStore.CommitServes` | libdevcore/OverlayDB.cpp:48-100 | with exact counts every live node still resolves to the same bytes after a commit, and the counts are exact again |
| `Trie.TrieDB.constructor` | libdevcore/TrieDB.h:62-68 | a new trie stands for no entries, and its root is stored |
| `Trie.TrieDB.ReadNode` | libdevcore/TrieDB.h:942-945 | the node under a live hash is read from the store |
| `Trie.TrieDB.StreamNode` | libdevcore/TrieDB.h:1103-1110 | up to 31 bytes go into the parent and leave the store alone, 32 or more go into the store, which then holds one reference more |
| `Trie.TrieDB.KillNode` | libdevcore/TrieDB.h:298-299 | a node of 32 bytes or more loses one reference, for one of up to 31 the store is left alone |
| `Trie.TrieDB.Place` | libdevcore/TrieDB.h:1068-1083 | the value is put where the key ends and the old node is given up; a node that was never stored costs one miss if it is neither too short nor on disk |
| `Trie.TrieDB.Cleve` | libdevcore/TrieDB.h:1112-1127 | a node is cut at a nibble into an extension over its tail, with the references moved along |
| `Trie.TrieDB.MakeBranch` | libdevcore/TrieDB.h:1167-1195 | a leaf or extension becomes a branch with one entry |
| `Trie.TrieDB.MergeAt` | libdevcore/TrieDB.h:833-902 | the bytes returned are the encoding of the merged node, the counts follow, and the re-entry after cleve and branch ends |
| `Trie.TrieDB.MergeAtAux` | libdevcore/TrieDB.h:905-922 | the same below a parent, with the reference written into the parent's list |
| `Trie.TrieDB.Insert` | libdevcore/TrieDB.h:777-789 | insert for keys of any length: the trie becomes the merged one, its root is the hash of its encoding, counts stay exact, and kills miss exactly once if a branch is made where the key ends and is not on disk, and never otherwise |
| `Trie.TrieDB.At` | libdevcore/TrieDB.h:791-826 | at() gives the value the trie holds, or nothing |
| `Trie.TrieDB.Dereference` | libdevcore/TrieDB.h:942-945 | a reference stands for its node |
| `Trie.TrieDB.IsTwoItemNode` | libdevcore/TrieDB.h:936-940 | a reference is to a leaf or extension |
| `Trie.TrieDB.GraftNode` | libdevcore/TrieDB.h:1129-1150 | two keys are joined into one, and the node below is given up |
| `Trie.TrieDB.MergeOnly` | libdevcore/TrieDB.h:1152-1165 | a branch with one entry left becomes a leaf or an extension to it |
| `Trie.TrieDB.MergeValue` | libdevcore/TrieDB.h:1031-1043 | a branch with only its value left becomes a leaf, after the value has been looked up as a reference |
| `Trie.TrieDB.DeleteAt` | libdevcore/TrieDB.h:947-1048 | the bytes returned are the encoding of the trie without the key, or none if the key is absent, and the counts follow |
| `Trie.TrieDB.DeleteAtAux` | libdevcore/TrieDB.h:1051-1066 | the same below a parent; an absent key leaves everything alone |
| `Trie.TrieDB.Remove` | libdevcore/TrieDB.h:924-934 | remove, in its domain: the trie loses exactly the key, an absent key changes neither root nor store, counts stay exact |
| `Trie.UniqueInUse` | libdevcore/TrieCommon.cpp:116-128 | the loop finds the one entry in use, or reports none or several |
| `Trie.SplitKeyIsPrefix` | libdevcore/TrieDB.h:1068-1071 | place gives up a branch that was never stored only when the key is a proper prefix of a stored one, which is given |
| `TrieHash.Hash256Rlp` | libdevcore/TrieHash.cpp:27-79 | the batch builder writes the encoding of a canonical node holding exactly the entries of the range |
| `TrieHash.Hash256Aux` | libdevcore/TrieHash.cpp:81-92 | the same below a parent, put in whole or by hash |
| `TrieHash.SharedPrefix` | libdevcore/TrieHash.cpp:38-48 | the loop finds the nibbles all keys of the range share |
| `TrieHash.WriteBranch` | libdevcore/TrieHash.cpp:55-77 | the branch has one entry for each next nibble and the value of the key that ends there |
| `TrieHash.Rlp256` | libdevcore/TrieHash.cpp:94-110 | the bytes for a map of byte keys, taken in any order, are the encoding of the canonical trie with exactly its entries |
| `TrieHash.Hash256` | libdevcore/TrieHash.cpp:107-110 | the root hash of a map is that of its canonical trie |
| `TrieHash.AssignedSorted` | libdevcore/TrieHash.cpp:99-101 | setting a key of the nibble map keeps the keys in order and replaces exactly the entry of that key |
| `TrieHash.TrieOfKeeps` | libdevcore/TrieHash.cpp:94-110 | one canonical node and no other has the entries of a map |
| `TrieHistory.RunRepresents` | libdevcore/TrieDB.h:777-1066 | after any run of inserts and removes the trie holds exactly the entries of the resulting map |
| `TrieHistory.HistoryDoesNotMatter` | libdevcore/TrieDB.h:777-1195 | two runs end in the same trie, and so in the same root, exactly when they end in the same map |
| `TrieHistory.RootCommits` | libdevcore/TrieDB.h:1103-1110 | without a collision among the strings considered, equal roots mean equal contents |
| `TrieHistory.PrefixFreeRemovable` | libdevcore/TrieDB.h:947-1048 | where no key is a proper prefix of another, as with keys of one length, every removal is in the domain of Remove |
| `TrieHistory.PresentRemovable` | libdevcore/TrieDB.h:947-1048 | removing a key that is there is in the domain of Remove, whatever the keys, wherever no value is empty and none leads to a node when taken for a reference |
| `TrieHistory.FixedLengthIsPrefixFree` | libdevcore/TrieDB.h:305-330 | keys of one length are never prefixes of each other |
| `TrieHistory.LiveRefsClean` | libdevcore/TrieDB.h:1068-1071 | a trie of non-empty values refers to no branch with one entry, so that giving up a branch that was never stored hits nothing live |
| `TrieRuns.RunAny` | libdevcore/TrieDB.h:777-934 | from a new trie, through any run of inserts, removes, commits and purges with keys of any length, each step harmless: the trie is that of the resulting map, counts are exact, other references are served, kills have missed exactly as often as a branch was made where a key ends, and the root hash is the one the batch builder gives for the map |
| `TrieRuns.NonEmptyHarmless` | libdevcore/TrieDB.h:1068-1083 | with values that are not empty every insert is harmless, whatever the keys |
| `TrieRuns.PresentHarmless` | libdevcore/TrieDB.h:947-1048 | with values that are not empty and do not lead to a node when taken for a reference, every insert and every removal of a key that is there is harmless, whatever the keys |
| `TrieRuns.ApartHarmless` | libdevcore/TrieDB.h:947-1083 | with keys of which none is a proper prefix of another everything is harmless and nothing misses |
| `TrieRuns.CommitStores` | libdevcore/OverlayDB.cpp:48-100 | a commit puts exactly the live nodes on disk, besides what was there |
| `TrieRuns.StrayKill` | libdevcore/TrieDB.h:1068-1071 | two inserts, the second with a key that ends inside the first, after which one kill has missed |
| `TrieRuns.LeafFollowed` | libdevcore/TrieDB.h:973-980 | an absent key behind that of a leaf whose value is longer than a hash: deleteAt goes on into the value, which is no reference |
| `TrieRuns.ValueFollowed` | libdevcore/TrieDB.h:1031-1043 | the last longer key below a value longer than a hash: deleteAt looks the value up as a reference, which fails |
| `TrieRuns.Run` | libdevcore/TrieDB.h:777-934 | RunAny with keys of which none is a proper prefix of another: there every removal is right and no kill misses |
| `TrieRuns.Do` | libdevcore/OverlayDB.cpp:48-100 | each action keeps all that, commits and purges included, and misses as often as StrayAt says |
| `TrieRuns.RunKeeps` | libdevcore/TrieDB.h:777-934 | after any run, whatever the keys, the trie is the canonical one with exactly the entries of the map of byte keys |
| `TrieRuns.KeyApart` | libdevcore/TrieDB.h:305-330 | keys that are no proper prefixes of each other as bytes stay apart from the trie as nibbles, throughout a run |
| `TrieRuns.FixedLengthKeys` | libdevcore/TrieDB.h:305-330 | keys of one length are never proper prefixes of each other, so that every run with them is covered |
| `TrieRuns.RunWalk` | libdevcore/TrieDB.h:505-765 | after any run that writes no empty values, whatever the keys, the entries of the trie are exactly the map, in key order |
| `TrieRuns.RunAndWalk` | libdevcore/TrieDB.h:304-310 | after such a run the iterator, from begin() on, goes through exactly the map, in key order |
| `TrieIteration.EntriesSorted` | libdevcore/TrieDB.h:668-765 | the entries of a trie in walking order are in strictly increasing key order, so none comes twice |
| `TrieIteration.EntriesAreContents` | libdevcore/TrieDB.h:519-529 | the entries walked are exactly those lookup finds |
| `TrieIteration.Iterator.Begin` | libdevcore/TrieDB.h:505-510 | begin() stands before all entries, at the first |
| `TrieIteration.Iterator.LowerBound` | libdevcore/TrieDB.h:512-517 | lower_bound(k) leaves exactly the entries that are not before k |
| `TrieIteration.Iterator.Next` | libdevcore/TrieDB.h:668-765 | next() without a key moves from one entry to the next, and past the end after the last |
| `TrieIteration.Iterator.WalkOn` | libdevcore/TrieDB.h:668-765 | the loop without a key ends at the next entry or past the last one, and passes over none |
| `TrieIteration.Iterator.Walk` | libdevcore/TrieDB.h:532-666 | the loop passes over the entries before the key looked for, stops at the first that is not before it, and ends |
| `TrieIteration.Iterator.Scan` | libdevcore/TrieDB.h:638-665 | the inner loop stops at a branch's value, enters its next child in use or leaves it, and gives the key up unless the child it names is entered |
| `TrieIteration.Iterator.EnterTwoItems` | libdevcore/TrieDB.h:567-609 | a leaf or extension is passed over exactly when its partial key is before the key looked for |
| `TrieIteration.Iterator.At` | libdevcore/TrieDB.h:519-529 | at() gives key and value of the entry the walk stopped at |
| `TrieIteration.Collect` | libdevcore/TrieDB.h:304-310 | the loop from begin() to the end reads every entry, in order, and none twice |
| `VmOptimize.StepAgrees` | libaleth-interpreter/VM.cpp:226-238 | at every instruction of the linear reading the rewritten code does one step like the unrewritten: same stack, gas, position and exception, and the machine goes on at an instruction |
| `VmOptimize.RunAgrees` | libaleth-interpreter/VM.cpp:1156-1278 | so does any number of steps, and none of them reads outside the code, the pool or the stack |
| `VmOptimize.Simulation` | libaleth-interpreter/VMOpt.cpp:53-165 | with at most 65536 pooled constants, running the rewritten code from the start is running the unrewritten one |
| `VmOptimize.SimulationExact` | libaleth-interpreter/VMOpt.cpp:112-125 | over all states, reachable or not, the two agree at every instruction if and only if each pooled constant is the one its two-byte offset reads back |
| `VmOptimize.Misread` | libaleth-interpreter/VMOpt.cpp:114-122 | a constant its offset does not read back is pushed wrong from every state with the stack and the gas for the push |
| `VmOptimize.RunsAgreeExactly` | libaleth-interpreter/VMOpt.cpp:53-165 | a run of the rewritten code is at all times that of the unrewritten code if and only if every long push the latter gets through has a constant its offset reads back |
| `VmOptimize.TooManyConstants` | libaleth-interpreter/VMOpt.cpp:112-125 | a program with more than 65536 long pushes that, run from the start with any gas that suffices, puts n % 65536 on the stack where the unrewritten code puts n |
| `VmOptimize.LandedAt` | libaleth-interpreter/VMCalls.cpp:86-101 | a jump that lands is at an instruction that was not rewritten |
| `VmOptimize.LinearReading` | libaleth-interpreter/VMOpt.cpp:59-93 | instructions follow each other, behind PUSHn after its n bytes of data |
| `VmOptimize.DestsExact` | libaleth-interpreter/VMOpt.cpp:59-93 | a destination is a byte 0x5b that the linear reading comes to, and never one in the data of a push |
| `VmOptimize.OpIsByte` | libaleth-interpreter/VMOpt.cpp:59-93 | of the user's instructions only 0xac to 0xae change, and those are invalid |
| `VmCode.JumpGoes` | libaleth-interpreter/VM.cpp:1232-1238 | JUMP goes to a legal destination and throws at any other |
| `VmCode.JumpIfGoes` | libaleth-interpreter/VM.cpp:1240-1249 | JUMPI takes both operands, goes on with the next byte on zero whatever the destination, and jumps or throws on anything else |
| `VmCode.ConstantJumpGoes` | libaleth-interpreter/VM.cpp:1251-1278 | JUMPC and JUMPCI do the same without a look at the destinations |
| `VmCode.PushGoes` | libaleth-interpreter/VM.cpp:1177-1230 | PUSHn puts the number of its n bytes on the stack and goes on behind them |
| `VmCode.PoolGoes` | libaleth-interpreter/VM.cpp:1156-1175 | PUSHC puts the constant at its two-byte offset on the stack and skips what its last byte says |
| `VmCode.FailsShort` | libaleth-interpreter/VM.cpp:185-213 | missing operands, more than 1024 words and missing gas throw |
| `VmOptimize.WidePush` | libaleth-interpreter/VM.cpp:1156-1176 | reading the pool and skipping is pushing the bytes |
| `Vm.VM.Optimize` | libaleth-interpreter/VMOpt.cpp:53-165 | both passes leave the code, jump table and pool the simulation is about |
| `Vm.VM.BuildJumpTable` | libaleth-interpreter/VMOpt.cpp:59-93 | the first pass makes optimised instructions in user code invalid, at instructions only, and notes the jump destinations in order |
| `Vm.VM.RewriteConstants` | libaleth-interpreter/VMOpt.cpp:95-163 | the second pass rewrites long pushes and constant jumps that land, and nothing else that is executed |
| `Vm.VM.VerifyJumpDest` | libaleth-interpreter/VMCalls.cpp:86-101 | the search finds exactly the noted destinations below 2^63 |
| `Vm.VM.Instruction` | libaleth-interpreter/VM.cpp:240-250 | fetching an instruction, checking the stack bounds for it and running it is one step of the specification |
| `Vm.VM.PushBytes` | libaleth-interpreter/VM.cpp:1181-1235 | the push loop puts the big-endian value of its bytes on the stack |
| `Vm.VM.Exec` | libaleth-interpreter/VM.cpp:259-283 | running the optimised code gives, after any number of instructions, what the code as given would, and reads nothing that is not there |
| `VmGas.GasFalls` | libaleth-interpreter/VMCalls.cpp:107-198 | every instruction after which the frame goes on leaves less gas, calls with a stipend and creates included, if the host gives back no more than it was sent |
| `VmGas.FrameEnds` | libaleth-interpreter/VM.cpp:207-224 | a frame goes on for no more instructions than it has gas, and what its gas shows was taken for memory adds up to the price of its final size |
| `VmGas.StepExact` | libaleth-interpreter/VM.cpp:198-221 | what an instruction takes beyond its base, copying and passed-on gas is exactly the price of the memory it adds |
| `VmGas.AllButOne64th` | libaleth-interpreter/VMCalls.cpp:249-259 | EIP-150: another frame gets at most all but one 64th, and at least that 64th stays |
| `VmGas.MemoryInNumbers` | libaleth-interpreter/VM.cpp:199-205 | w words cost 3w and the 512th part of their square, rounded down |
| `VmGas.ReachInNumbers` | libaleth-interpreter/VM.cpp:223-229 | memory grows to the whole words that cover what an instruction touches, and not at all for nothing |
| `VmGas.CostInNumbers` | libaleth-interpreter/VM.cpp:214-238 | what each instruction costs besides memory: hashing by the word, logs by topic and byte, copies by the word, creates with their hashing, calls to new accounts and with value |
| `VmGas.CreateInNumbers` | libaleth-interpreter/VMCalls.cpp:107-166 | what a create leaves: the 64th part and what comes back, or everything if it is not made |
| `VmGas.CallInNumbers` | libaleth-interpreter/VMCalls.cpp:168-287 | what a call passes on and leaves, with the limit of all but a 64th and the stipend of 2300 |
| `VmGas.CastsSafe` | libaleth-interpreter/VM.cpp:413-450 | no memory offset that is paid for loses bits in the 32-bit cast if and only if the gas does not reach past 2^32 |
| `VmGas.AccessesInside` | libaleth-interpreter/VM.cpp:334-450 | in a frame that began with less than 2^45 gas every range of memory an instruction of a run has paid for, of words, hashes, logs, copies, creates, calls and returns, is inside memory and below 2^32 |
| `VmGas.Meter.UpdateGas` | libaleth-interpreter/VM.cpp:214-221 | the 64-bit sum of base, memory and copying costs is the exact one, and gas is found short exactly when the exact cost is higher |
| `VmGas.Meter.UpdateMem` | libaleth-interpreter/VM.cpp:223-229 | memory grows by zero bytes to the next word, exactly when it can be paid |
| `VmGas.Meter.AccessGas` | libaleth-interpreter/VM.cpp:407-435 | a memory access charges its exact cost or is out of gas |
| `VmGas.Meter.HashGas` | libaleth-interpreter/VM.cpp:437-450 | so does SHA3 |
| `VmGas.Meter.LogGasMem` | libaleth-interpreter/VM.cpp:231-238 | so do the logs |
| `VmGas.Meter.CopyGas` | libaleth-interpreter/VM.cpp:997-1072 | so do the copying instructions |
| `VmGas.Meter.CaseCreate` | libaleth-interpreter/VMCalls.cpp:107-166 | CREATE and CREATE2 charge their exact cost, pass on and take back gas, and no sum wraps around |
| `VmGas.Meter.CaseCall` | libaleth-interpreter/VMCalls.cpp:168-287 | so do the calls, with the stipend |
| `VmGas.Meter.FinishGas` | libaleth-interpreter/VM.cpp:334-362 | RETURN and REVERT pay for the range they return |
| `VmGas.Meter.PerformGas` | libaleth-interpreter/VM.cpp:199-238 | every instruction charges what it costs |
| `VmGas.Meter.RunGas` | libaleth-interpreter/VM.cpp:199-450 | over a whole run the 64-bit accounting follows the exact costs with no sum that wraps around, and is out of gas exactly when they are |
| `VmGas.Meter.MLoad` | libaleth-interpreter/VM.cpp:407-415 | the word read is the one at the offset as the 32-bit cast leaves it |
| `VmGas.Meter.MStore` | libaleth-interpreter/VM.cpp:417-435 | the bytes are put at the offset as the 32-bit cast leaves it and nothing else changes |
| `VmGas.Meter.CopyDataToMemory` | libaleth-interpreter/VMCalls.cpp:24-37 | memory gets the data from the index on and zeros behind its end, for any index |
| `VmWords.Exp256` | libaleth-interpreter/VMOpt.cpp:185-197 | squaring gives the power modulo 2^256 for all operands |
| `VmWords.SignedUnsigned` | libdevcore/Common.h:150-168 | u2s and s2u undo each other |
| `VmWords.SignedDivision` | libaleth-interpreter/VM.cpp:605-630 | quotient and remainder of SDIV and SMOD belong together, except for the least number divided by minus one, which wraps around |
| `VmWords.SarFloors` | libaleth-interpreter/VM.cpp:764-795 | SAR is division by the power of two rounded down, for any amount |
| `VmWords.SignExtends` | libaleth-interpreter/VM.cpp:813-829 | SIGNEXTEND reads the low bytes as a signed number |
| `VmWords.SignExtendsExactly` | libaleth-interpreter/VM.cpp:813-829 | the low bytes stay, and the outcome is the signed number of that width |
| `RangeMasks.RangeMask.UnionWith` | libdevcore/RangeMask.h:233-291 | the loop ends, keeps the ranges apart, and adds exactly the range; a range that is there already changes nothing |
| `RangeMasks.RangeMask.UnionStep` | libdevcore/RangeMask.h:235-288 | one turn covers the numbers up to where one range reaches and nothing else |
| `RangeMasks.RangeMask.UnionWithMask` | libdevcore/RangeMask.h:103-111 | the union of two masks, which may be one object, holds what either holds, over the hull of their ground ranges |
| `RangeMasks.RangeMask.Inverted` | libdevcore/RangeMask.h:77-91 | the complement in the ground range, again in separated ranges |
| `RangeMasks.RangeMask.Subtract` | libdevcore/RangeMask.h:97-99 | what subtraction leaves, of another mask or of itself, and that it is set difference if and only if the other mask holds all that it adds to the ground range, or the mask was empty if it is the same |
| `RangeMasks.RangeMask.Lowest` | libdevcore/RangeMask.h:66-72 | the result is the smallest elements, so many or all, if and only if no sum wraps around 32 bits; otherwise it is no legal mask |
| `RangeMasks.RangeMask.Contains` | libdevcore/RangeMask.h:124-130 | membership |
| `RangeMasks.RangeMask.Full` | libdevcore/RangeMask.h:137-140 | true exactly when every number of the ground range is there |
| `RangeMasks.RangeMask.Next` | libdevcore/RangeMask.h:181-192 | the smallest element after the number, or the end; after the largest unsigned number it starts over |
| `RangeMasks.RangeMask.Size` | libdevcore/RangeMask.h:194-201 | the number of elements |
| `RangeMasks.LowestWraps` | libdevcore/RangeMask.h:66-72 | a wish that wraps around 32 bits gives what is no legal mask |
| `RangeMasks.DifferenceGrows` | libdevcore/RangeMask.h:97-98 | an empty mask without an empty one of a wider ground range has an element |
| `RangeMasks.NextStartsOver` | libdevcore/RangeMask.h:183-192 | after the largest unsigned number comes the smallest element |
| `SealEngine.GasLimitAgrees` | libethcore/SealEngine.cpp:271-282 | the gas limit computed for a child is inside the window of verify, if and only if the parent's is no less than the bound divisor; below that no gas limit is |
| `SealEngine.GasLimitExact` | libethcore/SealEngine.cpp:271-282 | the gas limit goes one less than a part towards the floor, never past it, and is held up by what was used |
| `SealEngine.ChildVerifies` | libethcore/SealEngine.cpp:38-68 | exactly which headers made from a parent, with any gas used, pass every check of verify |
| `SealEngine.PassesExactly` | libethcore/SealEngine.cpp:101-154 | for any header and parent the checks of verify pass if and only if every rule holds, the expected difficulty included, both for new headers and for those checked before |
| `SealEngine.ChildInFull` | libethcore/SealEngine.cpp:38-43 | what a header made from its parent holds, field by field |
| `SealEngine.ChainVerifies` | libethcore/SealEngine.cpp:38-154 | along any chain of such headers with increasing timestamps every header passes, gas limit window, difficulty floor and exact difficulty included |
| `SealEngine.DifficultyStep` | libethcore/SealEngine.cpp:213-240 | since Homestead a block is at most two 2048ths more and 99 less difficult than its parent, apart from floor and ice age |
| `SealEngine.DifficultyExact` | libethcore/SealEngine.cpp:213-268 | the difficulty in numbers since Homestead: steps of nine or ten seconds, uncles, the limit of 99 down, the doubling every 100000 blocks with its delays, and the minimum |
| `SealEngine.FrontierExact` | libethcore/SealEngine.cpp:222-232 | before Homestead it goes one part up or down by the duration limit |
| `SealEngine.LaterIsEasier` | libethcore/SealEngine.cpp:213-268 | from one parent, a later block is never more difficult |
| `SealEngine.BlockHeader.Populate` | libethcore/SealEngine.cpp:38-43 | the header takes number, parent and limits from the parent and keeps the rest |
| `Uncles.AllKinFrom` | libethereum/BlockChain.cpp:1389-1403 | the loop collects exactly the block, its ancestors up to the sixth, and the uncles cited by the block and its ancestors up to the fifth, down to the genesis block |
| `Uncles.KinExact` | libethereum/BlockChain.cpp:1389-1403 | kin is the block, its six ancestors and what it and five of them cite |
| `Uncles.CheckUncles` | libethereum/Block.cpp:543-618 | the validator's checks pass exactly for at most two uncles, none twice, none kin, each one to six generations back with its parent an ancestor |
| `Uncles.AcceptableExactly` | libethereum/Block.cpp:543-618 | the rule for uncles written out: not more than two, none twice, none the block, an ancestor or cited by one, each from one to six generations back and in order after its parent |
| `Uncles.SelectUncles` | libethereum/Block.cpp:745-773 | over any block tree a validator accepts what the proposer selects; no child of the genesis block is selected, when fewer than two are, an acceptable uncle is left out if and only if it is a child of the genesis block, and otherwise none that is younger is left out |
| `Uncles.BrotherMissed` | libethereum/Block.cpp:749-771 | of two children of the genesis block, the block after one could cite the other, and nothing is selected |
| `Headers.ReadHeaderExact` | libethcore/BlockHeader.cpp:133-200 | a header is read from its encoding, and from no other canonical bytes; fields of the wrong kind are refused |
| `Headers.SameUnsealed` | libethereum/Block.cpp:837-843 | equal hashes without seal mean that two headers differ in the seal at most |
| `Headers.HeaderInBytes` | libethcore/BlockHeader.cpp:133-149 | the bytes of a header are those of its fields in their order, and then the seal |
| `Headers.FreshMade` | libethereum/Block.cpp:121-129 | a new header is later than the one before and has the number, difficulty and gas limit that follow from it |
| `Headers.FreshInFull` | libethereum/Block.cpp:121-129 | what the header of a new block holds, field by field, and its time |
| `Blocks.TrieRootOver` | libdevcore/TrieHash.h:36-42 | the root over a list is the root of the canonical trie of the map from rlp(i) to element i |
| `Blocks.KeyInjective` | libdevcore/TrieHash.h:36-42 | different indices have different keys, so insert and assignment build the same map |
| `Blocks.IndexedExact` | libdevcore/TrieHash.h:36-42 | the map has element i under the RLP of i, and nothing else |
| `Blocks.ApplyRewards` | libethereum/Block.cpp:684-693 | the loop credits, whatever balances are, every account what its uncles earn and the author the reward and a 32nd of it for each uncle, and nobody else |
| `Blocks.RewardAmounts` | libethereum/Block.cpp:684-693 | an uncle d generations back earns (8 - d) eighths of the reward, citing it one 32nd |
| `Blocks.RewardedIsCredited` | libethereum/Block.cpp:684-693 | the two uncles and the author are credited in turn, with amounts written out |
| `Blocks.VerifyRoots` | libethcore/BlockHeader.cpp:230-268 | the bytes of a block pass exactly when transactions root and uncles hash are those of its lists |
| `Blocks.Enact` | libethereum/Block.cpp:469-633 | a block is accepted exactly when its uncles are acceptable and running it from the state of the block before keeps what its header promises of receipts, bloom, gas and state |
| `Blocks.RunAll` | libethereum/Block.cpp:494-520 | the loop replays the transactions and stops at the first that fails |
| `Blocks.ReadAllExact` | libethereum/BlockChain.cpp:1558-1582 | the parts of a block are read if and only if each of them can be, in order |
| `Blocks.Block.Execute` | libethereum/Block.cpp:662-682 | a sealed block takes no transaction; otherwise rewards are undone first, and a transaction is appended to what ran before if and only if it is committed |
| `Blocks.Block.CommitToSeal` | libethereum/Block.cpp:733-826 | however often it is called, the state is the one before rewards with the rewards of this call applied once, and the header promises it |
| `Blocks.Block.ResetCurrent` | libethereum/Block.cpp:121-140 | the block starts over with a header made from the one before and the state of its root |
| `Blocks.Block.UncommitToSeal` | libethereum/Block.cpp:828-835 | the state before rewards is back |
| `Blocks.Block.SealBlock` | libethereum/Block.cpp:837-861 | succeeds exactly on a committed block with the bytes of a header that is its own but for the seal, and puts the state before rewards back |
| `Blocks.Block.CompileTransactions` | libethereum/Block.cpp:775-797 | the maps hold every transaction and receipt under its index, and the list is their RLP list |
| `Blocks.CompileUncles` | libethereum/Block.cpp:757-768 | the uncles written one by one and wrapped are their RLP list |
| `Blocks.Block.SealedKeepsPromises` | libethereum/Block.cpp:733-861 | a sealed block keeps every promise of its header to a validator |
| `Blocks.Block.CommittedVerifies` | libethereum/Block.cpp:733-826 | the header of a committed block passes the seal engine's checks against the one before if and only if the extra data may stand, the number fits, and the gas limit of the one before is no less than the bound divisor |
| `Blocks.GasStaysBelow` | libethereum/Block.cpp:494-520 | the gas used by the transactions never exceeds the limit |
| `Blocks.MatchesDelivers` | libethereum/Block.cpp:494-660 | what a header promises of running the block, written out transaction by transaction with gas, receipts, bloom, rewards and state root |
| `Blocks.ImportableExactly` | libethereum/BlockChain.cpp:1502-1580 | what it takes to be imported is every rule for header, roots, uncles and run, written out, and nothing else |
| `Blocks.ImportedAgree` | libethereum/BlockChain.cpp:1502-1580 | two blocks imported after the same one at the same time have the same number and difficulty, and with the same author, gas limit, transactions and uncles the same roots, bloom and gas |
| `Blocks.ImportBlock` | libethereum/BlockChain.cpp:1502-1580 | from the bytes of a block: it is accepted exactly when header, transactions and uncles can be read, the header passes against the one before, the roots match, the uncles are acceptable and the run keeps the header's promises |
| `Blocks.ImportSealed` | libethereum/Block.cpp:419-633 | the bytes of the block that was built and sealed are imported if and only if its header may stand |

## Left out

- Trie.TrieDB.Remove: requires `Deletable`: the key is there, or it runs neither past a leaf nor out at a branch without a value; no value at a branch is empty; and a value that is left alone does not lead to a node when taken for a reference. Outside that domain removal fails or reads past the key.
- Trie.TrieDB.DeleteAt: the same domain as for Remove.
- Trie.TrieDB.DeleteAtAux: the same domain as for Remove.
- TrieRuns.RunAny: each step is `Harmless`, so that removals are in that domain, and the strings considered cover each step.
- TrieRuns.RunAndWalk: the same, and no value is empty.
- Trie.TrieDB.Insert: exact counts for a key that ends inside another need `Clean`, that nothing live is a branch with one entry; `LiveRefsClean` gives it for non-empty values.
- TrieIteration.EntriesAreContents: needs that no branch holds an empty value, which the walk and lookup cannot see.
- VmOptimize.Simulation: takes of the metrics table that all pushes have one row and that jumps take one and two operands, and of the other instructions that STOP does not go on.
- VmOptimize.TooManyConstants: takes of JUMPDEST that it costs its gas and changes nothing else.
- VmGas.GasFalls: takes it from the metrics table that instructions which go on have a positive cost.
- Blocks.ImportSealed: the state of the block is that of its transactions (`recorded`), which a run that is neither committed nor without effect would change.
- Blocks.VerifyRoots: takes the encoding of a list of a header, transactions and uncles; other bytes are not modelled.
- Headers.ReadHeaderExact: reads with the strict decoder; a header whose extra data is a list, or whose extra data or seal is not in canonical form, which the source lets pass, is refused.
- Blocks.Enact: running a transaction is a parameter that sees author, number, time, difficulty, gas limit and the gas used so far.
- Blocks.ImportBlock: takes bytes that are a list of a header, transactions and uncles; the checks of single transactions, of the seal, and of uncle headers by the seal engine are not modelled.
- Blocks.Block.CommitToSeal: the previous block of the object is fixed; `sync`, `populateFromChain`, `noteChain` and copying of blocks, which resets the committed flag, are not modelled.
- Uncles.CheckUncles: headers of uncles come as hash, parent, number and timestamp.
- Counts of the store and numbers of trie positions are unbounded; the 32-bit wrap of a reference count is not modelled.
- `m_enforceRefs`, auxiliary entries, fat and hashed tries, `rollback`, and the scans for debugging.
- The retries and pauses of `OverlayDB::commit`; the backing store is one map that takes a batch whole.
- The order of a `std::map` is taken as given: maps that are walked are lists in key order.
- Loops over the 17 items of a branch that copy all but one are updates of the list.
- RLP: the lax flags, compact appending, conversions to numbers and strings, and views of a part of the data.
- The EVMC host, storage, logs and the arithmetic instructions that are one expression; tracing and the dispatch macros.
- Irregular state changes at forks and the blockhash contract are a parameter of the number and the hash of the block before.
- Keccak and the other cryptographic functions, databases, networking, the transaction queue, threads and command-line tools.
