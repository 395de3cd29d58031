/** Nibble strings and the hex-prefix encoding of keys (libdevcore/TrieCommon.h, TrieCommon.cpp; Appendix C of
  the Yellow Paper).

  `HexPrefix` is the encoding by its definition. The three encoders of the source build it nibble by nibble
  from different views of the key; each is proved to produce it. */
module TrieCommon {
  import opened Bytes

  /** nibble(): the high half of a byte comes first. */
  function NibbleAt(data: Bytes, i: nat): Nibble
    requires i < 2 * |data|
  {
    if i % 2 == 1 then data[i / 2] % 16 else data[i / 2] / 16
  }

  function Join(high: Nibble, low: Nibble): Byte {
    (high as int) * 16 + low
  }

  /** asNibbles(): every byte as its two halves. */
  function Unpack(data: Bytes): (nibbles: Nibbles)
    ensures |nibbles| == 2 * |data|
  {
    if data == [] then []
    else
      var last := data[|data| - 1];
      Unpack(data[..|data| - 1]) + [last / 16, last % 16]
  }

  function Pack(nibbles: Nibbles): (data: Bytes)
    requires |nibbles| % 2 == 0
    ensures 2 * |data| == |nibbles|
  {
    if nibbles == [] then []
    else
      var n := |nibbles|;
      Pack(nibbles[..n - 2]) + [Join(nibbles[n - 2], nibbles[n - 1])]
  }

  /** The flag nibble, and a zero to fill the byte when the key has an even number of nibbles. */
  function Flag(leaf: bool, odd: bool): Nibbles {
    var kind := if leaf then 2 else 0;
    if odd then [kind + 1] else [kind, 0]
  }

  function HexPrefix(key: Nibbles, leaf: bool): Bytes {
    Pack(Flag(leaf, |key| % 2 == 1) + key)
  }

  /** isLeaf() and keyOf() on the encoded key. */
  predicate LeafOf(encoded: Bytes)
    requires encoded != []
  {
    encoded[0] / 0x20 % 2 == 1
  }

  function KeyOf(encoded: Bytes): Nibbles {
    if encoded == [] then []
    else if encoded[0] / 0x10 % 2 == 1 then Unpack(encoded)[1..]
    else Unpack(encoded)[2..]
  }

  lemma {:induction false} UnpackPack(nibbles: Nibbles)
    requires |nibbles| % 2 == 0
    ensures Unpack(Pack(nibbles)) == nibbles
  {
    if nibbles != [] {
      var n := |nibbles|;
      var front := nibbles[..n - 2];
      UnpackPack(front);
      UnpackSnoc(Pack(front), nibbles[n - 2], nibbles[n - 1]);
      assert nibbles == front + [nibbles[n - 2], nibbles[n - 1]];
    }
  }

  lemma UnpackSnoc(data: Bytes, high: Nibble, low: Nibble)
    ensures Unpack(data + [Join(high, low)]) == Unpack(data) + [high, low]
  {
    assert (data + [Join(high, low)])[..|data|] == data;
  }

  lemma {:induction false} UnpackAt(data: Bytes, i: nat)
    requires i < 2 * |data|
    ensures Unpack(data)[i] == NibbleAt(data, i)
  {
    var front := data[..|data| - 1];
    if i < 2 * |front| {
      UnpackAt(front, i);
    }
  }

  lemma {:induction false} PackUnpack(data: Bytes)
    ensures Pack(Unpack(data)) == data
  {
    if data != [] {
      var n := |data|;
      var front, last := data[..n - 1], data[n - 1];
      PackUnpack(front);
      assert data == front + [Join(last / 16, last % 16)];
      assert Unpack(data)[..2 * n - 2] == Unpack(front);
    }
  }

  /** A key in bytes is twice as long in nibbles, the high half of each byte first. */
  lemma Halves(data: Bytes, i: nat)
    requires i < |data|
    ensures |Unpack(data)| == 2 * |data|
    ensures (Unpack(data)[2 * i] as int) * 16 + Unpack(data)[2 * i + 1] == data[i]
  {
    UnpackAt(data, 2 * i);
    UnpackAt(data, 2 * i + 1);
  }

  lemma FlagBits(leaf: bool, odd: bool, first: Byte)
    requires first / 16 == Flag(leaf, odd)[0]
    ensures first / 0x20 % 2 == (if leaf then 1 else 0) && first / 0x10 % 2 == (if odd then 1 else 0)
  {
  }

  /** Decoding an encoded key gives back the key and its leaf flag. */
  lemma HexPrefixRoundTrip(key: Nibbles, leaf: bool)
    ensures HexPrefix(key, leaf) != []
    ensures KeyOf(HexPrefix(key, leaf)) == key
    ensures LeafOf(HexPrefix(key, leaf)) == leaf
  {
    hide Pack, Unpack;
    var flag := Flag(leaf, |key| % 2 == 1);
    var encoded := HexPrefix(key, leaf);
    UnpackPack(flag + key);
    UnpackAt(encoded, 0);
    FlagBits(leaf, |key| % 2 == 1, encoded[0]);
    assert (flag + key)[|flag|..] == key;
  }

  /** Which bytes a key becomes: the first nibble is 2 for a leaf, plus 1 for an odd number of nibbles; behind it, with a zero
    to fill the first byte if the number is even, come the nibbles of the key, the high half of each byte first. */
  lemma HexPrefixLayout(key: Nibbles, leaf: bool)
    ensures var encoded, odd := HexPrefix(key, leaf), |key| % 2;
      && |encoded| == |key| / 2 + 1
      && encoded[0] == 16 * ((if leaf then 2 else 0) + odd) + (if odd == 1 then key[0] else 0)
      && forall i :: 1 <= i < |encoded| ==> encoded[i] == (key[2 * i - 2 + odd] as int) * 16 + key[2 * i - 1 + odd]
  {
    hide Pack, Unpack;
    var odd := |key| % 2;
    var flagged := Flag(leaf, odd == 1) + key;
    var encoded := HexPrefix(key, leaf);
    UnpackPack(flagged);
    forall i | 0 <= i < |encoded|
      ensures encoded[i] == (flagged[2 * i] as int) * 16 + flagged[2 * i + 1]
    {
      UnpackAt(encoded, 2 * i);
      UnpackAt(encoded, 2 * i + 1);
    }
  }

  /** And a well-flagged byte string is the encoding of what it decodes to. */
  lemma HexPrefixCanonical(encoded: Bytes)
    requires encoded != [] && encoded[0] < 0x40
    requires encoded[0] / 0x10 % 2 == 0 ==> encoded[0] % 0x10 == 0
    ensures HexPrefix(KeyOf(encoded), LeafOf(encoded)) == encoded
  {
    hide Unpack, Pack;
    var nibbles := Unpack(encoded);
    var odd := encoded[0] / 0x10 % 2 == 1;
    var flag := Flag(LeafOf(encoded), odd);
    PackUnpack(encoded);
    UnpackAt(encoded, 0);
    UnpackAt(encoded, 1);
    FlagBits(LeafOf(encoded), odd, encoded[0]);
    assert |KeyOf(encoded)| % 2 == 1 <==> odd;
    assert nibbles[..|flag|] == flag && nibbles[|flag|..] == KeyOf(encoded);
    assert nibbles == nibbles[..|flag|] + nibbles[|flag|..];
  }

  // ---------------------------------------------------------------- views of nibbles

  /** The length of the longest common prefix. */
  function Shared(a: Nibbles, b: Nibbles): (n: nat)
    ensures n <= |a| && n <= |b| && a[..n] == b[..n]
    ensures n < |a| && n < |b| ==> a[n] != b[n]
  {
    if a == [] || b == [] || a[0] != b[0] then 0
    else
      assert a == [a[0]] + a[1..] && b == [b[0]] + b[1..];
      1 + Shared(a[1..], b[1..])
  }

  /** isEarlierThan: a comes before every key that starts with b. */
  predicate Earlier(a: Nibbles, b: Nibbles) {
    var n := Shared(a, b);
    n < |b| && (n == |a| || a[n] < b[n])
  }

  datatype NibbleSlice = NibbleSlice(data: Bytes, offset: nat) {
    predicate Valid() { offset <= 2 * |data| }

    function Size(): nat
      requires Valid()
    {
      2 * |data| - offset
    }

    function At(i: nat): (n: Nibble)
      requires Valid() && i < Size()
      ensures n == View()[i]
    {
      UnpackAt(data, offset + i);
      NibbleAt(data, offset + i)
    }

    /** The nibbles the slice shows. */
    function View(): Nibbles
      requires Valid()
    {
      Unpack(data)[offset..]
    }
  }

  /** sharedNibbles() over two slices. */
  method SharedNibbles(a: NibbleSlice, b: NibbleSlice) returns (shared: nat)
    requires a.Valid() && b.Valid()
    ensures shared == Shared(a.View(), b.View())
  {
    hide Unpack, Shared;
    shared := 0;
    while shared < a.Size() && shared < b.Size() && a.At(shared) == b.At(shared)
      invariant shared <= a.Size() && shared <= b.Size() && a.View()[..shared] == b.View()[..shared]
    {
      shared := shared + 1;
    }
    SharedAt(a.View(), b.View(), shared);
  }

  method Contains(a: NibbleSlice, prefix: NibbleSlice) returns (contains: bool)
    requires a.Valid() && prefix.Valid()
    ensures contains <==> prefix.View() <= a.View()
  {
    var shared := SharedNibbles(a, prefix);
    PrefixShared(a.View(), prefix.View());
    contains := shared == prefix.Size();
  }

  lemma PrefixShared(a: Nibbles, prefix: Nibbles)
    ensures Shared(a, prefix) == |prefix| <==> prefix <= a
  {
    if prefix <= a {
      SharedAt(a, prefix, |prefix|);
    }
  }

  method IsEarlierThan(a: NibbleSlice, b: NibbleSlice) returns (earlier: bool)
    requires a.Valid() && b.Valid()
    ensures earlier <==> Earlier(a.View(), b.View())
  {
    var i := 0;
    while i < b.Size() && i < a.Size()
      invariant i <= a.Size() && i <= b.Size() && a.View()[..i] == b.View()[..i]
    {
      SharedAt(a.View(), b.View(), i);
      if a.At(i) < b.At(i) {
        return true;
      } else if a.At(i) > b.At(i) {
        return false;
      }
      i := i + 1;
    }
    SharedAt(a.View(), b.View(), i);
    if i >= b.Size() {
      return false;
    }
    return true;
  }

  /** A common prefix that cannot be extended is the longest one. */
  lemma {:induction false} SharedAt(a: Nibbles, b: Nibbles, i: nat)
    requires i <= |a| && i <= |b| && a[..i] == b[..i]
    ensures i <= Shared(a, b)
    ensures i == |a| || i == |b| || a[i] != b[i] ==> Shared(a, b) == i
  {
    if i > 0 {
      assert a[0] == a[..i][0] && b[0] == b[..i][0];
      assert a[1..][..i - 1] == a[..i][1..] && b[1..][..i - 1] == b[..i][1..];
      SharedAt(a[1..], b[1..], i - 1);
    }
  }

  // ---------------------------------------------------------------- the three encoders

  /** What the encoders have built after an odd number of nibbles: the last byte waits for its low half. */
  function PackPadded(nibbles: Nibbles): Bytes {
    var n := |nibbles|;
    if n % 2 == 0 then Pack(nibbles) else Pack(nibbles[..n - 1]) + [Join(nibbles[n - 1], 0)]
  }

  lemma PackSnoc(nibbles: Nibbles, n: nat)
    requires n % 2 == 0 && n + 2 <= |nibbles|
    ensures Pack(nibbles[..n + 2]) == Pack(nibbles[..n]) + [Join(nibbles[n], nibbles[n + 1])]
  {
    assert nibbles[..n + 2][..n] == nibbles[..n];
  }

  method PushNibble(built: Bytes, ghost nibbles: Nibbles, n: Nibble, low: bool) returns (next: Bytes)
    requires built == PackPadded(nibbles) && low == (|nibbles| % 2 == 1)
    ensures next == PackPadded(nibbles + [n])
  {
    ghost var all, m := nibbles + [n], |nibbles|;
    if low {
      // the low half of the last byte is still zero, so or-ing adds
      var last := |built| - 1;
      assert built[last] == Join(nibbles[m - 1], 0);
      next := built[last := built[last] + n];
      assert all[..m - 1] == nibbles[..m - 1];
      assert next == Pack(nibbles[..m - 1]) + [Join(nibbles[m - 1], n)];
    } else {
      next := built + [n * 16];
      assert all[..m] == nibbles;
    }
  }

  lemma FlagFills(leaf: bool, n: nat)
    ensures var flag := Flag(leaf, n % 2 == 1);
      |flag| == (if n % 2 == 1 then 1 else 2) && (|flag| + n) % 2 == 0
  {
  }

  lemma FirstByteIsFlag(leaf: bool, odd: bool)
    ensures var flag := Flag(leaf, odd);
      if odd then |flag| == 1 && FirstByte(leaf, odd) == Join(flag[0], 0)
      else |flag| == 2 && FirstByte(leaf, odd) == Join(flag[0], flag[1])
  {
  }

  function FirstByte(leaf: bool, odd: bool): Byte {
    ((if leaf then 2 else 0) + (if odd then 1 else 0)) * 16
  }

  lemma FirstByteStarts(leaf: bool, odd: bool)
    ensures [FirstByte(leaf, odd)] == PackPadded(Flag(leaf, odd))
  {
  }

  /** hexPrefixEncode over a vector of nibbles, from `begin` up to `end`. */
  method EncodeVector(vector: Nibbles, leaf: bool, begin: nat, end: nat) returns (encoded: Bytes)
    requires begin <= end <= |vector|
    ensures encoded == HexPrefix(vector[begin..end], leaf)
  {
    hide Pack, Flag;
    var odd := (end - begin) % 2 != 0;
    encoded := [FirstByte(leaf, odd)];
    FlagFills(leaf, end - begin);
    FirstByteIsFlag(leaf, odd);
    ghost var flag := Flag(leaf, odd);
    ghost var all := flag + vector[begin..end];
    var i := begin;
    if odd {
      encoded := encoded[0 := encoded[0] + vector[i]];
      i := i + 1;
    }
    PackTwo(all);
    while i < end
      invariant begin <= i <= end && (|flag| + i - begin) % 2 == 0
      invariant encoded == Pack(all[..|flag| + i - begin])
    {
      encoded := encoded + [Join(vector[i], vector[i + 1])];
      PackSnoc(all, |flag| + i - begin);
      i := i + 2;
    }
    assert all[..|flag| + end - begin] == all;
  }

  lemma PackTwo(nibbles: Nibbles)
    requires |nibbles| >= 2
    ensures Pack(nibbles[..2]) == [Join(nibbles[0], nibbles[1])]
  {
    assert Pack([]) == [];
  }

  /** hexPrefixEncode over the nibbles of a byte string that follow `offset`, from `begin` up to `end`. */
  method EncodeBytes(data: Bytes, leaf: bool, beginNibble: nat, endNibble: nat, offset: nat) returns (encoded: Bytes)
    requires beginNibble <= endNibble && endNibble + offset <= 2 * |data|
    ensures encoded == HexPrefix(Unpack(data)[offset..][beginNibble..endNibble], leaf)
  {
    hide Unpack, Pack, Flag;
    var begin, end := beginNibble + offset, endNibble + offset;
    FlagFills(leaf, end - begin);
    var odd := (end - begin) % 2 == 1;
    FirstByteStarts(leaf, odd);
    encoded := [FirstByte(leaf, odd)];
    var d := if odd then 1 else 2;
    encoded, d := PushNibbles(encoded, Flag(leaf, odd), data, begin, end, d);
    assert Unpack(data)[offset..][beginNibble..endNibble] == Unpack(data)[begin..end];
  }

  /** hexPrefixEncode over the nibbles of two byte strings, one after the other. */
  method EncodeJoined(first: NibbleSlice, second: NibbleSlice, leaf: bool) returns (encoded: Bytes)
    requires first.Valid() && second.Valid()
    ensures encoded == HexPrefix(first.View() + second.View(), leaf)
  {
    hide Unpack, Pack, Flag;
    var odd := (first.Size() + second.Size()) % 2 == 1;
    FlagFills(leaf, first.Size() + second.Size());
    assert Unpack(first.data)[first.offset..2 * |first.data|] == first.View();
    assert Unpack(second.data)[second.offset..2 * |second.data|] == second.View();
    FirstByteStarts(leaf, odd);
    encoded := [FirstByte(leaf, odd)];
    var d := if odd then 1 else 2;
    encoded, d := PushNibbles(encoded, Flag(leaf, odd), first.data, first.offset, 2 * |first.data|, d);
    encoded, d := PushNibbles(encoded, Flag(leaf, odd) + first.View(), second.data, second.offset, 2 * |second.data|, d);
    assert Flag(leaf, odd) + first.View() + second.View() == Flag(leaf, odd) + (first.View() + second.View());
    FlagFills(leaf, |first.View() + second.View()|);
  }

  /** The shared loop of the last two: appends the nibbles begin..end of data; d says which half comes next. */
  method PushNibbles(built: Bytes, ghost nibbles: Nibbles, data: Bytes, begin: nat, end: nat, d: nat)
    returns (next: Bytes, d': nat)
    requires built == PackPadded(nibbles) && d % 2 == |nibbles| % 2
    requires begin <= end <= 2 * |data|
    ensures next == PackPadded(nibbles + Unpack(data)[begin..end]) && d' == d + end - begin
  {
    hide Unpack, Pack, PackPadded;
    next, d' := built, d;
    assert nibbles + Unpack(data)[begin..begin] == nibbles;
    for i := begin to end
      invariant d' == d + i - begin
      invariant next == PackPadded(nibbles + Unpack(data)[begin..i])
    {
      var n := NibbleAt(data, i);
      UnpackAt(data, i);
      next := PushNibble(next, nibbles + Unpack(data)[begin..i], n, d' % 2 == 1);
      assert nibbles + Unpack(data)[begin..i] + [n] == nibbles + Unpack(data)[begin..i + 1];
      d' := d' + 1;
    }
  }
}
