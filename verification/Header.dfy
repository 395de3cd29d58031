/** Block headers: their fields, their bytes, and how a new one is made from the one before
  (libethcore/BlockHeader.cpp:95-150, 168-209; libethereum/Block.cpp:121-129). */
module Headers {
  import opened Bytes
  import opened Rlp
  import SealEngine
  import VmCode

  const INT64 := 0x8000_0000_0000_0000
  const NO_ADDRESS: Bytes := seq(20, _ => 0 as Byte)
  const NO_BLOOM: Bytes := seq(256, _ => 0 as Byte)

  type Address = a: Bytes | |a| == 20 witness NO_ADDRESS
  type Bloom = b: Bytes | |b| == 256 witness NO_BLOOM

  datatype Header = Header(
    parentHash: Hash, sha3Uncles: Hash, author: Address, stateRoot: Hash, transactionsRoot: Hash, receiptsRoot: Hash,
    logBloom: Bloom, difficulty: VmCode.Word, number: nat, gasLimit: VmCode.Word, gasUsed: VmCode.Word, timestamp: nat,
    extraData: Bytes, seal: seq<Item>)

  // ---------------------------------------------------------------- bytes

  function Fields(h: Header): seq<Item> {
    [Data(h.parentHash), Data(h.sha3Uncles), Data(h.author), Data(h.stateRoot), Data(h.transactionsRoot),
     Data(h.receiptsRoot), Data(h.logBloom), Data(ToBigEndian(h.difficulty)), Data(ToBigEndian(h.number)),
     Data(ToBigEndian(h.gasLimit)), Data(ToBigEndian(h.gasUsed)), Data(ToBigEndian(h.timestamp)), Data(h.extraData)]
  }

  /** streamRLP with and without the seal. */
  function HeaderItem(h: Header): Item {
    List(Fields(h) + h.seal)
  }

  function Unsealed(h: Header): Item {
    List(Fields(h))
  }

  function HashOf(hash: HashFn, h: Header): Hash {
    hash(Encode(HeaderItem(h)))
  }

  /** Number and time are signed 64-bit integers, and the whole has an encoding. */
  ghost predicate Writable(h: Header) {
    h.number < 0x8000_0000_0000_0000 && h.timestamp < 0x8000_0000_0000_0000 && Fits(HeaderItem(h))
  }

  /** toHash: data of the exact length. */
  predicate Exactly(item: Item, size: nat) {
    item.Data? && |item.bytes| == size
  }

  /** toInt: data without leading zeros, below a limit. */
  predicate IsNumber(item: Item, limit: nat) {
    item.Data? && (item.bytes != [] ==> item.bytes[0] != 0) && FromBigEndian(item.bytes) < limit
  }

  predicate HasFields(items: seq<Item>) {
    && |items| >= 13
    && Exactly(items[0], 32) && Exactly(items[1], 32) && Exactly(items[2], 20) && Exactly(items[3], 32)
    && Exactly(items[4], 32) && Exactly(items[5], 32) && Exactly(items[6], 256)
    && IsNumber(items[7], VmCode.WORD_LIMIT) && IsNumber(items[8], INT64) && IsNumber(items[9], VmCode.WORD_LIMIT)
    && IsNumber(items[10], VmCode.WORD_LIMIT) && IsNumber(items[11], INT64) && items[12].Data?
  }

  function FromItems(items: seq<Item>): Header
    requires HasFields(items)
  {
    Header(items[0].bytes, items[1].bytes, items[2].bytes, items[3].bytes, items[4].bytes, items[5].bytes, items[6].bytes,
      FromBigEndian(items[7].bytes), FromBigEndian(items[8].bytes), FromBigEndian(items[9].bytes),
      FromBigEndian(items[10].bytes), FromBigEndian(items[11].bytes), items[12].bytes, items[13..])
  }

  /** populate: the header in its bytes. None is the exception for fields that are missing or of the wrong kind. */
  function ReadHeader(data: Bytes): Option<Header> {
    match Decode(data)
    case Ok(List(items)) => if HasFields(items) then Some(FromItems(items)) else None
    case _ => None
  }

  lemma NumberRead(n: nat, limit: nat)
    requires n < limit
    ensures IsNumber(Data(ToBigEndian(n)), limit) && FromBigEndian(ToBigEndian(n)) == n
  {
    BigEndianRoundTrip(n);
  }

  lemma FieldsRead(h: Header)
    requires h.number < INT64 && h.timestamp < INT64
    ensures HasFields(Fields(h) + h.seal) && FromItems(Fields(h) + h.seal) == h
  {
    hide ToBigEndian, FromBigEndian, IsNumber;
    NumberRead(h.difficulty, VmCode.WORD_LIMIT);
    NumberRead(h.number, INT64);
    NumberRead(h.gasLimit, VmCode.WORD_LIMIT);
    NumberRead(h.gasUsed, VmCode.WORD_LIMIT);
    NumberRead(h.timestamp, INT64);
    assert (Fields(h) + h.seal)[13..] == h.seal;
  }

  lemma FieldsWritten(items: seq<Item>)
    requires HasFields(items)
    ensures var h := FromItems(items); Fields(h) + h.seal == items && h.number < INT64 && h.timestamp < INT64
  {
    hide ToBigEndian, FromBigEndian;
    BigEndianCanonical(items[7].bytes);
    BigEndianCanonical(items[8].bytes);
    BigEndianCanonical(items[9].bytes);
    BigEndianCanonical(items[10].bytes);
    BigEndianCanonical(items[11].bytes);
    assert items == items[..13] + items[13..];
    assert Fields(FromItems(items)) == items[..13];
  }

  /** A header is read from its encoding, and from no other canonical bytes. */
  lemma ReadHeaderExact(data: Bytes, h: Header)
    ensures ReadHeader(data) == Some(h) <==> Writable(h) && data == Encode(HeaderItem(h))
  {
    hide Encode, Decode, Fits, Fields, HasFields, FromItems;
    if Writable(h) && data == Encode(HeaderItem(h)) {
      DecodeEncode(HeaderItem(h));
      FieldsRead(h);
    }
    if ReadHeader(data) == Some(h) {
      EncodeDecode(data);
      FieldsWritten(Decode(data).value.items);
    }
  }

  /** The fields in bytes, in their order: hashes behind 0xa0, the author behind 0x94 and the bloom behind its length in two
    bytes. */
  function FieldBytes(h: Header): (fields: seq<Bytes>)
    ensures |fields| == 13
  {
    [[0xa0] + h.parentHash, [0xa0] + h.sha3Uncles, [0x94] + h.author, [0xa0] + h.stateRoot, [0xa0] + h.transactionsRoot,
     [0xa0] + h.receiptsRoot, [0xb9, 1, 0] + h.logBloom, Number(h.difficulty), Number(h.number),
     Number(h.gasLimit), Number(h.gasUsed), Number(h.timestamp), Encode(Data(h.extraData))]
  }

  function Number(n: nat): Bytes {
    Encode(Data(ToBigEndian(n)))
  }

  /** A header is the list of these, and then of the items of the seal. */
  lemma HeaderInBytes(h: Header, cuts: seq<Bytes>)
    requires Fits(HeaderItem(h)) && Payload(Encode(HeaderItem(h))).Ok?
    requires Split(Payload(Encode(HeaderItem(h))).value) == Ok(cuts)
    ensures cuts == FieldBytes(h) + Encodings(h.seal)
  {
    CutsOfHeader(h, cuts);
    hide Encode, Fits, Payload, Split, Fields, Encodings, FieldBytes;
    FieldsInBytes(h);
    forall i | 0 <= i < |cuts|
      ensures cuts[i] == (FieldBytes(h) + Encodings(h.seal))[i]
    {
      if i < 13 {
        assert Encodings(Fields(h))[i] == Encode(Fields(h)[i]);
      }
    }
  }

  lemma FieldsInBytes(h: Header)
    ensures |Fields(h)| == 13 && Encodings(Fields(h)) == FieldBytes(h)
  {
    hide Encode, ToBigEndian, Encodings;
    HashBytes(h.parentHash);
    HashBytes(h.sha3Uncles);
    HashBytes(h.stateRoot);
    HashBytes(h.transactionsRoot);
    HashBytes(h.receiptsRoot);
    AddressBytes(h.author);
    BloomBytes(h.logBloom);
  }

  lemma CutsOfHeader(h: Header, cuts: seq<Bytes>)
    requires Fits(HeaderItem(h)) && Payload(Encode(HeaderItem(h))).Ok?
    requires Split(Payload(Encode(HeaderItem(h))).value) == Ok(cuts)
    ensures cuts == Encodings(Fields(h) + h.seal)
  {
    hide Encode, Payload, Split, Fields, EncodeAll, Encodings;
    var items := Fields(h) + h.seal;
    ItemsFit(items);
    ViewOfEncoding(List(items));
    SplitEncodeAll(items);
  }

  lemma ItemsFit(items: seq<Item>)
    requires Fits(List(items))
    ensures forall i :: 0 <= i < |items| ==> Fits(items[i])
  {
    hide EncodeAll;
  }

  lemma HashBytes(h: Hash)
    ensures Encode(Data(h)) == [0xa0] + h
  {
    DataLayout(h);
    var d := Encode(Data(h));
    assert d == [d[0]] + d[1..];
  }

  lemma AddressBytes(a: Address)
    ensures Encode(Data(a)) == [0x94] + a
  {
    DataLayout(a);
    var d := Encode(Data(a));
    assert d == [d[0]] + d[1..];
  }

  lemma BloomBytes(b: Bloom)
    ensures Encode(Data(b)) == [0xb9, 1, 0] + b
  {
    assert ToBigEndian(1) == [] + [1] && ToBigEndian(256) == ToBigEndian(1) + [0];
    assert ToBigEndian(256) == [1, 0];
    assert Rlp.Header(256, DATA_START) == [0xb9, 1, 0];
  }

  /** Without the seal, two headers with the same encoding are the same. */
  lemma SameUnsealed(hash: HashFn, a: Header, b: Header)
    requires Fits(Unsealed(a)) && Fits(Unsealed(b))
    requires CollisionFree(hash, iset{Encode(Unsealed(a)), Encode(Unsealed(b))})
    requires hash(Encode(Unsealed(a))) == hash(Encode(Unsealed(b)))
    ensures a.(seal := b.seal) == b
  {
    hide Encode, ToBigEndian, FromBigEndian, Fits, Fields;
    EncodeInjective(Unsealed(a), Unsealed(b));
    SameFields(a, b);
  }

  lemma SameFields(a: Header, b: Header)
    requires Fields(a) == Fields(b)
    ensures a.(seal := b.seal) == b
  {
    var x, y := Fields(a), Fields(b);
    assert forall i :: 0 <= i < 13 ==> x[i] == y[i];
    assert x[0] == y[0] && x[1] == y[1] && x[2] == y[2] && x[3] == y[3] && x[4] == y[4] && x[5] == y[5] && x[6] == y[6];
    assert x[7] == y[7] && x[8] == y[8] && x[9] == y[9] && x[10] == y[10] && x[11] == y[11] && x[12] == y[12];
    BigEndianRoundTrip(a.difficulty);
    BigEndianRoundTrip(b.difficulty);
    BigEndianRoundTrip(a.number);
    BigEndianRoundTrip(b.number);
    BigEndianRoundTrip(a.gasLimit);
    BigEndianRoundTrip(b.gasLimit);
    BigEndianRoundTrip(a.gasUsed);
    BigEndianRoundTrip(b.gasUsed);
    BigEndianRoundTrip(a.timestamp);
    BigEndianRoundTrip(b.timestamp);
  }

  // ---------------------------------------------------------------- a new header

  /** What transactions see of the block they are in. */
  datatype Env = Env(author: Address, number: nat, timestamp: nat, difficulty: VmCode.Word, gasLimit: VmCode.Word)

  function Surroundings(h: Header): Env {
    Env(h.author, h.number, h.timestamp, h.difficulty, h.gasLimit)
  }

  /** What the seal engine looks at. */
  function Sketch(hash: HashFn, h: Header): SealEngine.Header {
    SealEngine.Header(HashOf(hash, h), h.parentHash, h.sha3Uncles != hash(Encode(List([]))), h.number, h.timestamp,
      h.difficulty, h.gasLimit, h.gasUsed, h.extraData)
  }

  /** The header of a new block: cleared, with its author and time, and the rest taken from the block before. */
  function Fresh(hash: HashFn, params: SealEngine.Params, author: Address, timestamp: nat, previous: Header): Header
    requires SealEngine.Usable(params)
  {
    var time := if timestamp < previous.timestamp + 1 then previous.timestamp + 1 else timestamp;
    var own := SealEngine.Header(ZERO_HASH, ZERO_HASH, false, 0, time, 0, 0, 0, []);
    var child := SealEngine.Child(params, own, Sketch(hash, previous));
    var emptyTrie := hash(Encode(Data([])));
    Header(child.parentHash, hash(Encode(List([]))), author, previous.stateRoot, emptyTrie, emptyTrie, NO_BLOOM,
      child.difficulty, child.number, child.gasLimit, 0, time, [], [])
  }

  /** What a header keeps of how it was made from the block before. */
  ghost predicate MadeFrom(hash: HashFn, params: SealEngine.Params, previous: Header, h: Header)
    requires SealEngine.Usable(params)
  {
    && h.timestamp > previous.timestamp
    && Surroundings(h) == Surroundings(Fresh(hash, params, h.author, h.timestamp, previous))
  }

  /** In full: no uncles, transactions or receipts, the state of the block before, and the time asked for unless the block
    before is as late. */
  lemma FreshInFull(hash: HashFn, params: SealEngine.Params, author: Address, timestamp: nat, previous: Header)
    requires SealEngine.Usable(params)
    ensures var h := Fresh(hash, params, author, timestamp, previous);
      && h.timestamp == (if timestamp > previous.timestamp then timestamp else previous.timestamp + 1)
      && h.author == author && h.number == previous.number + 1 && h.parentHash == HashOf(hash, previous)
      && h.stateRoot == previous.stateRoot && h.sha3Uncles == hash([0xc0])
      && h.transactionsRoot == hash([0x80]) && h.receiptsRoot == hash([0x80])
      && h.gasUsed == 0 && h.extraData == [] && h.seal == [] && (forall i :: 0 <= i < 256 ==> h.logBloom[i] == 0)
      && h.gasLimit == SealEngine.GasLimit(params, previous.gasLimit, 0)
      && SealEngine.Difficulty(params, h.number, h.timestamp, Sketch(hash, previous)) == Some(h.difficulty)
  {
    hide SealEngine.GasLimit, SealEngine.Difficulty, HashOf;
    var time := if timestamp > previous.timestamp then timestamp else previous.timestamp + 1;
    SealEngine.ChildInFull(params, SealEngine.Header(ZERO_HASH, ZERO_HASH, false, 0, time, 0, 0, 0, []), Sketch(hash, previous));
    assert Encode(List([])) == [0xc0] && Encode(Data([])) == [0x80];
  }

  lemma FreshMade(hash: HashFn, params: SealEngine.Params, author: Address, timestamp: nat, previous: Header)
    requires SealEngine.Usable(params)
    ensures var h := Fresh(hash, params, author, timestamp, previous);
      MadeFrom(hash, params, previous, h) && h.number == previous.number + 1
  {
    hide HashOf, SealEngine.Difficulty, SealEngine.GasLimit;
  }
}
