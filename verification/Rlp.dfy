/** Recursive Linear-Prefix data (libdevcore/RLP.h, RLP.cpp; Appendix B of the Yellow Paper).

  `Item` is the tree an RLP view stands for and `Encode` the recursive encoder. The decoder below it works on
  bytes and makes the strict checks of class RLP, in the same order. */
module Rlp {
  import opened Bytes

  datatype Item = Data(bytes: Bytes) | List(items: seq<Item>)

  datatype Error = BadRlp | OversizeRlp | UndersizeRlp

  datatype Result<+T> = Ok(value: T) | Err(error: Error) {
    predicate IsFailure() { Err? }
    function PropagateFailure<U>(): Result<U> requires Err? { Err(error) }
    function Extract(): T requires Ok? { value }
  }

  const DATA_START := 0x80
  const LIST_START := 0xc0
  /** Payloads shorter than this have their length in the first byte. */
  const IMMEDIATE_COUNT := 56
  const DATA_LONG := 0xb7
  const LIST_LONG := 0xf7
  /** length() rejects anything that could overflow size_t once the header is added. */
  const LENGTH_LIMIT := 0xFFFF_FFFF_FFFF_FFFF - 0x100

  // ---------------------------------------------------------------- encoding

  /** The header of a payload of n bytes. A count that needs more than eight bytes has no header: the source
    throws there, and `Fits` keeps such counts out of every statement below. */
  function Header(n: nat, start: Byte): Bytes
    requires start == DATA_START || start == LIST_START
  {
    if n < IMMEDIATE_COUNT then [start + n]
    else
      var digits := ToBigEndian(n);
      if |digits| <= 8 then [start + IMMEDIATE_COUNT - 1 + |digits|] + digits else []
  }

  function EncodeData(s: Bytes): Bytes {
    if |s| == 1 && s[0] < DATA_START then s else Header(|s|, DATA_START) + s
  }

  function Encode(item: Item): Bytes {
    match item
    case Data(s) => EncodeData(s)
    case List(items) => var payload := EncodeAll(items); Header(|payload|, LIST_START) + payload
  }

  function EncodeAll(items: seq<Item>): Bytes {
    if items == [] then [] else Encode(items[0]) + EncodeAll(items[1..])
  }

  /** Every payload in the tree is short enough for the decoder. */
  predicate Fits(item: Item) {
    match item
    case Data(s) => |s| < LENGTH_LIMIT
    case List(items) => |EncodeAll(items)| < LENGTH_LIMIT && forall i :: 0 <= i < |items| ==> Fits(items[i])
  }

  // ---------------------------------------------------------------- class RLP, read-only part

  /** requireGood: a single byte below 0x80 must stand for itself. */
  predicate Good(d: Bytes) {
    d != [] && (d[0] == DATA_START + 1 ==> |d| >= 2 && d[1] >= DATA_START)
  }

  predicate IsData(d: Bytes) { d != [] && d[0] < LIST_START }
  predicate IsList(d: Bytes) { d != [] && d[0] >= LIST_START }
  predicate IsSingleByte(d: Bytes) { d != [] && d[0] < DATA_START }
  predicate IsEmpty(d: Bytes) { d != [] && (d[0] == DATA_START || d[0] == LIST_START) }

  function LengthSize(d: Bytes): nat {
    if IsData(d) && d[0] > DATA_LONG then d[0] - DATA_LONG
    else if IsList(d) && d[0] > LIST_LONG then d[0] - LIST_LONG
    else 0
  }

  function PayloadOffset(d: Bytes): nat {
    if IsSingleByte(d) then 0 else 1 + LengthSize(d)
  }

  /** length(): the payload length the header announces. */
  function Length(d: Bytes): Result<nat> {
    if d == [] then Ok(0)
    else if !Good(d) then Err(BadRlp)
    else if d[0] < DATA_START then Ok(1)
    else if d[0] <= DATA_LONG then Ok(d[0] - DATA_START)
    else if LIST_START <= d[0] <= LIST_LONG then Ok(d[0] - LIST_START)
    else
      var digits := LengthSize(d);
      if |d| <= digits then Err(BadRlp)
      else if d[1] == 0 then Err(BadRlp)
      else
        var n := FromBigEndian(d[1..1 + digits]);
        if n < IMMEDIATE_COUNT then Err(BadRlp)
        else if n >= LENGTH_LIMIT then Err(UndersizeRlp)
        else Ok(n)
  }

  function ActualSize(d: Bytes): (size: Result<nat>)
    ensures d != [] && size.Ok? ==> size.value >= 1
  {
    if d == [] then Ok(0)
    else if IsSingleByte(d) then Ok(1)
    else
      var length :- Length(d);
      Ok(PayloadOffset(d) + length)
  }

  /** The constructor under VeryStrict: the bytes are exactly one item. */
  function StrictSize(d: Bytes): Result<nat> {
    var size :- ActualSize(d);
    if size < |d| then Err(OversizeRlp)
    else if size > |d| then Err(UndersizeRlp)
    else Ok(size)
  }

  /** sizeAsEncoded: the size of the item that starts the bytes. */
  function SizeAsEncoded(d: Bytes): (size: Result<nat>)
    ensures size.Ok? ==> size.value <= |d| && (d != [] ==> size.value >= 1)
  {
    var size :- ActualSize(d);
    if size > |d| then Err(UndersizeRlp) else Ok(size)
  }

  function Payload(d: Bytes): (payload: Result<Bytes>)
    ensures payload.Ok? && IsList(d) ==> |payload.value| < |d|
  {
    var length :- Length(d);
    if length > |d| then Err(BadRlp)
    // cropped() yields nothing when the range leaves the data
    else if PayloadOffset(d) + length > |d| then Ok([])
    else Ok(d[PayloadOffset(d)..PayloadOffset(d) + length])
  }

  /** The item encodings a payload is made of, as items(), operator[] and the iterator cut it. */
  function Split(payload: Bytes): Result<seq<Bytes>>
    decreases |payload|
  {
    if payload == [] then Ok([])
    else
      var size :- SizeAsEncoded(payload);
      var rest :- Split(payload[size..]);
      Ok([payload[..size]] + rest)
  }

  /** Reads the whole tree; fails where the strict view of any nested item would throw. */
  function Decode(d: Bytes): Result<Item>
    decreases |d|, 0
  {
    if d == [] then Err(BadRlp)
    else
      var _ :- StrictSize(d);
      var payload :- Payload(d);
      if IsData(d) then Ok(Data(payload))
      else
        var items :- DecodeAll(payload);
        Ok(List(items))
  }

  function DecodeAll(payload: Bytes): Result<seq<Item>>
    decreases |payload|, 1
  {
    if payload == [] then Ok([])
    else
      var size :- SizeAsEncoded(payload);
      var first :- Decode(payload[..size]);
      var rest :- DecodeAll(payload[size..]);
      Ok([first] + rest)
  }

  // ---------------------------------------------------------------- decode after encode

  lemma HeaderRead(n: nat, start: Byte, rest: Bytes)
    requires start == DATA_START || start == LIST_START
    requires n < LENGTH_LIMIT
    requires start == DATA_START && n == 1 ==> rest != [] && rest[0] >= DATA_START
    ensures var d := Header(n, start) + rest;
      d != [] && d[0] >= start && (IsList(d) <==> start == LIST_START)
      && Length(d) == Ok(n) && PayloadOffset(d) == |Header(n, start)|
  {
    var d := Header(n, start) + rest;
    if n >= IMMEDIATE_COUNT {
      var digits := ToBigEndian(n);
      Power256Eight();
      BigEndianLength(n, 8);
      BigEndianRoundTrip(n);
      assert d[1..1 + |digits|] == digits;
    }
  }

  lemma SingleByteRead(s: Bytes)
    requires |s| == 1 && s[0] < DATA_START
    ensures StrictSize(s) == Ok(1) && Payload(s) == Ok(s)
  {
    assert s[0..1] == s;
    assert Length(s) == Ok(1);
  }

  lemma PayloadRead(start: Byte, s: Bytes)
    requires start == DATA_START || start == LIST_START
    requires |s| < LENGTH_LIMIT
    requires start == DATA_START && |s| == 1 ==> s[0] >= DATA_START
    ensures var d := Header(|s|, start) + s;
      StrictSize(d) == Ok(|d|) && Payload(d) == Ok(s)
  {
    var d := Header(|s|, start) + s;
    HeaderRead(|s|, start, s);
    assert d[|Header(|s|, start)|..|Header(|s|, start)| + |s|] == s;
  }

  /** The size of an item can be read off its encoding whatever follows it. */
  lemma EncodingSize(item: Item, rest: Bytes)
    requires Fits(item)
    ensures Encode(item) != []
    ensures ActualSize(Encode(item) + rest) == Ok(|Encode(item)|)
  {
    match item
    case Data(s) =>
      if |s| == 1 && s[0] < DATA_START {
      } else {
        HeaderRead(|s|, DATA_START, s + rest);
        assert Encode(item) + rest == Header(|s|, DATA_START) + (s + rest);
      }
    case List(items) =>
      var payload := EncodeAll(items);
      HeaderRead(|payload|, LIST_START, payload + rest);
      assert Encode(item) + rest == Header(|payload|, LIST_START) + (payload + rest);
  }

  /** Which bytes a string becomes, in numbers: a byte up to 0x7f stands for itself, up to 55 bytes come behind one byte from
    0x80 on, and more come behind the count of the bytes of their length and that length without a leading zero. */
  lemma DataLayout(s: Bytes)
    requires |s| < LENGTH_LIMIT
    ensures var d := Encode(Data(s));
      && (|s| == 1 && s[0] <= 0x7f ==> d == s)
      && (|s| <= 55 && !(|s| == 1 && s[0] <= 0x7f) ==> |d| == 1 + |s| && d[0] == 0x80 + |s| && d[1..] == s)
      && (|s| >= 56 ==> LongLayout(d, 0xb7, s))
  {
    if |s| >= 56 {
      HeaderLayout(|s|, DATA_START, s);
    }
  }

  /** The same for a list of what its items become, from 0xc0 on. */
  lemma ListLayout(items: seq<Item>)
    requires |EncodeAll(items)| < LENGTH_LIMIT
    ensures var d, payload := Encode(List(items)), EncodeAll(items);
      && (|payload| <= 55 ==> |d| == 1 + |payload| && d[0] == 0xc0 + |payload| && d[1..] == payload)
      && (|payload| >= 56 ==> LongLayout(d, 0xf7, payload))
  {
    if |EncodeAll(items)| >= 56 {
      HeaderLayout(|EncodeAll(items)|, LIST_START, EncodeAll(items));
    }
  }

  ghost predicate LongLayout(d: Bytes, base: nat, payload: Bytes) {
    var k := |d| - |payload| - 1;
    && 1 <= k <= 8 && d[0] == base + k && d[1] != 0 && FromBigEndian(d[1..1 + k]) == |payload| && d[1 + k..] == payload
  }

  lemma HeaderLayout(n: nat, start: Byte, payload: Bytes)
    requires (start == 0x80 || start == 0xc0) && 56 <= n == |payload| < LENGTH_LIMIT
    ensures LongLayout(Header(n, start) + payload, start as int + 55, payload)
  {
    BigEndianRoundTrip(n);
    BigEndianLength(n, 8);
    Power256Eight();
    var d, k := Header(n, start) + payload, |ToBigEndian(n)|;
    assert d[1..1 + k] == ToBigEndian(n) && d[1 + k..] == payload;
  }

  /** Decoding an encoded tree gives the tree back. */
  lemma {:induction false} DecodeEncode(item: Item)
    requires Fits(item)
    ensures Decode(Encode(item)) == Ok(item)
    decreases item, 0
  {
    match item
    case Data(s) =>
      if |s| == 1 && s[0] < DATA_START {
        SingleByteRead(s);
      } else {
        HeaderRead(|s|, DATA_START, s);
        PayloadRead(DATA_START, s);
      }
    case List(items) =>
      HeaderRead(|EncodeAll(items)|, LIST_START, EncodeAll(items));
      PayloadRead(LIST_START, EncodeAll(items));
      DecodeAllEncodeAll(items);
  }

  lemma {:induction false} DecodeAllEncodeAll(items: seq<Item>)
    requires forall i :: 0 <= i < |items| ==> Fits(items[i])
    ensures DecodeAll(EncodeAll(items)) == Ok(items)
    decreases items, 1
  {
    if items != [] {
      var first := Encode(items[0]);
      var payload := EncodeAll(items);
      EncodingSize(items[0], EncodeAll(items[1..]));
      assert payload[..|first|] == first && payload[|first|..] == EncodeAll(items[1..]);
      DecodeEncode(items[0]);
      DecodeAllEncodeAll(items[1..]);
      assert [items[0]] + items[1..] == items;
    }
  }

  // ---------------------------------------------------------------- encode after decode

  /** A header the strict checks accept is the one the encoder writes. */
  lemma HeaderCanonical(d: Bytes)
    requires Length(d).Ok? && d != [] && !IsSingleByte(d)
    ensures Length(d).value < LENGTH_LIMIT
    ensures var start := if IsList(d) then LIST_START else DATA_START;
      |d| >= PayloadOffset(d) && d[..PayloadOffset(d)] == Header(Length(d).value, start)
  {
    if LengthSize(d) > 0 {
      var digits := d[1..1 + LengthSize(d)];
      BigEndianCanonical(digits);
      assert d[..PayloadOffset(d)] == [d[0]] + digits;
    } else {
      assert d[..1] == [d[0]];
    }
  }

  /** Whatever the decoder accepts re-encodes to exactly the same bytes. */
  lemma {:induction false} EncodeDecode(d: Bytes)
    requires Decode(d).Ok?
    ensures Fits(Decode(d).value)
    ensures Encode(Decode(d).value) == d
    decreases |d|, 0
  {
    var payload := Payload(d).value;
    if IsSingleByte(d) {
      assert payload == d;
    } else {
      HeaderCanonical(d);
      assert |d| == PayloadOffset(d) + Length(d).value;
      assert d == d[..PayloadOffset(d)] + payload;
      if IsList(d) {
        EncodeAllDecodeAll(payload);
      } else {
        DataCanonical(d);
      }
    }
  }

  /** The one-byte data that stands for itself is never written with a header. */
  lemma DataCanonical(d: Bytes)
    requires Length(d).Ok? && Payload(d).Ok? && IsData(d) && !IsSingleByte(d)
    requires |d| == PayloadOffset(d) + Length(d).value
    ensures var s := Payload(d).value; |s| == 1 ==> s[0] >= DATA_START
  {
    if Length(d).value == 1 {
      assert LengthSize(d) == 0;
    }
  }

  lemma EncodeAllCons(first: Item, rest: seq<Item>)
    ensures EncodeAll([first] + rest) == Encode(first) + EncodeAll(rest)
  {
    assert ([first] + rest)[1..] == rest;
  }

  lemma {:induction false} EncodeAllDecodeAll(payload: Bytes)
    requires DecodeAll(payload).Ok?
    ensures forall i :: 0 <= i < |DecodeAll(payload).value| ==> Fits(DecodeAll(payload).value[i])
    ensures EncodeAll(DecodeAll(payload).value) == payload
    decreases |payload|, 1
  {
    if payload != [] {
      var size := SizeAsEncoded(payload).value;
      var first, rest := Decode(payload[..size]).value, DecodeAll(payload[size..]).value;
      EncodeDecode(payload[..size]);
      EncodeAllDecodeAll(payload[size..]);
      assert DecodeAll(payload).value == [first] + rest;
      EncodeAllCons(first, rest);
      assert payload == payload[..size] + payload[size..];
    }
  }

  /** The length limit is exact: it decides whether the round trip holds. */
  lemma DecodeEncodeExactly(item: Item)
    ensures Decode(Encode(item)) == Ok(item) <==> Fits(item)
  {
    if Fits(item) {
      DecodeEncode(item);
    } else if Decode(Encode(item)) == Ok(item) {
      EncodeDecode(Encode(item));
    }
  }

  /** No accepted encoding is a proper prefix of another. */
  lemma PrefixFree(d: Bytes, rest: Bytes)
    requires Decode(d).Ok? && Decode(d + rest).Ok?
    ensures rest == []
  {
    EncodeDecode(d);
    EncodingSize(Decode(d).value, rest);
  }

  /** Different trees have different encodings. */
  lemma EncodeInjective(a: Item, b: Item)
    requires Fits(a) && Fits(b)
    requires Encode(a) == Encode(b)
    ensures a == b
  {
    DecodeEncode(a);
    DecodeEncode(b);
  }

  /** No item is longer than the list it is in. */
  lemma {:induction false} PartOfAll(items: seq<Item>, i: nat)
    requires i < |items|
    ensures |Encode(items[i])| <= |EncodeAll(items)|
  {
    if i > 0 {
      PartOfAll(items[1..], i - 1);
    }
  }

  lemma PartOfList(items: seq<Item>, i: nat)
    requires i < |items|
    ensures |Encode(items[i])| <= |Encode(List(items))|
    ensures items[i].Data? ==> |items[i].bytes| <= |Encode(items[i])|
  {
    PartOfAll(items, i);
  }

  // ---------------------------------------------------------------- the view agrees with the tree

  function Encodings(items: seq<Item>): (cuts: seq<Bytes>)
    ensures |cuts| == |items|
    ensures forall i :: 0 <= i < |items| ==> cuts[i] == Encode(items[i])
  {
    if items == [] then [] else [Encode(items[0])] + Encodings(items[1..])
  }

  /** What the accessors of an RLP view over an encoding report: its kind, its emptiness, its content. */
  lemma ViewOfEncoding(item: Item)
    requires Fits(item)
    ensures var d := Encode(item);
      && (IsData(d) <==> item.Data?) && (IsList(d) <==> item.List?)
      && (IsEmpty(d) <==> item == Data([]) || item == List([]))
      && Payload(d) == Ok(if item.Data? then item.bytes else EncodeAll(item.items))
  {
    match item
    case Data(s) =>
      if |s| == 1 && s[0] < DATA_START {
        SingleByteRead(s);
      } else {
        ViewOfHeaded(DATA_START, s);
      }
    case List(items) =>
      ViewOfHeaded(LIST_START, EncodeAll(items));
      if items != [] {
        EncodingSize(items[0], []);
      }
  }

  lemma ViewOfHeaded(start: Byte, s: Bytes)
    requires start == DATA_START || start == LIST_START
    requires |s| < LENGTH_LIMIT
    requires start == DATA_START && |s| == 1 ==> s[0] >= DATA_START
    ensures var d := Header(|s|, start) + s;
      (IsList(d) <==> start == LIST_START) && (IsData(d) <==> start == DATA_START)
      && (IsEmpty(d) <==> s == []) && Payload(d) == Ok(s)
  {
    HeaderRead(|s|, start, s);
    PayloadRead(start, s);
    HeaderEmpty(|s|, start);
  }

  lemma HeaderEmpty(n: nat, start: Byte)
    requires start == DATA_START || start == LIST_START
    requires n < LENGTH_LIMIT
    ensures Header(n, start) != [] && start <= Header(n, start)[0] < start + 0x40
    ensures Header(n, start)[0] == start <==> n == 0
  {
    Power256Eight();
    BigEndianLength(n, 8);
  }

  /** Cutting the payload of an encoded list gives back the encodings of its items, in order. */
  lemma {:induction false} SplitEncodeAll(items: seq<Item>)
    requires forall i :: 0 <= i < |items| ==> Fits(items[i])
    ensures Split(EncodeAll(items)) == Ok(Encodings(items))
  {
    if items != [] {
      var first := Encode(items[0]);
      var payload := EncodeAll(items);
      EncodingSize(items[0], EncodeAll(items[1..]));
      assert payload[..|first|] == first && payload[|first|..] == EncodeAll(items[1..]);
      SplitEncodeAll(items[1..]);
    }
  }
}
