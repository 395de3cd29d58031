/** Reading the items of a list: items(), operator[] with its cache, and the iterator
  (libdevcore/RLP.cpp:55-104, 215-226; RLP.h:124-167, 342-348).

  A view is over a list whose items can all be cut; `cuts` names them. The payload is what payload() returns on
  every call. */
module RlpView {
  import opened Bytes
  import opened Rlp

  const SIZE_MAX := 0xFFFF_FFFF_FFFF_FFFF

  /** The payload of a list view is cut into these items. */
  ghost predicate CutInto(payload: Bytes, cuts: seq<Bytes>) {
    Split(payload) == Ok(cuts)
  }

  /** Where item i begins in the payload; for i past the last item, where the payload ends. */
  function Offset(cuts: seq<Bytes>, i: nat): nat
    requires i <= |cuts|
  {
    if i == 0 then 0 else |cuts[0]| + Offset(cuts[1..], i - 1)
  }

  lemma {:induction false} OffsetStep(cuts: seq<Bytes>, i: nat)
    requires i < |cuts|
    ensures Offset(cuts, i + 1) == Offset(cuts, i) + |cuts[i]|
  {
    if i > 0 {
      OffsetStep(cuts[1..], i - 1);
    }
  }

  lemma CutFirst(payload: Bytes, cuts: seq<Bytes>)
    requires CutInto(payload, cuts)
    ensures payload == [] <==> cuts == []
    ensures payload == [] ==> SizeAsEncoded(payload) == Ok(0)
    ensures payload != [] ==>
      && cuts[0] != [] && |cuts[0]| <= |payload| && cuts[0] == payload[..|cuts[0]|]
      && SizeAsEncoded(payload) == Ok(|cuts[0]|)
      && CutInto(payload[|cuts[0]|..], cuts[1..])
  {
    if payload != [] {
      var size := SizeAsEncoded(payload).value;
      var rest := Split(payload[size..]).value;
      assert cuts == [payload[..size]] + rest;
      assert cuts[1..] == rest;
    }
  }

  /** From the offset of item i on, the payload is cut into the remaining items. */
  lemma {:induction false} CutFrom(payload: Bytes, cuts: seq<Bytes>, i: nat)
    requires CutInto(payload, cuts) && i <= |cuts|
    ensures Offset(cuts, i) <= |payload| && CutInto(payload[Offset(cuts, i)..], cuts[i..])
  {
    hide SizeAsEncoded;
    if i == 0 {
      assert payload[0..] == payload && cuts[0..] == cuts;
    } else {
      CutFirst(payload, cuts);
      CutFrom(payload[|cuts[0]|..], cuts[1..], i - 1);
      DropTwice(payload, |cuts[0]|, Offset(cuts[1..], i - 1));
      DropTwice(cuts, 1, i - 1);
    }
  }

  lemma DropTwice<T>(s: seq<T>, a: nat, b: nat)
    requires a + b <= |s|
    ensures s[a..][b..] == s[a + b..]
  {
  }

  /** What the size check finds at the offset of item i, or at the end. */
  lemma CutAt(payload: Bytes, cuts: seq<Bytes>, i: nat)
    requires CutInto(payload, cuts) && i <= |cuts|
    ensures var rest := if Offset(cuts, i) <= |payload| then payload[Offset(cuts, i)..] else [];
      var item := if i < |cuts| then cuts[i] else [];
      && Offset(cuts, i) + |item| <= |payload|
      && SizeAsEncoded(rest) == Ok(|item|) && rest[..|item|] == item && (i < |cuts| ==> item != [])
  {
    CutFrom(payload, cuts, i);
    CutFirst(payload[Offset(cuts, i)..], cuts[i..]);
    if i < |cuts| {
      assert cuts[i..][0] == cuts[i];
    }
  }

  /** Behind item i begins item i + 1, or nothing is left. */
  lemma NextCut(payload: Bytes, cuts: seq<Bytes>, i: nat)
    requires CutInto(payload, cuts) && i < |cuts|
    ensures Offset(cuts, i) + |cuts[i]| == Offset(cuts, i + 1) <= |payload|
    ensures var rest := payload[Offset(cuts, i + 1)..];
      var next := if i + 1 < |cuts| then cuts[i + 1] else [];
      && (rest == [] <==> i + 1 == |cuts|) && |next| <= |rest|
      && SizeAsEncoded(rest) == Ok(|next|) && rest[..|next|] == next
      && (i + 1 < |cuts| ==> Offset(cuts, i + 1) + |next| == Offset(cuts, i + 2))
  {
    OffsetStep(cuts, i);
    CutFrom(payload, cuts, i + 1);
    CutAt(payload, cuts, i + 1);
    if i + 1 < |cuts| {
      OffsetStep(cuts, i + 1);
    } else {
      CutFirst(payload[Offset(cuts, i + 1)..], cuts[i + 1..]);
    }
  }

  lemma {:induction false} FewCuts(payload: Bytes, cuts: seq<Bytes>)
    requires CutInto(payload, cuts)
    ensures |cuts| <= |payload|
  {
    CutFirst(payload, cuts);
    if payload != [] {
      FewCuts(payload[|cuts[0]|..], cuts[1..]);
    }
  }

  /** items(): the number of items in the list. */
  method ItemCount(payload: Bytes, ghost cuts: seq<Bytes>) returns (count: nat)
    requires CutInto(payload, cuts)
    ensures count == |cuts|
  {
    var d := payload;
    count := 0;
    ghost var left := cuts;
    while d != []
      invariant CutInto(d, left) && count + |left| == |cuts|
      decreases |d|
    {
      CutFirst(d, left);
      d := d[SizeAsEncoded(d).value..];
      left := left[1..];
      count := count + 1;
    }
  }

  /** An RLP object over a list, with the cache of the item read last. */
  class View {
    const payload: Bytes
    var lastIndex: nat
    var lastEnd: nat
    var lastItem: Bytes
    ghost const cuts: seq<Bytes>

    /** Either nothing was read yet, or the cache describes item lastIndex, or it ran off the end. */
    ghost predicate Valid()
      reads this
    {
      && CutInto(payload, cuts) && |cuts| < SIZE_MAX
      && (|| (lastIndex == SIZE_MAX && lastEnd == 0 && lastItem == [])
          || (lastIndex < |cuts| && lastItem == cuts[lastIndex] && lastEnd == Offset(cuts, lastIndex + 1))
          || (lastIndex == |cuts| && lastItem == [] && lastEnd == Offset(cuts, |cuts|)))
    }

    constructor (data: Bytes)
      requires IsList(data) && Payload(data).Ok? && Split(Payload(data).value).Ok? && |data| <= SIZE_MAX
      ensures Valid() && Payload(data) == Ok(payload) && Split(payload) == Ok(cuts)
    {
      payload, lastIndex, lastEnd, lastItem := Payload(data).value, SIZE_MAX, 0, [];
      cuts := Split(Payload(data).value).value;
      FewCuts(Payload(data).value, Split(Payload(data).value).value);
    }

    /** operator[]: item i, or the null view. The earlier calls, in whatever order, do not matter. */
    method At(i: nat) returns (item: Bytes)
      requires Valid() && i <= SIZE_MAX
      modifies this
      ensures Valid()
      ensures item == if i < |cuts| then cuts[i] else []
    {
      if i < lastIndex {
        Restart();
      }
      while lastIndex < i && lastItem != []
        invariant Valid() && (i < |cuts| ==> lastIndex <= i)
        decreases |cuts| + 1 - lastIndex
      {
        Advance();
      }
      CutAt(payload, cuts, if lastIndex <= |cuts| then lastIndex else 0);
      item := lastItem;
    }

    /** Makes the first item the cached one. */
    method Restart()
      requires Valid()
      modifies this
      ensures Valid() && lastIndex == 0
    {
      CutFirst(payload, cuts);
      if cuts != [] {
        OffsetStep(cuts, 0);
      }
      lastEnd := SizeAsEncoded(payload).value;
      lastItem := payload[..lastEnd];
      lastIndex := 0;
    }

    /** Moves the cache on to the next item, or past the end. */
    method Advance()
      requires Valid() && lastIndex < SIZE_MAX && lastItem != []
      modifies this
      ensures Valid() && lastIndex == old(lastIndex) + 1 <= |cuts|
    {
      NextCut(payload, cuts, lastIndex);
      lastItem := payload[lastEnd..];
      lastItem := lastItem[..SizeAsEncoded(lastItem).value];
      lastEnd := lastEnd + |lastItem|;
      lastIndex := lastIndex + 1;
    }
  }

  /** The iterator over a list: a window on the payload and the number of bytes behind it. */
  class Iterator {
    const payload: Bytes
    var start: nat
    var size: nat
    var remaining: nat
    ghost const cuts: seq<Bytes>
    ghost var index: nat

    /** The window is on item `index`; past the last item it is the empty window at the end. */
    ghost predicate Valid()
      reads this
    {
      && CutInto(payload, cuts) && index <= |cuts|
      && start == Offset(cuts, index)
      && size == (if index < |cuts| then |cuts[index]| else 0)
      && start + size + remaining == |payload|
    }

    /** Comparison with end(): the empty window behind the payload. */
    predicate AtEnd()
      reads this
    {
      start == |payload| && size == 0
    }

    /** begin() */
    constructor (data: Bytes)
      requires IsList(data) && Payload(data).Ok? && Split(Payload(data).value).Ok?
      ensures Valid() && index == 0 && Payload(data) == Ok(payload) && Split(payload) == Ok(cuts)
    {
      var p := Payload(data).value;
      var first := SizeAsEncoded(p).value;
      CutFirst(p, Split(p).value);
      payload, cuts := p, Split(p).value;
      start, size, remaining, index := 0, first, |p| - first, 0;
    }

    method Current() returns (item: Bytes)
      requires Valid() && !AtEnd()
      ensures index < |cuts| && item == cuts[index]
    {
      EndIsPastLast();
      CutAt(payload, cuts, index);
      item := payload[start..start + size];
    }

    /** operator++ */
    method Next()
      requires Valid() && !AtEnd()
      modifies this`start, this`size, this`remaining, this`index
      ensures Valid() && index == old(index) + 1
    {
      hide SizeAsEncoded, Split;
      EndIsPastLast();
      NextCut(payload, cuts, index);
      start := start + size;
      if remaining > 0 {
        size := SizeAsEncoded(payload[start..]).value;
        remaining := remaining - (if remaining < size then remaining else size);
      } else {
        size := 0;
      }
      index := index + 1;
    }

    /** The iterator compares equal to end() exactly when it has passed every item. */
    lemma EndIsPastLast()
      requires Valid()
      ensures AtEnd() <==> index == |cuts|
    {
      CutFrom(payload, cuts, index);
      CutAt(payload, cuts, index);
    }
  }

  /** On an encoded list the cuts are the encodings of the children, so r[i] is child i. */
  lemma CutsOfEncoding(item: Item)
    requires item.List? && Fits(item)
    ensures var d := Encode(item);
      IsList(d) && Payload(d).Ok? && Split(Payload(d).value) == Ok(Encodings(item.items))
  {
    ViewOfEncoding(item);
    SplitEncodeAll(item.items);
  }
}
