/** The streaming encoder (libdevcore/RLP.h:362-454, RLP.cpp:228-345).

  Lists are begun with an item count and their headers are shifted in when the last item arrives. The
  functions give the effect of one call on the two fields; the class updates the fields the way the source does.
  `StreamingRefinesEncode` says that well-nested calls write what the recursive encoder writes. */
module RlpStream {
  import opened Bytes
  import opened Rlp

  /** One open list: the items it still waits for, and where its payload starts in the output. */
  datatype OpenList = OpenList(left: nat, start: nat)

  datatype State = State(out: Bytes, open: seq<OpenList>)

  predicate HasHeader(n: nat) { |ToBigEndian(n)| <= 8 }

  /** The start offsets are within the output and grow with the nesting. */
  predicate Valid(st: State) {
    && (forall i :: 0 <= i < |st.open| ==> st.open[i].start <= |st.out| && st.open[i].left > 0)
    && (forall i, j :: 0 <= i < j < |st.open| ==> st.open[i].start <= st.open[j].start)
  }

  /** noteAppended: `count` items have just been written; closes every list this completes. None is the exception. */
  function Note(st: State, count: nat): (result: Option<State>)
    requires Valid(st)
    ensures result.Some? ==> Valid(result.value)
    decreases |st.open|
  {
    if count == 0 || st.open == [] then Some(st)
    else
      var inner, outer := st.open[|st.open| - 1], st.open[..|st.open| - 1];
      if inner.left < count then None
      else if inner.left > count then Some(st.(open := outer + [OpenList(inner.left - count, inner.start)]))
      else
        var payload := st.out[inner.start..];
        if HasHeader(|payload|)
        then Note(State(st.out[..inner.start] + Header(|payload|, LIST_START) + payload, outer), 1)
        else None
  }

  function Written(st: State, bytes: Bytes): State {
    st.(out := st.out + bytes)
  }

  /** One call on the stream. */
  datatype Call = Append(data: Bytes) | AppendRaw(raw: Bytes, count: nat) | AppendList(count: nat)

  function Apply(call: Call, st: State): (result: Option<State>)
    requires Valid(st)
    ensures result.Some? ==> Valid(result.value)
  {
    match call
    case Append(data) =>
      if HasHeader(|data|) then Note(Written(st, EncodeData(data)), 1) else None
    case AppendRaw(raw, count) => Note(Written(st, raw), count)
    case AppendList(count) =>
      if count == 0 then Note(Written(st, [LIST_START]), 1)
      else Some(Enter(st, count))
  }

  function Enter(st: State, count: nat): State {
    st.(open := st.open + [OpenList(count, |st.out|)])
  }

  function ApplyAll(calls: seq<Call>, st: State): (result: Option<State>)
    requires Valid(st)
    ensures result.Some? ==> Valid(result.value)
  {
    if calls == [] then Some(st)
    else match Apply(calls[0], st)
      case None => None
      case Some(next) => ApplyAll(calls[1..], next)
  }

  /** Goes on with more calls unless an exception has ended the run. */
  function AndThen(result: Option<State>, calls: seq<Call>): Option<State>
    requires result.Some? ==> Valid(result.value)
  {
    match result
    case None => None
    case Some(st) => ApplyAll(calls, st)
  }

  // ---------------------------------------------------------------- well-nested calls

  /** What a caller writes: data, raw encodings of some items, or a list with its parts in between. */
  datatype Script = Put(data: Bytes) | PutRaw(items: seq<Item>) | Nest(parts: seq<Script>)

  /** The items a script contributes to the list it is written into. */
  function ItemsOf(script: Script): seq<Item> {
    match script
    case Put(data) => [Data(data)]
    case PutRaw(items) => items
    case Nest(parts) => [List(ItemsOfAll(parts))]
  }

  function ItemsOfAll(parts: seq<Script>): seq<Item> {
    if parts == [] then [] else ItemsOf(parts[0]) + ItemsOfAll(parts[1..])
  }

  function CallsOf(script: Script): seq<Call> {
    match script
    case Put(data) => [Append(data)]
    case PutRaw(items) => [AppendRaw(EncodeAll(items), |items|)]
    case Nest(parts) => [AppendList(|ItemsOfAll(parts)|)] + CallsOfAll(parts)
  }

  function CallsOfAll(parts: seq<Script>): seq<Call> {
    if parts == [] then [] else CallsOf(parts[0]) + CallsOfAll(parts[1..])
  }

  ghost predicate AllFit(items: seq<Item>) {
    forall i :: 0 <= i < |items| ==> Fits(items[i])
  }

  lemma {:induction false} ApplyAllConcat(a: seq<Call>, b: seq<Call>, st: State)
    requires Valid(st)
    ensures ApplyAll(a + b, st) == AndThen(ApplyAll(a, st), b)
  {
    if a == [] {
      assert a + b == b;
    } else {
      assert (a + b)[0] == a[0] && (a + b)[1..] == a[1..] + b;
      match Apply(a[0], st)
      case None =>
      case Some(next) => ApplyAllConcat(a[1..], b, next);
    }
  }

  lemma {:induction false} EncodeAllConcat(a: seq<Item>, b: seq<Item>)
    ensures EncodeAll(a + b) == EncodeAll(a) + EncodeAll(b)
  {
    if a == [] {
      assert a + b == b;
    } else {
      assert (a + b)[0] == a[0] && (a + b)[1..] == a[1..] + b;
      EncodeAllConcat(a[1..], b);
    }
  }

  /** A script without items leaves the stream alone. */
  lemma {:induction false} NothingWritten(parts: seq<Script>, st: State)
    requires Valid(st) && ItemsOfAll(parts) == []
    ensures ApplyAll(CallsOfAll(parts), st) == Some(st)
  {
    if parts != [] {
      assert ItemsOf(parts[0]) == [] && ItemsOfAll(parts[1..]) == [];
      assert parts[0] == PutRaw([]);
      assert Written(st, []) == st;
      assert Apply(AppendRaw([], 0), st) == Some(st);
      assert CallsOfAll(parts) == [AppendRaw([], 0)] + CallsOfAll(parts[1..]);
      NothingWritten(parts[1..], st);
    }
  }

  /** The item that completes a list shifts the header in and counts as one item outside. */
  lemma ListCloses(st: State, count: nat, payload: Bytes)
    requires Valid(st) && count > 0 && HasHeader(|payload|)
    ensures Note(Written(Enter(st, count), payload), count)
         == Note(Written(st, Header(|payload|, LIST_START) + payload), 1)
  {
    var inside := Written(Enter(st, count), payload);
    assert inside.open[..|inside.open| - 1] == st.open;
    assert inside.out[|st.out|..] == payload && inside.out[..|st.out|] == st.out;
    assert st.out + Header(|payload|, LIST_START) + payload == st.out + (Header(|payload|, LIST_START) + payload);
  }

  /** A well-nested script has the effect of writing the recursive encodings of its items in one go. */
  lemma {:induction false} ScriptWritesItems(script: Script, st: State)
    requires Valid(st) && AllFit(ItemsOf(script))
    ensures ApplyAll(CallsOf(script), st) == WriteItems(st, ItemsOf(script))
    decreases script, 0
  {
    match script
    case Put(data) =>
      EncodeOne(Data(data));
      assert Fits(ItemsOf(script)[0]);
      FitsHasHeader(|data|);
      ApplyOne(Append(data), st);
    case PutRaw(items) =>
      ApplyOne(AppendRaw(EncodeAll(items), |items|), st);
    case Nest(parts) =>
      NestWritesItem(parts, st);
  }

  lemma {:induction false} NestWritesItem(parts: seq<Script>, st: State)
    requires Valid(st) && AllFit([List(ItemsOfAll(parts))])
    ensures ApplyAll(CallsOf(Nest(parts)), st) == WriteItems(st, [List(ItemsOfAll(parts))])
    decreases parts, 2
  {
    var items := ItemsOfAll(parts);
    EncodeOne(List(items));
    assert Fits([List(items)][0]);
    FitsHasHeader(|EncodeAll(items)|);
    ApplyAllConcat([AppendList(|items|)], CallsOfAll(parts), st);
    ApplyOne(AppendList(|items|), st);
    if items == [] {
      assert Header(0, LIST_START) + [] == [LIST_START];
      var next := Note(Written(st, [LIST_START]), 1);
      if next.Some? {
        NothingWritten(parts, next.value);
      }
    } else {
      PartsWriteItems(parts, Enter(st, |items|));
      ListCloses(st, |items|, EncodeAll(items));
    }
  }

  lemma {:induction false} PartsWriteItems(parts: seq<Script>, st: State)
    requires Valid(st) && AllFit(ItemsOfAll(parts))
    requires st.open != [] && |ItemsOfAll(parts)| <= st.open[|st.open| - 1].left
    ensures ApplyAll(CallsOfAll(parts), st) == WriteItems(st, ItemsOfAll(parts))
    decreases parts, 1
  {
    if parts == [] {
      assert Written(st, []) == st;
    } else {
      var first, rest := ItemsOf(parts[0]), ItemsOfAll(parts[1..]);
      assert ItemsOfAll(parts) == first + rest;
      AllFitSplits(first, rest);
      FirstPartWritesItems(parts, st);
      if rest == [] {
        assert ItemsOfAll(parts) == first;
        NothingFollows(WriteItems(st, first), parts[1..]);
      } else {
        WriteItemsInTurn(st, first, rest);
        PartsWriteItems(parts[1..], WriteItems(st, first).value);
      }
    }
  }

  /** Writing the encodings of some items and announcing them together. */
  function WriteItems(st: State, items: seq<Item>): (result: Option<State>)
    requires Valid(st)
    ensures result.Some? ==> Valid(result.value)
  {
    Note(Written(st, EncodeAll(items)), |items|)
  }

  lemma WriteItemsInTurn(st: State, first: seq<Item>, rest: seq<Item>)
    requires Valid(st) && st.open != [] && rest != []
    requires |first| + |rest| <= st.open[|st.open| - 1].left
    ensures var next := WriteItems(st, first);
      next.Some? && next.value.open != [] && |rest| <= next.value.open[|next.value.open| - 1].left
      && WriteItems(next.value, rest) == WriteItems(st, first + rest)
  {
    EncodeAllConcat(first, rest);
    WrittenTwice(st, EncodeAll(first), EncodeAll(rest));
    TwoNotes(Written(st, EncodeAll(first)), EncodeAll(rest), |first|, |rest|);
  }

  lemma {:induction false} FirstPartWritesItems(parts: seq<Script>, st: State)
    requires Valid(st) && parts != [] && AllFit(ItemsOf(parts[0]))
    ensures var first := ItemsOf(parts[0]);
      ApplyAll(CallsOfAll(parts), st) == AndThen(WriteItems(st, first), CallsOfAll(parts[1..]))
    decreases parts, 0
  {
    ScriptWritesItems(parts[0], st);
    ApplyAllConcat(CallsOf(parts[0]), CallsOfAll(parts[1..]), st);
  }

  lemma NothingFollows(result: Option<State>, parts: seq<Script>)
    requires result.Some? ==> Valid(result.value)
    requires ItemsOfAll(parts) == []
    ensures AndThen(result, CallsOfAll(parts)) == result
  {
    if result.Some? {
      NothingWritten(parts, result.value);
    }
  }

  lemma WrittenTwice(st: State, a: Bytes, b: Bytes)
    ensures Written(Written(st, a), b) == Written(st, a + b)
  {
    assert st.out + a + b == st.out + (a + b);
  }

  lemma AllFitSplits(a: seq<Item>, b: seq<Item>)
    requires AllFit(a + b)
    ensures AllFit(a) && AllFit(b)
  {
    assert forall i :: 0 <= i < |a| ==> a[i] == (a + b)[i];
    assert forall i :: 0 <= i < |b| ==> b[i] == (a + b)[|a| + i];
  }

  lemma EncodeOne(item: Item)
    ensures EncodeAll([item]) == Encode(item)
  {
    assert EncodeAll([item]) == Encode(item) + EncodeAll([]);
  }

  /** Announcing items in two steps is announcing them together, while the list stays open in between. */
  lemma TwoNotes(st: State, more: Bytes, first: nat, second: nat)
    requires Valid(st) && st.open != [] && second > 0
    requires first + second <= st.open[|st.open| - 1].left
    ensures Note(st, first).Some? && Note(st, first).value.open != []
    ensures second <= Note(st, first).value.open[|Note(st, first).value.open| - 1].left
    ensures Note(Written(Note(st, first).value, more), second) == Note(Written(st, more), first + second)
  {
    var inner, outer := st.open[|st.open| - 1], st.open[..|st.open| - 1];
    if first > 0 {
      var next := Note(st, first).value;
      assert next.open == outer + [OpenList(inner.left - first, inner.start)];
      assert next.open[..|next.open| - 1] == outer;
    }
  }

  lemma FitsHasHeader(n: nat)
    requires n < LENGTH_LIMIT
    ensures HasHeader(n)
  {
    Power256Eight();
    BigEndianLength(n, 8);
  }

  lemma ApplyOne(call: Call, st: State)
    requires Valid(st)
    ensures ApplyAll([call], st) == Apply(call, st)
  {
    match Apply(call, st)
    case None =>
    case Some(next) => assert ApplyAll([call][1..], next) == Some(next);
  }

  /** The streaming encoder refines the recursive one: a script for one item leaves exactly its encoding. */
  lemma StreamingRefinesEncode(script: Script, item: Item)
    requires ItemsOf(script) == [item] && Fits(item)
    ensures ApplyAll(CallsOf(script), State([], [])) == Some(State(Encode(item), []))
  {
    ScriptWritesItems(script, State([], []));
    EncodeOne(item);
    assert [] + Encode(item) == Encode(item);
  }

  // ---------------------------------------------------------------- the class

  class Stream {
    var out: Bytes
    var listStack: seq<OpenList>

    /** The two fields as a value. */
    function Value(): State
      reads this
    {
      State(out, listStack)
    }

    constructor ()
      ensures Value() == State([], [])
    {
      out, listStack := [], [];
    }

    /** Writes the big-endian digits of value so that the last one lands at `last`. */
    method PutDigits(last: nat, value: nat)
      requires |ToBigEndian(value)| <= last + 1 && last < |out|
      modifies this`out
      ensures var size := |ToBigEndian(value)|;
        out == old(out)[..last + 1 - size] + ToBigEndian(value) + old(out)[last + 1..]
    {
      var b, rest := last as int, value;
      ghost var digits := ToBigEndian(value);
      while rest != 0
        invariant |ToBigEndian(rest)| <= b + 1 <= last + 1
        invariant |out| == |old(out)|
        invariant out[..b + 1] == old(out)[..b + 1] && out[last + 1..] == old(out)[last + 1..]
        invariant ToBigEndian(rest) + out[b + 1..last + 1] == digits
      {
        ghost var before := out;
        out := out[b := rest % 0x100];
        assert out[b..last + 1] == [rest % 0x100] + before[b + 1..last + 1];
        b := b - 1;
        rest := rest / 0x100;
      }
      assert out == out[..b + 1] + out[b + 1..last + 1] + out[last + 1..];
    }

    method PushInt(value: nat, size: nat)
      requires size == |ToBigEndian(value)| && size > 0
      modifies this`out
      ensures out == old(out) + ToBigEndian(value)
    {
      out := out + seq(size, _ => 0);
      PutDigits(|out| - 1, value);
    }

    /** Announces `count` written items and shifts in the header of every list they complete. */
    method NoteAppended(count: nat) returns (ok: bool)
      requires Valid(Value())
      modifies this
      ensures ok <==> Note(old(Value()), count).Some?
      ensures ok ==> Value() == Note(old(Value()), count).value
    {
      var itemCount := count;
      if itemCount == 0 {
        return true;
      }
      while |listStack| > 0
        invariant itemCount > 0 && Valid(Value())
        invariant Note(Value(), itemCount) == Note(old(Value()), count)
        decreases |listStack|
      {
        var top := listStack[|listStack| - 1];
        if top.left < itemCount {
          return false;
        }
        ghost var before := Value();
        listStack := listStack[..|listStack| - 1];
        if top.left - itemCount > 0 {
          listStack := listStack + [OpenList(top.left - itemCount, top.start)];
          return true;
        }
        var fits := ShiftHeaderIn(top.start);
        if !fits {
          return false;
        }
        StillValid(before, out);
        itemCount := 1;
      }
      return true;
    }

    /** Moves the list payload that starts at p up and writes its header in front of it. */
    method ShiftHeaderIn(p: nat) returns (ok: bool)
      requires p <= |out|
      modifies this`out
      ensures ok <==> HasHeader(|old(out)[p..]|)
      ensures ok ==> out == old(out)[..p] + Header(|old(out)[p..]|, LIST_START) + old(out)[p..]
    {
      var size := |out| - p;
      var digits := BytesRequired(size);
      ghost var front, payload := out[..p], out[p..];
      FewDigits(size);
      OpenGap(p, if size < IMMEDIATE_COUNT then 1 else 1 + digits);
      if size < IMMEDIATE_COUNT {
        out := out[p := LIST_START + size];
        assert out == front + [LIST_START + size] + payload;
      } else if LIST_LONG + digits <= 0xff {
        out := out[p := LIST_LONG + digits];
        PutDigits(p + digits, size);
        assert out[..p + 1] == front + [LIST_LONG + digits];
        assert out == front + ([LIST_LONG + digits] + ToBigEndian(size)) + payload;
      } else {
        return false;
      }
      return true;
    }

    /** Grows the output and moves everything from p on up by `width` bytes. */
    method OpenGap(p: nat, width: nat)
      requires p <= |out|
      modifies this`out
      ensures |out| == |old(out)| + width
      ensures out[..p] == old(out)[..p] && out[p + width..] == old(out)[p..]
    {
      var oldSize := |out|;
      out := out + seq(width, _ => 0);
      out := out[..p + width] + out[p..oldSize];
    }

    /** append(bytesConstRef): one data item. */
    method Append(data: Bytes) returns (ok: bool)
      requires Valid(Value()) && HasHeader(|data|)  // sizes are 64-bit
      modifies this
      ensures ok <==> Apply(Call.Append(data), old(Value())).Some?
      ensures ok ==> Value() == Apply(Call.Append(data), old(Value())).value
    {
      ghost var before := Value();
      if |data| == 1 && data[0] < DATA_START {
        out := out + [data[0]];
      } else {
        PushDataHeader(|data|);
        out := out + data;
        assert out == before.out + (Header(|data|, DATA_START) + data);
      }
      assert Value() == Written(before, EncodeData(data));
      ok := NoteAppended(1);
    }

    /** append(bigint): an integer goes out as the data of its shortest big-endian form. */
    method AppendInt(value: nat) returns (ok: bool)
      requires Valid(Value()) && HasHeader(|ToBigEndian(value)|)
      modifies this
      ensures ok <==> Apply(Call.Append(ToBigEndian(value)), old(Value())).Some?
      ensures ok ==> Value() == Apply(Call.Append(ToBigEndian(value)), old(Value())).value
    {
      ghost var before := Value();
      EncodeInt(value);
      if value == 0 {
        out := out + [DATA_START];
      } else if value < DATA_START {
        out := out + [value];
      } else {
        var size := BytesRequired(value);
        PushDataHeader(size);
        FewDigits(value);
        PushInt(value, size);
        assert out == before.out + (Header(size, DATA_START) + ToBigEndian(value));
      }
      assert Value() == Written(before, EncodeData(ToBigEndian(value)));
      ok := NoteAppended(1);
    }

    /** The header of a data item of `size` bytes. */
    method PushDataHeader(size: nat)
      requires HasHeader(size)
      modifies this`out
      ensures out == old(out) + Header(size, DATA_START)
    {
      FewDigits(size);
      if size < IMMEDIATE_COUNT {
        out := out + [DATA_START + size];
      } else {
        var _ := PushCount(size, DATA_LONG);
      }
    }

    method PushCount(count: nat, base: Byte) returns (ok: bool)
      requires count > 0 && (base == DATA_LONG || base == LIST_LONG)
      modifies this`out
      ensures ok <==> base + |ToBigEndian(count)| <= 0xff
      ensures ok ==> out == old(out) + ([base + |ToBigEndian(count)|] + ToBigEndian(count))
    {
      var size := BytesRequired(count);
      if size + base > 0xff {
        return false;
      }
      out := out + [size + base];
      PushInt(count, size);
      return true;
    }

    method AppendRaw(raw: Bytes, count: nat) returns (ok: bool)
      requires Valid(Value())
      modifies this
      ensures ok <==> Apply(Call.AppendRaw(raw, count), old(Value())).Some?
      ensures ok ==> Value() == Apply(Call.AppendRaw(raw, count), old(Value())).value
    {
      out := out + raw;
      assert Value() == Written(old(Value()), raw);
      ok := NoteAppended(count);
    }

    method AppendList(count: nat) returns (ok: bool)
      requires Valid(Value())
      modifies this
      ensures ok <==> Apply(Call.AppendList(count), old(Value())).Some?
      ensures ok ==> Value() == Apply(Call.AppendList(count), old(Value())).value
    {
      if count > 0 {
        listStack := listStack + [OpenList(count, |out|)];
        ok := true;
      } else {
        assert Header(0, LIST_START) + [] == [LIST_START];
        ok := AppendListPayload([]);
      }
    }

    /** appendList(bytesConstRef): a list whose payload is already encoded. */
    method AppendListPayload(payload: Bytes) returns (ok: bool)
      requires Valid(Value())
      modifies this
      ensures ok <==> HasHeader(|payload|) && Note(Written(old(Value()), Header(|payload|, LIST_START) + payload), 1).Some?
      ensures ok ==> Value() == Note(Written(old(Value()), Header(|payload|, LIST_START) + payload), 1).value
    {
      ghost var before := Value();
      FewDigits(|payload|);
      if |payload| < IMMEDIATE_COUNT {
        out := out + [|payload| + LIST_START];
      } else {
        var pushed := PushCount(|payload|, LIST_LONG);
        if !pushed {
          return false;
        }
      }
      assert out == before.out + Header(|payload|, LIST_START);
      assert before.out + Header(|payload|, LIST_START) + payload == before.out + (Header(|payload|, LIST_START) + payload);
      ok := AppendRaw(payload, 1);
    }
  }

  lemma StillValid(st: State, out: Bytes)
    requires Valid(st) && st.open != []
    requires st.open[|st.open| - 1].start <= |out|
    ensures Valid(State(out, st.open[..|st.open| - 1]))
  {
  }

  lemma FewDigits(n: nat)
    ensures n < IMMEDIATE_COUNT ==> HasHeader(n)
    ensures n > 0 ==> |ToBigEndian(n)| > 0
  {
    if n < IMMEDIATE_COUNT {
      FitsHasHeader(n);
    }
  }

  /** The three forms append(bigint) writes are the encoding of the shortest big-endian form. */
  lemma EncodeInt(value: nat)
    ensures var data := ToBigEndian(value);
      EncodeData(data) == if value == 0 then [DATA_START] else if value < DATA_START then [value]
                          else Header(|data|, DATA_START) + data
  {
    if 0 < value < 0x100 {
      assert ToBigEndian(value / 0x100) == [];
    } else if value >= 0x100 {
      assert ToBigEndian(value / 0x100) != [];
    }
  }
}
