/** Access to the items of an RLP list: the indexing cache of `operator[]`, `items()` and the iterator. */
module RlpView {
  import opened Common
  import opened Rlp
  import opened RlpDecoder

  /** A size, if there is one, covers some of the bytes it is read from. */
  ghost predicate Covers(size: Bytes -> Result<nat>) {
    forall d :: d != [] && size(d).Ok? ==> 0 < size(d).value <= |d|
  }

  /** What finds the size of the item at the front of some bytes. */
  type Sizer = size: Bytes -> Result<nat> | Covers(size) witness (_ => Err)

  /** `sizeAsEncoded`. */
  function Sizes(c: Check): Sizer {
    d => SizeAsEncoded(c, d)
  }

  ghost predicate Reads(c: Check, size: Sizer) {
    forall d {:trigger SizeAsEncoded(c, d)} :: size(d) == SizeAsEncoded(c, d)
  }

  /** The plain scan: the whole items at the front of a payload, in order. */
  ghost function Whole(size: Sizer, p: Bytes): seq<Bytes>
    decreases |p|
  {
    if p == [] || size(p).Err? then [] else [p[..size(p).value]] + Whole(size, p[size(p).value..])
  }

  /** Total length of the first `k` items. */
  ghost function End(items: seq<Bytes>, k: nat): nat
    requires k <= |items|
  {
    if k == 0 then 0 else End(items, k - 1) + |items[k - 1]|
  }

  /** Something that is not an item follows the whole items. */
  ghost predicate Torn(size: Sizer, p: Bytes) {
    var items := Whole(size, p);
    End(items, |items|) < |p|
  }

  /** A cut-off item announces the same size as before the cut. */
  lemma CutItemSize(c: Check, p: Bytes, n: nat)
    requires SizeAsEncoded(c, p) == Ok(n)
    ensures SizeAsEncoded(c, p[..n]) == Ok(n)
  {
    var q := p[..n];
    if p != [] && p[0] >= DATA_START {
      assert q[0] == p[0];
      var k := LengthSize(p);
      if k > 0 {
        assert q[1..1 + k] == p[1..1 + k];
      }
    }
  }

  lemma {:induction false} EndShift(items: seq<Bytes>, k: nat)
    requires 0 < k <= |items|
    ensures End(items, k) == |items[0]| + End(items[1..], k - 1)
  {
    if k > 1 {
      EndShift(items, k - 1);
    }
  }

  /** What is found after the first `k` items: item `k` by its own size, or no further item. */
  ghost predicate Found(size: Sizer, q: Bytes, items: seq<Bytes>, k: nat)
    requires k <= |items|
  {
    if k < |items| then q != [] && size(q) == Ok(|items[k]|) && |items[k]| <= |q| && items[k] == q[..|items[k]|]
    else q == [] || size(q).Err?
  }

  /** The k-th item starts where the first k items end, and is found there by its own size. */
  lemma {:induction false} ItemAt(size: Sizer, p: Bytes, items: seq<Bytes>, k: nat)
    requires items == Whole(size, p) && k <= |items|
    ensures End(items, k) <= |p| && Found(size, p[End(items, k)..], items, k)
    decreases |p|
  {
    if p != [] && size(p).Ok? {
      var n := size(p).value;
      assert items[1..] == Whole(size, p[n..]);
      if k > 0 {
        ItemAt(size, p[n..], items[1..], k - 1);
        EndShift(items, k);
        Advance(p, n, End(items[1..], k - 1));
      }
    }
  }

  lemma {:induction false} WholeCount(size: Sizer, p: Bytes)
    ensures |Whole(size, p)| <= |p|
    decreases |p|
  {
    if p != [] && size(p).Ok? {
      WholeCount(size, p[size(p).value..]);
    }
  }

  /** The scan finds the encodings of exactly the items that a full decode finds. */
  lemma {:induction false} WholeIsDecode(c: Check, size: Sizer, p: Bytes, items: seq<Item>)
    requires Reads(c, size) && DecodeAll(c, p) == Ok(items)
    ensures !Torn(size, p) && |Whole(size, p)| == |items|
    ensures forall i :: 0 <= i < |items| ==> Decode(c, Whole(size, p)[i]) == Ok(items[i])
    decreases |p|
  {
    if p != [] {
      DecodeFirst(c, p, items);
      var n := SizeAsEncoded(c, p).value;
      WholeIsDecode(c, size, p[n..], items[1..]);
      EndShift(Whole(size, p), |Whole(size, p)|);
      assert Whole(size, p)[1..] == Whole(size, p[n..]);
    }
  }

  lemma DecodeFirst(c: Check, p: Bytes, items: seq<Item>)
    requires DecodeAll(c, p) == Ok(items) && p != []
    ensures SizeAsEncoded(c, p).Ok? && items != []
    ensures var n := SizeAsEncoded(c, p).value;
            Decode(c, p[..n]) == Ok(items[0]) && DecodeAll(c, p[n..]) == Ok(items[1..])
  {
  }

  lemma Slice(d: Bytes, off: nat, a: nat, len: nat)
    requires off + a + len <= |d|
    ensures d[off..][a..][..len] == d[off + a..off + a + len]
  {
  }

  lemma Advance(p: Bytes, a: nat, n: nat)
    requires a + n <= |p|
    ensures p[a..][n..] == p[a + n..]
  {
  }

  lemma Rest(d: Bytes, p: Bytes, off: nat, a: nat, len: nat)
    requires off + a + len == |d| && p == d[off..]
    ensures d[off + a..off + a + len] == p[a..]
  {
  }

  lemma PayloadIsTail(c: Check, d: Bytes)
    requires d != [] && d[0] >= LIST_START && ActualSize(c, d) == Ok(|d|)
    ensures PayloadOffset(d) <= |d| && Payload(c, d) == Ok(d[PayloadOffset(d)..])
  {
    assert d[PayloadOffset(d)..|d|] == d[PayloadOffset(d)..];
  }

  /** An `RLP` over any bytes. */
  class View {
    const check: Check
    const data: Bytes
    var lastIndex: nat
    var lastEnd: nat
    var lastItem: Bytes

    /** The payload if there is one, how sizes are read, and what a plain scan finds in the payload. */
    ghost const payload: Result<Bytes>
    ghost const size: Sizer
    ghost const body: Bytes
    ghost const items: seq<Bytes>
    ghost const torn: bool

    ghost predicate Opens() {
      && payload == Ok(body) && |body| <= |data|
      && items == Whole(size, body) && torn == Torn(size, body)
    }

    ghost predicate Shut() {
      payload.Err? && items == [] && !torn
    }

    /** Nothing has been looked up yet. */
    ghost predicate Untouched()
      reads this
    {
      lastIndex == SIZE_LIMIT - 1 && lastItem == []
    }

    /** The cache stands at an item, or just past the last one. */
    ghost predicate AtItem()
      reads this
    {
      if lastIndex < |items| then lastItem == items[lastIndex] && lastEnd == End(items, lastIndex + 1)
      else !torn && lastIndex == |items| && lastItem == [] && lastEnd == End(items, lastIndex)
    }

    /** A lookup has failed behind the last whole item, whose place in the cache is taken by the rest. */
    ghost predicate Spoiled()
      reads this
    {
      && torn && items != [] && lastIndex == |items| - 1 && lastEnd == End(items, |items|) <= |body|
      && lastItem == body[lastEnd..]
    }

    ghost predicate Fixed() {
      && |data| < SIZE_LIMIT - 1
      && payload == Payload(check, data) && Reads(check, size)
      && (Shut() || Opens())
    }

    ghost predicate Standing()
      reads this
    {
      Untouched() || (Opens() && (AtItem() || Spoiled()))
    }

    ghost predicate Valid()
      reads this
    {
      Fixed() && Standing()
    }

    constructor (check: Check, data: Bytes)
      requires |data| < SIZE_LIMIT - 1
      ensures Valid() && Untouched() && this.check == check && this.data == data
    {
      this.check, this.data := check, data;
      lastIndex, lastEnd, lastItem := SIZE_LIMIT - 1, 0, [];
      payload, size := Payload(check, data), Sizes(check);
      body := if Payload(check, data).Ok? then Payload(check, data).value else [];
      items := if Payload(check, data).Ok? then Whole(Sizes(check), Payload(check, data).value) else [];
      torn := Payload(check, data).Ok? && Torn(Sizes(check), Payload(check, data).value);
    }

    method GetPayload() returns (r: Result<Bytes>)
      requires payload == Payload(check, data)
      ensures r == payload
    {
      r := Payload(check, data);
    }

    method SizeOf(d: Bytes) returns (r: Result<nat>)
      requires Reads(check, size)
      ensures r == size(d)
    {
      r := SizeAsEncoded(check, d);
    }

    /** An item announces its own size. */
    lemma OwnSize(k: nat)
      requires Opens() && Reads(check, size) && k < |items|
      ensures size(items[k]) == Ok(|items[k]|)
    {
      ItemAt(size, body, items, k);
      CutItemSize(check, body[End(items, k)..], |items[k]|);
    }

    lemma SpoiledIsTorn()
      requires Opens() && Reads(check, size) && Spoiled()
      ensures lastItem != [] && size(lastItem).Err? && !AtItem()
    {
      ItemAt(size, body, items, |items|);
      OwnSize(|items| - 1);
    }

    /** What `operator[]` answers: the item of the plain scan, the null item past the end, or a failure. */
    ghost function Answer(i: nat): Result<Bytes>
      reads this
    {
      if Untouched() && i == SIZE_LIMIT - 1 then Ok([])
      else if Shut() then Err
      else if i < |items| then if Spoiled() && i == |items| - 1 then Err else Ok(items[i])
      else if torn then Err
      else Ok([])
    }

    /**
     * `operator[]`. For a payload that consists of whole items the answer is always the plain scan's.
     * Otherwise a lookup behind the last whole item fails, and makes lookups of that item fail too
     * until an earlier one has succeeded.
     */
    method At(i: nat) returns (item: Result<Bytes>)
      requires Valid() && i < SIZE_LIMIT
      modifies this
      ensures Valid() && item == old(Answer(i))
      ensures Opens() && !torn ==> item == Ok(if i < |items| then items[i] else [])
      ensures Spoiled() <==> item.Err? && torn && items != []
    {
      NotBoth();
      if i < lastIndex {
        var ok := Rewind();
        if !ok {
          return Err;
        }
      }
      while lastIndex < i && lastItem != []
        invariant Standing() && lastIndex <= i && (Shut() ==> Untouched())
        invariant Untouched() <==> old(Untouched()) && i == SIZE_LIMIT - 1
        invariant Spoiled() <==> old(Spoiled() && i >= lastIndex)
        decreases i - lastIndex
      {
        var ok := MoveOn();
        if !ok {
          return Err;
        }
      }
      NotBoth();
      item := Checked();
    }

    /** The states of the cache exclude each other. */
    lemma NotBoth()
      requires Valid()
      ensures Opens() ==> |items| < SIZE_LIMIT - 1
      ensures Opens() && Spoiled() ==> lastItem != [] && !AtItem()
      ensures Opens() && AtItem() ==> lastIndex <= |items|
      ensures Opens() && AtItem() && lastIndex < |items| ==> lastItem != []
    {
      if Opens() {
        WholeCount(size, body);
        if Spoiled() {
          SpoiledIsTorn();
        }
        if AtItem() && lastIndex < |items| {
          ItemAt(size, body, items, lastIndex);
        }
      }
    }

    /** Back to the first item; false when there is no payload or it does not begin with an item. */
    method Rewind() returns (ok: bool)
      requires Fixed()
      modifies this
      ensures ok <==> Opens() && (items != [] || !torn)
      ensures ok ==> AtItem() && !Spoiled() && lastIndex == 0
      ensures !ok ==> lastIndex == old(lastIndex) && lastEnd == old(lastEnd) && lastItem == old(lastItem)
    {
      var p := GetPayload();
      if p.Err? {
        return false;
      }
      var first := Take(p.value, 0, 0);
      if first.Err? {
        return false;
      }
      Settle(0, |first.value|, first.value);
      return true;
    }

    /** One round of the loop: false when the rest is not an item. */
    method MoveOn() returns (ok: bool)
      requires Fixed() && Opens() && ((AtItem() && lastIndex < |items|) || Spoiled())
      modifies this
      ensures ok <==> old(lastIndex) + 1 < |items| || !torn
      ensures ok ==> AtItem() && !Spoiled() && lastIndex == old(lastIndex) + 1
      ensures !ok ==> Spoiled() && lastIndex == old(lastIndex)
    {
      var p := GetPayload();
      ghost var k := lastIndex + 1;
      EndInside(k);
      lastItem := p.value[lastEnd..];
      var item := Take(p.value, lastEnd, k);
      if item.Err? {
        return false;
      }
      Settle(lastIndex + 1, lastEnd + |item.value|, item.value);
      return true;
    }

    /** The cache is moved to an item, or past the last one. */
    method Settle(index: nat, end: nat, item: Bytes)
      requires Opens() && Reads(check, size) && index <= |items| && end == End(items, index) + |item|
      requires if index < |items| then item == items[index] else !torn && item == []
      modifies this
      ensures AtItem() && !Spoiled() && lastIndex == index
    {
      lastEnd, lastItem := end, item;
      lastIndex := index;
      if Spoiled() {
        SpoiledIsTorn();
      }
    }

    lemma EndInside(k: nat)
      requires Opens() && k <= |items|
      ensures End(items, k) <= |body|
    {
      ItemAt(size, body, items, k);
    }

    /** The item that starts at `off`, cropped to its announced size. */
    method Take(p: Bytes, off: nat, ghost k: nat) returns (item: Result<Bytes>)
      requires Opens() && Reads(check, size) && p == body && k <= |items| && off == End(items, k) <= |p|
      ensures item == if k < |items| then Ok(items[k]) else if torn then Err else Ok([])
    {
      ItemAt(size, p, items, k);
      var rest: Bytes := p[off..];
      NothingHasNoSize();
      var n := SizeOf(rest);
      item := if n.Ok? then Ok(Cropped(rest, 0, n.value)) else Err;
    }

    lemma NothingHasNoSize()
      requires Reads(check, size)
      ensures size([]) == Ok(0)
    {
      assert SizeAsEncoded(check, []) == Ok(0);
    }

    /** The constructor of the item that is handed out. */
    method Checked() returns (item: Result<Bytes>)
      requires Valid()
      ensures item == if Opens() && Spoiled() then Err else Ok(lastItem)
    {
      NothingHasNoSize();
      if Opens() && Spoiled() {
        SpoiledIsTorn();
      } else if Opens() && AtItem() && lastIndex < |items| {
        OwnSize(lastIndex);
      }
      var n := SizeOf(lastItem);
      item := if n.Ok? then Ok(lastItem) else Err;
    }

    predicate IsList() {
      data != [] && data[0] >= LIST_START
    }

    /** `items()`: the number of items, found by cropping the payload item by item. */
    method ItemCount() returns (r: Result<nat>)
      requires Valid()
      ensures r == if !IsList() then Ok(0) else if Shut() || torn then Err else Ok(|items|)
    {
      if !IsList() {
        return Ok(0);
      }
      var p := GetPayload();
      if p.Err? {
        return Err;
      }
      r := CountItems(p.value);
    }

    method CountItems(p: Bytes) returns (r: Result<nat>)
      requires Opens() && Reads(check, size) && p == body
      ensures r == if torn then Err else Ok(|items|)
    {
      var d: Bytes := p;
      var i := 0;
      Remaining(p, 0);
      while d != []
        invariant i <= |items| && End(items, i) <= |p| && d == p[End(items, i)..]
        invariant d == [] <==> i == |items| && !torn
        decreases |items| - i
      {
        var n := NextSize(p, d, i);
        if n.Err? {
          return Err;
        }
        Advance(p, End(items, i), n.value);
        d := d[n.value..];
        i := i + 1;
        Remaining(p, i);
      }
      return Ok(i);
    }

    /** `sizeAsEncoded` of the rest of the payload: the size of its first item. */
    method NextSize(p: Bytes, d: Bytes, ghost k: nat) returns (r: Result<nat>)
      requires Opens() && Reads(check, size) && p == body && k <= |items|
      requires End(items, k) <= |p| && d == p[End(items, k)..] && d != []
      ensures r == if k < |items| then Ok(|items[k]|) else Err
      ensures r.Ok? ==> End(items, k) + r.value <= |p|
    {
      ItemAt(size, p, items, k);
      r := SizeOf(d);
    }

    lemma Remaining(p: Bytes, k: nat)
      requires Opens() && p == body && k <= |items|
      ensures End(items, k) <= |p| && (p[End(items, k)..] == [] <==> k == |items| && !torn)
    {
      ItemAt(size, p, items, k);
    }

    /**
     * `toList()`: the iterator, as a position and a length inside `data`, from `begin` to `end`. A
     * list has to fill `data`: the iterator does not meet `end` otherwise.
     */
    method ToList() returns (ret: Result<seq<Bytes>>)
      requires Valid() && (IsList() ==> ActualSize(check, data) == Ok(|data|))
      ensures ret == if !IsList() || torn then Err else Ok(items)
    {
      if !IsList() {
        return Err;
      }
      PayloadIsTail(check, data);
      var whole := GetPayload();
      ret := Collect(whole.value, PayloadOffset(data));
    }

    /** The loop over the iterator. */
    method Collect(p: Bytes, off: nat) returns (ret: Result<seq<Bytes>>)
      requires Opens() && Reads(check, size) && p == body && off + |p| == |data| && p == data[off..]
      ensures ret == if torn then Err else Ok(items)
    {
      ghost var k := 0;
      var it := First(p, off);
      var list: seq<Bytes> := [];
      while it.Ok? && (it.value.at, it.value.len) != (|data|, 0)
        invariant it.Ok? ==> IteratorAt(it.value, off, k)
        invariant it.Err? ==> torn
        invariant k <= |items| && list == items[..k]
        decreases it.Ok?, |items| - k
      {
        EndReached(it.value, off, k);
        var item := Current(it.value, off, k);
        list := list + [item];
        it := Next(it.value, off, k);
        k := k + 1;
      }
      if it.Err? {
        return Err;
      }
      EndReached(it.value, off, k);
      assert items[..k] == items;
      return Ok(list);
    }

    /** The iterator equals `end` exactly when every item has been passed. */
    lemma EndReached(it: Iterator, off: nat, k: nat)
      requires Opens() && off + |body| == |data| && IteratorAt(it, off, k)
      ensures (it.at, it.len) == (|data|, 0) <==> k == |items|
    {
      ItemAt(size, body, items, k);
    }

    /** `operator*` of the iterator. */
    method Current(it: Iterator, off: nat, ghost k: nat) returns (item: Bytes)
      requires Opens() && off + |body| == |data| && body == data[off..]
      requires k < |items| && IteratorAt(it, off, k)
      ensures item == items[k]
    {
      ItemAt(size, body, items, k);
      Slice(data, off, End(items, k), it.len);
      item := data[it.at..it.at + it.len];
    }

    /** The iterator covers the k-th item, or is empty at the end of a payload of whole items. */
    ghost predicate IteratorAt(it: Iterator, off: nat, k: nat) {
      && k <= |items| && (k == |items| ==> !torn) && it.at == off + End(items, k)
      && it.len == (if k < |items| then |items[k]| else 0)
      && it.at + it.len + it.remaining == off + |body|
    }

    /** The constructor of the iterator at the beginning. */
    method First(p: Bytes, off: nat) returns (it: Result<Iterator>)
      requires Opens() && Reads(check, size) && p == body
      ensures it.Ok? ==> IteratorAt(it.value, off, 0)
      ensures it.Err? ==> torn
    {
      ItemAt(size, p, items, 0);
      assert p[0..] == p;
      NothingHasNoSize();
      var n := SizeOf(p);
      it := if n.Ok? then Ok(Iterator(off, n.value, |p| - n.value)) else Err;
    }

    /** `operator++` of the iterator. */
    method Next(it: Iterator, off: nat, ghost k: nat) returns (next: Result<Iterator>)
      requires Opens() && Reads(check, size) && off + |body| == |data| && body == data[off..]
      requires IteratorAt(it, off, k) && k < |items|
      ensures next.Ok? ==> IteratorAt(next.value, off, k + 1)
      ensures next.Err? ==> torn
    {
      var at, remaining := it.at + it.len, it.remaining;
      Ahead(at, remaining, off, k + 1);
      if remaining == 0 {
        return Ok(Iterator(at, 0, 0));
      }
      var n := SizeOf(data[at..at + remaining]);
      if n.Err? {
        return Err;
      }
      var len := n.value;
      next := Ok(Iterator(at, len, remaining - if remaining < len then remaining else len));
    }

    /** What lies ahead of the iterator: nothing, item `k` by its own size, or no item. */
    lemma Ahead(at: nat, remaining: nat, off: nat, k: nat)
      requires Opens() && off + |body| == |data| && body == data[off..]
      requires k <= |items| && at == off + End(items, k) && at + remaining == |data|
      ensures remaining == 0 <==> k == |items| && !torn
      ensures remaining > 0 ==> size(data[at..at + remaining]) == if k < |items| then Ok(|items[k]|) else Err
      ensures k < |items| ==> |items[k]| <= remaining
    {
      ItemAt(size, body, items, k);
      Rest(data, body, off, End(items, k), remaining);
    }
  }

  /** The iterator: where its item starts in the data, how long the item is, and what comes after. */
  datatype Iterator = Iterator(at: nat, len: nat, remaining: nat)
}
