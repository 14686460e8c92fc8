/**
 * `RLPStream`: output goes straight to one buffer, and the header of a list is inserted in front
 * of its payload only when its last item has been appended.
 */
module RlpStream {
  import opened Common
  import opened BigEndian
  import opened Rlp

  /** An open list: how many items it still needs, and where its payload starts. */
  type Open = (nat, nat)

  datatype Snap = Snap(out: Bytes, lists: seq<Open>)

  ghost predicate Sound(s: Snap) {
    forall k :: 0 <= k < |s.lists| ==> s.lists[k].0 > 0 && s.lists[k].1 <= |s.out|
  }

  /** The buffer with a list header inserted at `p`. */
  function Closed(out: Bytes, p: nat): Bytes
    requires p <= |out| && |out| - p < SIZE_LIMIT
  {
    out[..p] + Header(LIST_START, |out| - p) + out[p..]
  }

  /** What `noteAppended` does to the buffer and the stack; `Err` is its exception. */
  function Note(s: Snap, count: nat): (r: Result<Snap>)
    requires Sound(s)
    ensures r.Ok? ==> Sound(r.value)
    decreases |s.lists|
  {
    if count == 0 || s.lists == [] then Ok(s)
    else
      var m := |s.lists| - 1;
      var (need, p) := s.lists[m];
      if need < count then Err
      else if need > count then Ok(Snap(s.out, s.lists[..m] + [(need - count, p)]))
      else if |s.out| - p >= SIZE_LIMIT then Err
      else Note(Snap(Closed(s.out, p), s.lists[..m]), 1)
  }

  // ---- Driving the stream with an item tree ----------------------------------------------------

  /** Appends every node of the tree in prefix order, as callers of the stream do. */
  function Feed(s: Snap, it: Item): (r: Result<Snap>)
    requires Sound(s) && Size(it) < SIZE_LIMIT
    ensures r.Ok? ==> Sound(r.value)
    decreases it
  {
    match it
    case Data(b) => Note(Snap(s.out + Encode(it), s.lists), 1)
    case List(items) =>
      if items == [] then Note(Snap(s.out + [LIST_START], s.lists), 1)
      else FeedAll(Snap(s.out, s.lists + [(|items|, |s.out|)]), items)
  }

  function FeedAll(s: Snap, items: seq<Item>): (r: Result<Snap>)
    requires Sound(s) && SizeAll(items) < SIZE_LIMIT
    ensures r.Ok? ==> Sound(r.value)
    decreases items
  {
    if items == [] then Ok(s)
    else
      var r := Feed(s, items[0]);
      if r.Err? then Err else FeedAll(r.value, items[1..])
  }

  /** Feeding a tree is appending its recursive encoding as one finished item. */
  lemma {:induction false} FeedIsAppend(s: Snap, it: Item)
    requires Sound(s) && Size(it) < SIZE_LIMIT
    ensures Feed(s, it) == Note(Snap(s.out + Encode(it), s.lists), 1)
    decreases it
  {
    match it
    case Data(b) =>
    case List(items) =>
      if items == [] {
        assert Encode(it) == [LIST_START];
      } else {
        FeedAllCloses(s.out, s.lists, |s.out|, items);
        ClosedWhole(s.out, items);
      }
  }

  lemma ClosedAt(front: Bytes, payload: Bytes)
    requires |payload| < SIZE_LIMIT
    ensures Closed(front + payload, |front|) == front + (Header(LIST_START, |payload|) + payload)
  {
    var out := front + payload;
    assert out[..|front|] == front && out[|front|..] == payload;
    Assoc(front, Header(LIST_START, |payload|), payload);
  }

  lemma ClosedWhole(front: Bytes, items: seq<Item>)
    requires Size(List(items)) < SIZE_LIMIT
    ensures Closed(front + EncodeAll(items), |front|) == front + Encode(List(items))
  {
    ClosedAt(front, EncodeAll(items));
  }

  lemma NoteTop(out: Bytes, lists: seq<Open>, need: nat, p: nat)
    requires need > 0 && p <= |out| && |out| - p < SIZE_LIMIT && Sound(Snap(out, lists))
    ensures Note(Snap(out, lists + [(need, p)]), 1)
         == if need > 1 then Ok(Snap(out, lists + [(need - 1, p)])) else Note(Snap(Closed(out, p), lists), 1)
  {
    assert (lists + [(need, p)])[..|lists|] == lists;
  }

  /** The last of the promised items closes the list and counts as one item of the list around it. */
  lemma {:induction false} FeedAllCloses(out: Bytes, lists: seq<Open>, p: nat, items: seq<Item>)
    requires items != [] && p <= |out| && Sound(Snap(out, lists))
    requires SizeAll(items) < SIZE_LIMIT && |out| - p + SizeAll(items) < SIZE_LIMIT
    ensures FeedAll(Snap(out, lists + [(|items|, p)]), items)
         == Note(Snap(Closed(out + EncodeAll(items), p), lists), 1)
    decreases items
  {
    var s := Snap(out, lists + [(|items|, p)]);
    FeedIsAppend(s, items[0]);
    NoteTop(out + Encode(items[0]), lists, |items|, p);
    if |items| == 1 {
      LastItem(items);
      assert items[1..] == [];
    } else {
      FeedAllCloses(out + Encode(items[0]), lists, p, items[1..]);
      FirstItem(out, items);
    }
  }

  lemma LastItem(items: seq<Item>)
    requires |items| == 1 && SizeAll(items) < SIZE_LIMIT
    ensures EncodeAll(items) == Encode(items[0])
  {
    assert items[1..] == [];
  }

  lemma FirstItem(out: Bytes, items: seq<Item>)
    requires items != [] && SizeAll(items) < SIZE_LIMIT
    ensures out + Encode(items[0]) + EncodeAll(items[1..]) == out + EncodeAll(items)
  {
  }

  /** Streaming a tree into an empty stream gives its recursive encoding and no open list. */
  lemma StreamEqualsRecursive(it: Item)
    requires Size(it) < SIZE_LIMIT
    ensures Feed(Snap([], []), it) == Ok(Snap(Encode(it), []))
  {
    FeedIsAppend(Snap([], []), it);
    assert [] + Encode(it) == Encode(it);
  }

  // ---- The class -------------------------------------------------------------------------------

  /** Bytes without the leading zeros. */
  function Stripped(b: Bytes): Bytes {
    if b != [] && b[0] == 0 then Stripped(b[1..]) else b
  }

  /** What is dropped is exactly the leading zeros. */
  lemma {:induction false} StrippedForm(b: Bytes) returns (k: nat)
    ensures k <= |b| && Stripped(b) == b[k..]
    ensures (forall i :: 0 <= i < k ==> b[i] == 0) && (k < |b| ==> b[k] != 0)
  {
    k := 0;
    if b != [] && b[0] == 0 {
      var j := StrippedForm(b[1..]);
      k := j + 1;
      assert forall i :: 1 <= i < k ==> b[i] == b[1..][i - 1];
      assert b[1..][j..] == b[k..];
    }
  }

  /** Appending fails exactly when more items arrive than the innermost open list still needs. */
  lemma {:induction false} NoteFailsIff(s: Snap, count: nat)
    requires Sound(s) && |s.out| + 9 * |s.lists| < SIZE_LIMIT
    ensures Note(s, count).Err? <==> count > 0 && s.lists != [] && s.lists[|s.lists| - 1].0 < count
    decreases |s.lists|
  {
    if count > 0 && s.lists != [] {
      var m := |s.lists| - 1;
      var (need, p) := s.lists[m];
      if need == count {
        SizeBytes(|s.out| - p);
        NoteFailsIff(Snap(Closed(s.out, p), s.lists[..m]), 1);
      }
    }
  }

  class Stream {
    var out: Bytes
    var listStack: seq<Open>

    ghost function Now(): Snap
      reads this
    {
      Snap(out, listStack)
    }

    ghost predicate Valid()
      reads this
    {
      Sound(Now())
    }

    constructor ()
      ensures Valid() && Now() == Snap([], [])
    {
      out, listStack := [], [];
    }

    /** Writes `v` downwards from index `last`, one byte per turn, until nothing is left of it. */
    method StoreDown(v: nat, last: int)
      requires BytesRequired(v) - 1 <= last < |out|
      modifies this`out
      ensures out == old(out)[..last + 1 - BytesRequired(v)] + Compact(v) + old(out)[last + 1..]
    {
      var i, b := v, last;
      ghost var tail: Bytes := [];
      while i != 0
        invariant Compact(v) == Compact(i) + tail
        invariant b == last - |tail| && 0 <= b + 1 - BytesRequired(i)
        invariant out == old(out)[..b + 1] + tail + old(out)[last + 1..]
        decreases i
      {
        StoreOne(old(out), b, tail, old(out)[last + 1..], i % 256);
        out := out[b := i % 256];
        tail := [i % 256] + tail;
        i, b := i / 256, b - 1;
      }
      assert Compact(0) + tail == tail;
    }

    /** `pushInt`: room for `br` bytes, filled from the back. */
    method PushInt(i: nat, br: nat)
      requires br == BytesRequired(i)
      modifies this`out
      ensures out == old(out) + Compact(i)
    {
      ghost var was := out;
      out := out + ZeroBytes(br);
      StoreDown(i, |out| - 1);
      assert out == was + Compact(i);
    }

    /** Counts appended items towards the open lists and closes those that are complete. */
    method NoteAppended(itemCount: nat) returns (ok: bool)
      requires Valid()
      modifies this
      ensures ok <==> Note(old(Now()), itemCount).Ok?
      ensures ok ==> Valid() && Note(old(Now()), itemCount) == Ok(Now())
    {
      if itemCount == 0 {
        return true;
      }
      var count := itemCount;
      while listStack != []
        invariant Valid() && count > 0
        invariant Note(old(Now()), itemCount) == Note(Now(), count)
        decreases |listStack|
      {
        var m := |listStack| - 1;
        var (need, p) := listStack[m];
        if need < count {
          return false;
        }
        ghost var under := listStack[..m];
        listStack := listStack[m := (need - count, p)];
        if need - count != 0 {
          assert listStack == under + [(need - count, p)];
          return true;
        }
        listStack := listStack[..m];
        if |out| - p >= SIZE_LIMIT {
          return false;
        }
        InsertHeader(p);
        count := 1;
      }
      return true;
    }

    /** Grows the buffer, moves the payload up and writes the header into the gap. */
    method InsertHeader(p: nat)
      requires p <= |out| && |out| - p < SIZE_LIMIT
      modifies this`out
      ensures out == Closed(old(out), p)
    {
      ghost var head, tail := out[..p], out[p..];
      var s := |out| - p;
      var brs := BytesRequired(s);
      SizeBytes(s);
      var encodeSize := if s < IMM_COUNT then 1 else 1 + brs;
      ghost var gap := OpenGap(p, encodeSize);
      if s < IMM_COUNT {
        out := out[p := LIST_START + s];
        assert out == head + [LIST_START + s] + tail;
      } else {
        WriteLongHeader(p, s, brs, head, gap, tail);
      }
    }

    /** The header of a payload of 56 bytes or more, written into the gap in front of it. */
    method WriteLongHeader(p: nat, s: nat, brs: nat, ghost head: Bytes, ghost gap: Bytes, ghost tail: Bytes)
      requires out == head + gap + tail && p == |head| && |gap| == 1 + brs && brs == BytesRequired(s) <= 8
      modifies this`out
      ensures out == head + ([LIST_START + 55 + brs] + Compact(s)) + tail
    {
      out := out[p := LIST_START + 55 + brs];
      Parts(head + [LIST_START + 55 + brs], gap[1..], tail);
      assert out == (head + [LIST_START + 55 + brs]) + gap[1..] + tail;
      StoreDown(s, p + brs);
      Regroup(head, [LIST_START + 55 + brs], Compact(s), tail);
    }

    /** Moves everything from `p` on up by `n` bytes. */
    method OpenGap(p: nat, n: nat) returns (ghost gap: Bytes)
      requires p <= |out|
      modifies this`out
      ensures |gap| == n && out == old(out)[..p] + gap + old(out)[p..]
    {
      var os := |out|;
      out := out + ZeroBytes(n);
      out := out[..p + n] + out[p..os];
      gap := out[p..p + n];
    }

    method AppendRaw(s: Bytes, itemCount: nat) returns (ok: bool)
      requires Valid()
      modifies this
      ensures ok <==> Note(Snap(old(out) + s, old(listStack)), itemCount).Ok?
      ensures ok ==> Valid() && Note(Snap(old(out) + s, old(listStack)), itemCount) == Ok(Now())
    {
      out := out + s;
      ok := NoteAppended(itemCount);
    }

    /** `append(bytesConstRef, compact)`: one data item. */
    method Append(bytes: Bytes, compact: bool) returns (ok: bool)
      requires Valid() && Size(Data(bytes)) < SIZE_LIMIT
      modifies this
      ensures var b := if compact then Stripped(bytes) else bytes;
              Size(Data(b)) < SIZE_LIMIT && (ok <==> Feed(old(Now()), Data(b)).Ok?)
      ensures ok ==> Valid() && Feed(old(Now()), Data(if compact then Stripped(bytes) else bytes)) == Ok(Now())
    {
      var d: Bytes := bytes;
      if compact {
        while d != [] && d[0] == 0
          invariant Stripped(d) == Stripped(bytes) && |d| <= |bytes|
          decreases |d|
        {
          d := d[1..];
        }
        SmallerData(bytes, d);
      }
      PutData(d);
      ok := NoteAppended(1);
    }

    /** The bytes of one data item, its header first unless it is its own encoding. */
    method PutData(d: Bytes)
      requires Size(Data(d)) < SIZE_LIMIT
      modifies this`out
      ensures out == old(out) + Encode(Data(d))
    {
      ghost var was := out;
      if |d| == 1 && d[0] < DATA_START {
        out := out + [d[0]];
        assert [d[0]] == d;
      } else {
        PutHeader(|d|);
        out := out + d;
        Assoc(was, Header(DATA_START, |d|), d);
      }
    }

    /** The header of a data item of `len` bytes. */
    method PutHeader(len: nat)
      requires len < SIZE_LIMIT
      modifies this`out
      ensures out == old(out) + Header(DATA_START, len)
    {
      if len < IMM_COUNT {
        out := out + [DATA_START + len];
      } else {
        PushCount(len, DATA_START + 55);
        Assoc(old(out), [DATA_START + 55 + BytesRequired(len)], Compact(len));
      }
    }

    /** `append(bigint)`: an integer as its compact big-endian bytes. */
    method AppendInt(i: nat) returns (ok: bool)
      requires Valid() && Size(Data(Compact(i))) < SIZE_LIMIT
      modifies this
      ensures ok <==> Feed(old(Now()), Data(Compact(i))).Ok?
      ensures ok ==> Valid() && Feed(old(Now()), Data(Compact(i))) == Ok(Now())
    {
      PutInt(i);
      ok := NoteAppended(1);
    }

    /** The bytes of one integer, its header first unless it is its own encoding. */
    method PutInt(i: nat)
      requires Size(Data(Compact(i))) < SIZE_LIMIT
      modifies this`out
      ensures out == old(out) + Encode(Data(Compact(i)))
    {
      ghost var was := out;
      IntItem(i);
      if i == 0 {
        out := out + [DATA_START];
      } else if i < DATA_START {
        out := out + [i];
      } else {
        var br := BytesRequired(i);
        PutHeader(br);
        PushInt(i, br);
        Assoc(was, Header(DATA_START, br), Compact(i));
      }
    }

    /** `pushCount`; with a 64-bit count its overflow exception cannot happen. */
    method PushCount(count: nat, base: Byte)
      requires count < SIZE_LIMIT && base <= 0xf7
      modifies this`out
      ensures out == old(out) + [base + BytesRequired(count)] + Compact(count)
    {
      var br := BytesRequired(count);
      SizeBytes(count);
      out := out + [base + br];
      PushInt(count, br);
    }

    /** `appendList(n)`: opens a list that wants `n` items, or appends the empty list. */
    method AppendList(items: nat) returns (ok: bool)
      requires Valid()
      modifies this
      ensures items > 0 ==> ok && Valid() && out == old(out) && listStack == old(listStack) + [(items, |old(out)|)]
      ensures items == 0 ==> (ok <==> Feed(old(Now()), List([])).Ok?)
      ensures items == 0 && ok ==> Valid() && Feed(old(Now()), List([])) == Ok(Now())
    {
      if items > 0 {
        listStack := listStack + [(items, |out|)];
        return true;
      }
      out := out + [LIST_START];
      ok := NoteAppended(1);
    }

    /** Appends a whole tree: a list announces its length, then each item follows. */
    method Write(it: Item) returns (ok: bool)
      requires Valid() && Size(it) < SIZE_LIMIT
      modifies this
      ensures ok <==> Feed(old(Now()), it).Ok?
      ensures ok ==> Valid() && Feed(old(Now()), it) == Ok(Now())
      decreases it
    {
      match it
      case Data(b) => ok := Append(b, false);
      case List(items) =>
        ok := AppendList(|items|);
        if items == [] {
          return;
        }
        ghost var begun := Now();
        assert begun == Snap(old(out), old(listStack) + [(|items|, |old(out)|)]);
        assert items[0..] == items;
        var k := 0;
        while k < |items|
          invariant ok && 0 <= k <= |items| && SizeAll(items[k..]) < SIZE_LIMIT && Valid()
          invariant FeedAll(begun, items) == FeedAll(Now(), items[k..])
        {
          assert items[k..][0] == items[k] && items[k..][1..] == items[k + 1..];
          ok := Write(items[k]);
          if !ok {
            return;
          }
          k := k + 1;
        }
    }
  }

  lemma StoreOne(was: Bytes, b: nat, tail: Bytes, rest: Bytes, x: Byte)
    requires b < |was|
    ensures (was[..b + 1] + tail + rest)[b := x] == was[..b] + ([x] + tail) + rest
  {
  }

  lemma Regroup(a: Bytes, b: Bytes, c: Bytes, d: Bytes)
    ensures a + b + c + d == a + (b + c) + d
  {
  }

  lemma Parts(a: Bytes, b: Bytes, c: Bytes)
    ensures (a + b + c)[..|a|] == a && (a + b + c)[|a| + |b|..] == c
  {
  }

  /** The encoding of an integer by size. */
  lemma IntItem(i: nat)
    requires Size(Data(Compact(i))) < SIZE_LIMIT
    ensures Encode(Data(Compact(i))) ==
            if i == 0 then [DATA_START] else if i < DATA_START then [i]
            else Header(DATA_START, BytesRequired(i)) + Compact(i)
  {
    if 0 < i < DATA_START {
      assert Compact(i / 256) == [];
    } else if i >= DATA_START {
      NotSelfEncoded(i);
    }
  }

  lemma NotSelfEncoded(i: nat)
    requires i >= DATA_START
    ensures !SelfEncoded(Compact(i))
  {
    if i < 256 {
      assert Compact(i / 256) == [];
    } else {
      assert BytesRequired(i / 256) > 0;
    }
  }

  lemma SmallerData(a: Bytes, b: Bytes)
    requires |b| <= |a| && Size(Data(a)) < SIZE_LIMIT
    ensures Size(Data(b)) < SIZE_LIMIT
  {
    BytesRequiredMonotone(|b|, |a|);
  }

  lemma {:induction false} BytesRequiredMonotone(a: nat, b: nat)
    requires a <= b
    ensures BytesRequired(a) <= BytesRequired(b)
  {
    if a > 0 {
      BytesRequiredMonotone(a / 256, b / 256);
    }
  }
}
