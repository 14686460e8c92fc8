/** Recursive Length Prefix encoding as Appendix B of the Ethereum Yellow Paper defines it. */
module Rlp {
  import opened Common
  import opened BigEndian

  datatype Item = Data(bytes: Bytes) | List(items: seq<Item>)

  const DATA_START: Byte := 0x80
  const LIST_START: Byte := 0xc0
  /** `c_rlpDataImmLenCount` and `c_rlpListImmLenCount`: lengths below it fit in the first byte. */
  const IMM_COUNT: nat := 56

  function HeaderSize(len: nat): nat {
    if len < IMM_COUNT then 1 else 1 + BytesRequired(len)
  }

  predicate SelfEncoded(b: Bytes) {
    |b| == 1 && b[0] < DATA_START
  }

  function Size(it: Item): (n: nat)
    ensures n > 0
  {
    match it
    case Data(b) => if SelfEncoded(b) then 1 else HeaderSize(|b|) + |b|
    case List(items) => HeaderSize(SizeAll(items)) + SizeAll(items)
  }

  function SizeAll(items: seq<Item>): nat {
    if items == [] then 0 else Size(items[0]) + SizeAll(items[1..])
  }

  /** Length prefix of a payload; `base` is where the immediate lengths start. */
  function Header(base: Byte, len: nat): (h: Bytes)
    requires base == DATA_START || base == LIST_START
    requires len < SIZE_LIMIT
    ensures |h| == HeaderSize(len)
  {
    SizeBytes(len);
    if len < IMM_COUNT then [base + len] else [base + 55 + BytesRequired(len)] + Compact(len)
  }

  function Encode(it: Item): (b: Bytes)
    requires Size(it) < SIZE_LIMIT
    ensures |b| == Size(it)
    decreases it
  {
    match it
    case Data(b) => if SelfEncoded(b) then b else Header(DATA_START, |b|) + b
    case List(items) => Header(LIST_START, SizeAll(items)) + EncodeAll(items)
  }

  function EncodeAll(items: seq<Item>): (b: Bytes)
    requires SizeAll(items) < SIZE_LIMIT
    ensures |b| == SizeAll(items)
    decreases items
  {
    if items == [] then [] else Encode(items[0]) + EncodeAll(items[1..])
  }

  // ---- The form of an encoding -----------------------------------------------------------------

  /** A length of 56 or more: how many bytes it has, then the length itself. */
  lemma LongHeader(base: Byte, len: nat) returns (k: nat)
    requires (base == DATA_START || base == LIST_START) && 56 <= len < SIZE_LIMIT
    ensures 1 <= k <= 8 && |Header(base, len)| == 1 + k
    ensures Header(base, len)[0] == base + 0x37 + k
    ensures Value(Header(base, len)[1..]) == len && Header(base, len)[1] != 0
  {
    k := BytesRequired(len);
    SizeBytes(len);
    CompactValue(len);
    assert Header(base, len)[1..] == Compact(len);
  }

  /** The encoding of a byte string, by its length. */
  lemma DataForm(b: Bytes) returns (k: nat)
    requires Size(Data(b)) < SIZE_LIMIT
    ensures |b| == 1 && b[0] < 0x80 ==> Encode(Data(b)) == b
    ensures |b| <= 55 && !(|b| == 1 && b[0] < 0x80) ==> Encode(Data(b)) == [0x80 + |b|] + b
    ensures |b| >= 56 ==>
              var e := Encode(Data(b));
              && 1 <= k <= 8 && |e| == 1 + k + |b| && e[0] == 0xb7 + k
              && e[1] != 0 && Value(e[1..1 + k]) == |b| && e[1 + k..] == b
  {
    k := 0;
    if |b| >= 56 {
      k := LongHeader(DATA_START, |b|);
      CutHeader(Header(DATA_START, |b|), b);
    }
  }

  lemma CutHeader(header: Bytes, payload: Bytes)
    requires header != []
    ensures (header + payload)[1..|header|] == header[1..] && (header + payload)[|header|..] == payload
  {
  }

  /** The encodings of the items, one after another. */
  function Encodings(items: seq<Item>): (parts: seq<Bytes>)
    requires SizeAll(items) < SIZE_LIMIT
    ensures |parts| == |items|
  {
    if items == [] then [] else [Encode(items[0])] + Encodings(items[1..])
  }

  lemma {:induction false} EncodingsAt(items: seq<Item>, i: nat)
    requires SizeAll(items) < SIZE_LIMIT && i < |items|
    ensures Size(items[i]) < SIZE_LIMIT && Encodings(items)[i] == Encode(items[i])
  {
    if i > 0 {
      EncodingsAt(items[1..], i - 1);
    }
  }

  lemma {:induction false} EncodeAllIsConcat(items: seq<Item>)
    requires SizeAll(items) < SIZE_LIMIT
    ensures EncodeAll(items) == Concat(Encodings(items))
  {
    if items != [] {
      EncodeAllIsConcat(items[1..]);
      assert Encodings(items)[1..] == Encodings(items[1..]);
    }
  }

  /** The encoding of a list: a header by the length of the payload, then the encoded items in order. */
  lemma ListForm(items: seq<Item>) returns (k: nat)
    requires Size(List(items)) < SIZE_LIMIT
    ensures SizeAll(items) < SIZE_LIMIT
    ensures var p := Concat(Encodings(items));
            |p| <= 55 ==> Encode(List(items)) == [0xc0 + |p|] + p
    ensures var e, p := Encode(List(items)), Concat(Encodings(items));
            |p| >= 56 ==>
              && 1 <= k <= 8 && |e| == 1 + k + |p| && e[0] == 0xf7 + k
              && e[1] != 0 && Value(e[1..1 + k]) == |p| && e[1 + k..] == p
  {
    k := 0;
    EncodeAllIsConcat(items);
    var p := EncodeAll(items);
    if |p| >= 56 {
      k := LongHeader(LIST_START, |p|);
      CutHeader(Header(LIST_START, |p|), p);
    }
  }
}
