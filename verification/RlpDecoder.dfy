/**
 * Reading RLP: the checks of the `RLP` class and a full decode.
 *
 * `requireGood` is meant to reject a single byte below 0x80 that was written in two bytes. As
 * written, its last `throw` is outside the `if` and every item that starts with 0x81 is rejected.
 * Everything below is stated for both readings of that check.
 */
module RlpDecoder {
  import opened Common
  import opened BigEndian
  import opened Rlp

  datatype Check = AsWritten | Documented

  predicate RequireGood(c: Check, d: Bytes) {
    && d != []
    && (d[0] != DATA_START + 1 || (c.Documented? && |d| >= 2 && d[1] >= DATA_START))
  }

  /** Lengths from here on are rejected so that header and length add up without overflow. */
  const LENGTH_LIMIT: nat := SIZE_LIMIT - 1 - 0x100

  /** The length held in `n` bytes after the first one. */
  function LongLength(d: Bytes, n: nat): Result<nat>
    requires 0 < n <= 8
  {
    if |d| <= n || d[1] == 0 then Err
    else
      var len := Value(d[1..1 + n]);
      if len < IMM_COUNT || len >= LENGTH_LIMIT then Err else Ok(len)
  }

  function Length(c: Check, d: Bytes): Result<nat> {
    if d == [] then Ok(0)
    else if !RequireGood(c, d) then Err
    else if d[0] < DATA_START then Ok(1)
    else if d[0] <= 0xb7 then Ok(d[0] - DATA_START)
    else if d[0] < LIST_START then LongLength(d, d[0] - 0xb7)
    else if d[0] <= 0xf7 then Ok(d[0] - LIST_START)
    else LongLength(d, d[0] - 0xf7)
  }

  function LengthSize(d: Bytes): nat {
    if d == [] then 0
    else if d[0] < LIST_START then (if d[0] > 0xb7 then d[0] - 0xb7 else 0)
    else if d[0] > 0xf7 then d[0] - 0xf7 else 0
  }

  function PayloadOffset(d: Bytes): nat {
    if d != [] && d[0] < DATA_START then 0 else 1 + LengthSize(d)
  }

  /** The size the first item of `d` claims to have. */
  function ActualSize(c: Check, d: Bytes): (r: Result<nat>)
    ensures r.Ok? && d != [] ==> r.value > 0
  {
    if d == [] then Ok(0)
    else if d[0] < DATA_START then Ok(1)
    else
      var len :- Length(c, d);
      Ok(PayloadOffset(d) + len)
  }

  /** `sizeAsEncoded`: fails when `d` is too short for its first item. */
  function SizeAsEncoded(c: Check, d: Bytes): (r: Result<nat>)
    ensures r.Ok? ==> r.value <= |d| && (d != [] ==> r.value > 0)
  {
    var n :- ActualSize(c, d);
    if n > |d| then Err else Ok(n)
  }

  function Payload(c: Check, d: Bytes): (r: Result<Bytes>)
    ensures r.Ok? ==> |r.value| <= |d|
    ensures r.Ok? && d != [] && d[0] >= DATA_START ==> |r.value| < |d|
  {
    var len :- Length(c, d);
    if len > |d| then Err else Ok(Cropped(d, PayloadOffset(d), len))
  }

  /** A strict decode of exactly one item, all the way down. */
  function Decode(c: Check, d: Bytes): Result<Item>
    decreases |d|, 0
  {
    var n :- ActualSize(c, d);
    if n != |d| || d == [] then Err
    else
      var p :- Payload(c, d);
      if d[0] < LIST_START then Ok(Data(p))
      else
        var items :- DecodeAll(c, p);
        Ok(List(items))
  }

  function DecodeAll(c: Check, p: Bytes): Result<seq<Item>>
    decreases |p|, 1
  {
    if p == [] then Ok([])
    else
      var n :- SizeAsEncoded(c, p);
      var first :- Decode(c, p[..n]);
      var rest :- DecodeAll(c, p[n..]);
      Ok([first] + rest)
  }

  // ---- Decode inverts encode -------------------------------------------------------------------

  /** Some data item of the tree is a single byte that is written in two. */
  predicate HasHighByte(it: Item) {
    match it
    case Data(b) => |b| == 1 && b[0] >= DATA_START
    case List(items) => AnyHighByte(items)
  }

  predicate AnyHighByte(items: seq<Item>) {
    items != [] && (HasHighByte(items[0]) || AnyHighByte(items[1..]))
  }

  /** The tree is read back by `c`. */
  predicate Readable(c: Check, it: Item) {
    c.Documented? || !HasHighByte(it)
  }

  predicate AllReadable(c: Check, items: seq<Item>) {
    c.Documented? || !AnyHighByte(items)
  }

  /** A header that was written is read back, whatever follows it. */
  lemma HeaderRead(c: Check, base: Byte, len: nat, tail: Bytes)
    requires (base == DATA_START || base == LIST_START) && len < LENGTH_LIMIT
    requires RequireGood(c, Header(base, len) + tail)
    ensures var d := Header(base, len) + tail;
            d[0] >= base && (d[0] >= LIST_START <==> base == LIST_START) &&
            Length(c, d) == Ok(len) && PayloadOffset(d) == HeaderSize(len)
  {
    var d := Header(base, len) + tail;
    if len < IMM_COUNT {
      assert d[0] == base + len;
    } else {
      var n := BytesRequired(len);
      SizeBytes(len);
      assert d[0] == base + 55 + n;
      assert d[1..1 + n] == Compact(len);
      LongLengthRead(len, d);
    }
  }

  lemma LongLengthRead(len: nat, d: Bytes)
    requires IMM_COUNT <= len < LENGTH_LIMIT
    requires BytesRequired(len) < |d| && BytesRequired(len) <= 8
    requires d[1..1 + BytesRequired(len)] == Compact(len)
    ensures BytesRequired(len) > 0 && LongLength(d, BytesRequired(len)) == Ok(len)
  {
    CompactValue(len);
    assert d[1] == d[1..1 + BytesRequired(len)][0];
  }

  /** The item itself, not its parts, is not the two-byte form of a single byte. */
  predicate ReadableTop(c: Check, it: Item) {
    c.Documented? || !(it.Data? && |it.bytes| == 1 && it.bytes[0] >= DATA_START)
  }

  /** An encoding announces its own size, whatever follows it. */
  lemma EncodingSize(c: Check, it: Item, tail: Bytes)
    requires Size(it) < LENGTH_LIMIT
    ensures ActualSize(c, Encode(it) + tail) == if ReadableTop(c, it) then Ok(Size(it)) else Err
  {
    match it
    case Data(b) =>
      if SelfEncoded(b) {
        assert (b + tail)[0] == b[0];
      } else {
        Assoc(Header(DATA_START, |b|), b, tail);
        DataGood(c, b, tail);
        if ReadableTop(c, it) {
          HeaderRead(c, DATA_START, |b|, b + tail);
        }
      }
    case List(items) =>
      Assoc(Header(LIST_START, SizeAll(items)), EncodeAll(items), tail);
      FirstByte(LIST_START, SizeAll(items), EncodeAll(items) + tail);
      HeaderRead(c, LIST_START, SizeAll(items), EncodeAll(items) + tail);
  }

  /** The check lets a data item with a header through unless it is one high byte read as written. */
  lemma DataGood(c: Check, b: Bytes, tail: Bytes)
    requires !SelfEncoded(b) && |b| < SIZE_LIMIT
    ensures var d := Header(DATA_START, |b|) + (b + tail);
            d[0] >= DATA_START && (RequireGood(c, d) <==> ReadableTop(c, Data(b)))
  {
    var d := Header(DATA_START, |b|) + (b + tail);
    FirstByte(DATA_START, |b|, b + tail);
    if |b| == 1 {
      assert d[1] == b[0];
    }
  }

  lemma FirstByte(base: Byte, len: nat, tail: Bytes)
    requires (base == DATA_START || base == LIST_START) && len < SIZE_LIMIT
    ensures (Header(base, len) + tail)[0] == base + if len < IMM_COUNT then len else 55 + BytesRequired(len)
    ensures len >= IMM_COUNT ==> 0 < BytesRequired(len) <= 8
  {
    SizeBytes(len);
  }

  lemma CropTail(h: Bytes, b: Bytes)
    ensures Cropped(h + b, |h|, |b|) == b
  {
  }

  /** What follows the header of an encoding is its payload. */
  lemma EncodingPayload(c: Check, it: Item)
    requires Size(it) < LENGTH_LIMIT && ReadableTop(c, it)
    ensures Payload(c, Encode(it)) == Ok(if it.Data? then it.bytes else EncodeAll(it.items))
    ensures Encode(it)[0] >= LIST_START <==> it.List?
  {
    match it
    case Data(b) =>
      if SelfEncoded(b) {
        assert b[0..1] == b;
      } else {
        assert b + [] == b;
        DataGood(c, b, []);
        HeaderRead(c, DATA_START, |b|, b);
        CropTail(Header(DATA_START, |b|), b);
      }
    case List(items) =>
      FirstByte(LIST_START, SizeAll(items), EncodeAll(items));
      HeaderRead(c, LIST_START, SizeAll(items), EncodeAll(items));
      CropTail(Header(LIST_START, SizeAll(items)), EncodeAll(items));
  }

  /** Decoding an encoding gives the tree back, exactly when the check lets every part of it through. */
  lemma {:induction false} DecodeInvertsEncode(c: Check, it: Item)
    requires Size(it) < LENGTH_LIMIT
    ensures Decode(c, Encode(it)) == if Readable(c, it) then Ok(it) else Err
    decreases it
  {
    assert Encode(it) + [] == Encode(it);
    EncodingSize(c, it, []);
    if ReadableTop(c, it) {
      EncodingPayload(c, it);
      match it
      case Data(b) =>
      case List(items) => DecodeAllInvertsEncodeAll(c, items);
    }
  }

  lemma {:induction false} DecodeAllInvertsEncodeAll(c: Check, items: seq<Item>)
    requires SizeAll(items) < LENGTH_LIMIT
    ensures DecodeAll(c, EncodeAll(items)) == if AllReadable(c, items) then Ok(items) else Err
    decreases items
  {
    if items != [] {
      var first, rest := Encode(items[0]), EncodeAll(items[1..]);
      EncodingSize(c, items[0], rest);
      DecodeInvertsEncode(c, items[0]);
      DecodeAllInvertsEncodeAll(c, items[1..]);
      assert (first + rest)[..|first|] == first && (first + rest)[|first|..] == rest;
      assert [items[0]] + items[1..] == items;
    }
  }

  // ---- Accepted input is canonical -------------------------------------------------------------

  /** An accepted long length is the one the encoder writes. */
  lemma LongLengthWritten(d: Bytes, n: nat)
    requires 0 < n <= 8 && LongLength(d, n).Ok?
    ensures var len := LongLength(d, n).value;
            BytesRequired(len) == n && d[1..1 + n] == Compact(len) && IMM_COUNT <= len < LENGTH_LIMIT
  {
    assert d[1..1 + n][0] == d[1];
    ValueCompact(d[1..1 + n]);
  }

  function BaseOf(d: Bytes): Byte
    requires d != []
  {
    if d[0] < LIST_START then DATA_START else LIST_START
  }

  /** An accepted item with a header is that header followed by its payload. */
  lemma HeaderWritten(c: Check, d: Bytes)
    requires d != [] && d[0] >= DATA_START && ActualSize(c, d) == Ok(|d|)
    ensures Payload(c, d).Ok?
    ensures var p := Payload(c, d).value;
            |p| < LENGTH_LIMIT && d == Header(BaseOf(d), |p|) + p
  {
    PayloadWritten(c, d);
    CutInTwo(d, PayloadOffset(d));
    if d[0] > BaseOf(d) + 55 {
      LongHeaderWritten(c, d);
    } else {
      CutFirst(d, 1);
    }
  }

  lemma LongHeaderWritten(c: Check, d: Bytes)
    requires d != [] && d[0] > BaseOf(d) + 55 && ActualSize(c, d) == Ok(|d|)
    ensures var off := PayloadOffset(d);
            off <= |d| && |d| - off < LENGTH_LIMIT && d[..off] == Header(BaseOf(d), |d| - off)
  {
    var n := LongFacts(c, d);
    LongLengthWritten(d, n);
    HeaderFrom(d, BaseOf(d), n, LongLength(d, n).value);
  }

  lemma LongFacts(c: Check, d: Bytes) returns (n: nat)
    requires d != [] && d[0] > BaseOf(d) + 55 && ActualSize(c, d) == Ok(|d|)
    ensures 0 < n <= 8 && d[0] == BaseOf(d) + 55 + n && PayloadOffset(d) == 1 + n
    ensures LongLength(d, n).Ok? && |d| == 1 + n + LongLength(d, n).value
  {
    n := d[0] - BaseOf(d) - 55;
  }

  lemma HeaderFrom(d: Bytes, base: Byte, n: nat, len: nat)
    requires base == DATA_START || base == LIST_START
    requires n < |d| && d[0] == base + 55 + n && d[1..1 + n] == Compact(len)
    requires n == BytesRequired(len) && IMM_COUNT <= len < SIZE_LIMIT
    ensures d[..1 + n] == Header(base, len)
  {
    CutFirst(d, 1 + n);
  }

  lemma PayloadWritten(c: Check, d: Bytes)
    requires d != [] && d[0] >= DATA_START && ActualSize(c, d) == Ok(|d|)
    ensures var off := PayloadOffset(d); off <= |d| && Payload(c, d) == Ok(d[off..])
  {
    CutInTwo(d, PayloadOffset(d));
  }

  lemma CutInTwo(d: Bytes, off: nat)
    requires off <= |d|
    ensures d == d[..off] + d[off..] && d[off..] == d[off..|d|]
  {
  }

  lemma CutFirst(d: Bytes, off: nat)
    requires 0 < off <= |d|
    ensures d[..off] == [d[0]] + d[1..off]
  {
  }

  /** Re-encoding an accepted input gives the input back. */
  lemma {:induction false} EncodeInvertsDecode(c: Check, d: Bytes)
    requires Decode(c, d).Ok?
    ensures Size(Decode(c, d).value) == |d| < SIZE_LIMIT && Encode(Decode(c, d).value) == d
    decreases |d|, 0
  {
    if d[0] >= DATA_START {
      HeaderWritten(c, d);
      var p := Payload(c, d).value;
      if d[0] < LIST_START {
        assert |p| == 1 ==> d[1] == p[0] && d[0] == DATA_START + 1;
      } else {
        EncodeAllInvertsDecodeAll(c, p);
      }
      HeaderSizeBound(|p|);
    }
  }

  lemma HeaderSizeBound(len: nat)
    requires len < LENGTH_LIMIT
    ensures HeaderSize(len) + len < SIZE_LIMIT
  {
    SizeBytes(len);
  }

  lemma {:induction false} EncodeAllInvertsDecodeAll(c: Check, p: Bytes)
    requires DecodeAll(c, p).Ok?
    ensures SizeAll(DecodeAll(c, p).value) == |p|
    ensures |p| < SIZE_LIMIT ==> EncodeAll(DecodeAll(c, p).value) == p
    decreases |p|, 1
  {
    if p != [] {
      var n := SizeAsEncoded(c, p).value;
      var first, rest := Decode(c, p[..n]).value, DecodeAll(c, p[n..]).value;
      assert DecodeAll(c, p).value == [first] + rest;
      EncodeInvertsDecode(c, p[..n]);
      EncodeAllInvertsDecodeAll(c, p[n..]);
      EncodeCons(first, rest);
      CutInTwo(p, n);
    }
  }

  lemma EncodeCons(first: Item, rest: seq<Item>)
    ensures SizeAll([first] + rest) == Size(first) + SizeAll(rest)
    ensures SizeAll([first] + rest) < SIZE_LIMIT ==> EncodeAll([first] + rest) == Encode(first) + EncodeAll(rest)
  {
    assert ([first] + rest)[1..] == rest;
  }

  /** RLP is injective: two trees with one encoding are one tree. */
  lemma EncodeInjective(a: Item, b: Item)
    requires Size(a) < LENGTH_LIMIT && Size(b) < LENGTH_LIMIT && Encode(a) == Encode(b)
    ensures a == b
  {
    DecodeInvertsEncode(Documented, a);
    DecodeInvertsEncode(Documented, b);
  }

  /** The input the written check loses: the byte 0x80 on its own. */
  lemma HighByteIsLost()
    ensures Encode(Data([0x80])) == [0x81, 0x80]
    ensures Decode(Documented, [0x81, 0x80]) == Ok(Data([0x80]))
    ensures Decode(AsWritten, [0x81, 0x80]) == Err
  {
    var it := Data([0x80]);
    assert Header(DATA_START, 1) == [0x81];
    assert Encode(it) == [0x81, 0x80];
    DecodeInvertsEncode(Documented, it);
    DecodeInvertsEncode(AsWritten, it);
  }

  // ---- Lengths by the first byte ---------------------------------------------------------------

  /** What the first byte says of the length when it says all; as written, 0x81 is always refused. */
  lemma ShortLength(c: Check, d: Bytes)
    requires d != []
    ensures d[0] < 0x80 ==> Length(c, d) == Ok(1) && PayloadOffset(d) == 0
    ensures d[0] == 0x80 || 0x82 <= d[0] <= 0xb7 ==> Length(c, d) == Ok(d[0] - 0x80) && PayloadOffset(d) == 1
    ensures 0xc0 <= d[0] <= 0xf7 ==> Length(c, d) == Ok(d[0] - 0xc0) && PayloadOffset(d) == 1
    ensures d[0] == 0x81 ==>
              Length(c, d) == if c.Documented? && |d| >= 2 && d[1] >= 0x80 then Ok(1) else Err
  {
  }

  /** A length of `k` bytes after the first: refused when cut off, with a leading zero, or below 56. */
  lemma LongLengthRule(c: Check, d: Bytes, k: nat)
    requires 1 <= k <= 8 && d != [] && (d[0] == 0xb7 + k || d[0] == 0xf7 + k)
    ensures Length(c, d) ==
            if |d| > k && d[1] != 0 && 56 <= Value(d[1..1 + k]) < 0xFFFF_FFFF_FFFF_FEFF
            then Ok(Value(d[1..1 + k])) else Err
    ensures PayloadOffset(d) == 1 + k
  {
  }

  // ---- The longest length ----------------------------------------------------------------------

  lemma EightByteNumber(n: nat)
    requires n < 0x1_0000_0000_0000_0000
    ensures Value(Fixed(n, 8)) == n && (Fixed(n, 8)[0] != 0 <==> n >= 0x100_0000_0000_0000)
  {
    assert Pow256(2) == 0x1_0000;
    assert Pow256(4) == 0x1_0000_0000;
    assert Pow256(6) == 0x1_0000_0000_0000;
    assert Pow256(7) == 0x100_0000_0000_0000;
    assert Pow256(8) == 0x1_0000_0000_0000_0000;
    FixedValue(n, 8);
    ValueFirst(Fixed(n, 8), 0x100_0000_0000_0000);
    ValueBound(Fixed(n, 8)[1..]);
  }

  /** An eight-byte length is read exactly when it needs eight bytes and is below 2^64 - 257. */
  lemma EightByteLength(c: Check, first: Byte, n: nat, tail: Bytes)
    requires (first == 0xbf || first == 0xff) && n < 0x1_0000_0000_0000_0000
    ensures Length(c, [first] + Fixed(n, 8) + tail) ==
            if 0x100_0000_0000_0000 <= n < 0xFFFF_FFFF_FFFF_FEFF then Ok(n) else Err
  {
    var d := [first] + Fixed(n, 8) + tail;
    EightByteNumber(n);
    assert d[1..9] == Fixed(n, 8) && d[1] == Fixed(n, 8)[0];
  }
}
