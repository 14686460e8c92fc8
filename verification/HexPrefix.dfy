/** Nibble strings and the hex-prefix form of Appendix C of the Ethereum Yellow Paper. */
module HexPrefix {
  import opened Common

  type Nibble = x: int | 0 <= x < 16

  type Nibbles = seq<Nibble>

  /** `nibble(data, i)`. */
  function NibbleAt(d: Bytes, i: nat): Nibble
    requires i < 2 * |d|
  {
    if i % 2 == 1 then d[i / 2] % 16 else d[i / 2] / 16
  }

  /** `asNibbles`: every byte as its high and its low nibble. */
  function Unpack(d: Bytes): (n: Nibbles)
    ensures |n| == 2 * |d|
  {
    seq(2 * |d|, i requires 0 <= i < 2 * |d| => NibbleAt(d, i))
  }

  /** The byte with these two halves. */
  function Join(high: Nibble, low: Nibble): (b: Byte)
    ensures b / 16 == high && b % 16 == low
  {
    var h: int := high;
    h * 16 + low
  }

  /** Two nibbles to a byte; a last single nibble is followed by a zero. */
  function Pack(n: Nibbles): (d: Bytes)
    ensures |d| == (|n| + 1) / 2
  {
    seq((|n| + 1) / 2, k requires 0 <= k < (|n| + 1) / 2 => Join(n[2 * k], if 2 * k + 1 < |n| then n[2 * k + 1] else 0))
  }

  /** The two halves of byte `k`. */
  lemma Halves(d: Bytes, k: nat)
    requires k < |d|
    ensures Unpack(d)[2 * k] == d[k] / 16 && Unpack(d)[2 * k + 1] == d[k] % 16
  {
    assert (2 * k) / 2 == k && (2 * k + 1) / 2 == k;
  }

  lemma UnpackPack(n: Nibbles)
    requires |n| % 2 == 0
    ensures Unpack(Pack(n)) == n
  {
    forall i | 0 <= i < |n|
      ensures Unpack(Pack(n))[i] == n[i]
    {
      Half(i);
      PackedPair(n, i / 2);
    }
  }

  lemma Half(i: nat)
    ensures i == 2 * (i / 2) || i == 2 * (i / 2) + 1
  {
  }

  lemma PackedPair(n: Nibbles, k: nat)
    requires 2 * k + 1 < |n|
    ensures Unpack(Pack(n))[2 * k] == n[2 * k] && Unpack(Pack(n))[2 * k + 1] == n[2 * k + 1]
  {
    assert Pack(n)[k] == Join(n[2 * k], n[2 * k + 1]);
    Halves(Pack(n), k);
  }

  lemma JoinHalves(b: Byte)
    ensures Join(b / 16, b % 16) == b
  {
  }

  lemma PackUnpack(d: Bytes)
    ensures Pack(Unpack(d)) == d
  {
    forall k | 0 <= k < |d|
      ensures Pack(Unpack(d))[k] == d[k]
    {
      Halves(d, k);
      JoinHalves(d[k]);
    }
  }

  /** Flag and padding nibbles in front of a key; they make the total even. */
  function Flagged(key: Nibbles, leaf: bool): (n: Nibbles)
    ensures |n| % 2 == 0
  {
    var flag := if leaf then 2 else 0;
    if |key| % 2 == 1 then [flag + 1] + key else [flag, 0] + key
  }

  function Encoded(key: Nibbles, leaf: bool): Bytes {
    Pack(Flagged(key, leaf))
  }

  /** `keyOf`: the nibbles after the flag, as the oddness bit says. */
  function KeyOf(hpe: Bytes): Nibbles {
    if hpe == [] then []
    else if (hpe[0] / 16) % 2 == 1 then Unpack(hpe)[1..] else Unpack(hpe)[2..]
  }

  /** `isLeaf`: the termination bit. */
  predicate IsLeaf(hpe: Bytes)
    requires hpe != []
  {
    (hpe[0] / 32) % 2 == 1
  }

  /** `keyOf` inverts the encoding and the leaf flag survives. */
  lemma KeyOfEncoded(key: Nibbles, leaf: bool)
    ensures Encoded(key, leaf) != []
    ensures KeyOf(Encoded(key, leaf)) == key
    ensures IsLeaf(Encoded(key, leaf)) == leaf
  {
    var n := Flagged(key, leaf);
    UnpackPack(n);
    assert Encoded(key, leaf)[0] == Join(n[0], n[1]);
    FlagBits(n[0], n[1]);
    assert |key| % 2 == 1 ==> n[1..] == key;
    assert |key| % 2 == 0 ==> n[2..] == key;
  }

  /** The nibbles of an encoding: a flag nibble of 0 to 3, a zero nibble before an even key, the key. */
  lemma EncodedForm(key: Nibbles, leaf: bool)
    ensures Unpack(Encoded(key, leaf)) ==
            (match (leaf, |key| % 2 == 1)
             case (false, false) => [0, 0]
             case (false, true) => [1]
             case (true, false) => [2, 0]
             case (true, true) => [3]) + key
  {
    UnpackPack(Flagged(key, leaf));
  }

  lemma FlagBits(flag: Nibble, low: Nibble)
    ensures (Join(flag, low) / 16) % 2 == flag % 2 && (Join(flag, low) / 32) % 2 == (flag / 2) % 2
  {
  }

  /** The two high bits of the flag byte are clear, and an even key has a zero pad. */
  predicate Clean(hpe: Bytes)
    requires hpe != []
  {
    hpe[0] < 64 && ((hpe[0] / 16) % 2 == 1 || hpe[0] % 16 == 0)
  }

  lemma CleanFlags(hpe: Bytes)
    requires hpe != [] && Clean(hpe)
    ensures Flagged(KeyOf(hpe), IsLeaf(hpe)) == Unpack(hpe)
  {
    Halves(hpe, 0);
  }

  lemma EncodedIsClean(key: Nibbles, leaf: bool)
    ensures Encoded(key, leaf) != [] && Clean(Encoded(key, leaf))
  {
    var n := Flagged(key, leaf);
    assert Encoded(key, leaf)[0] == Join(n[0], n[1]);
  }

  /** Exactly the byte strings with clean flag bits and a zero pad are encodings. */
  lemma EncodedKeyOf(hpe: Bytes)
    requires hpe != []
    ensures Encoded(KeyOf(hpe), IsLeaf(hpe)) == hpe <==> hpe[0] < 64 && ((hpe[0] / 16) % 2 == 1 || hpe[0] % 16 == 0)
  {
    EncodedIsClean(KeyOf(hpe), IsLeaf(hpe));
    if Clean(hpe) {
      CleanFlags(hpe);
      PackUnpack(hpe);
    }
  }

  // ---- The three encoders ----------------------------------------------------------------------

  /** Appending one nibble: onto the low half of the last byte, or as a new high half. */
  lemma PackSnoc(n: Nibbles, x: Nibble)
    ensures |n| % 2 == 0 ==> Pack(n + [x]) == Pack(n) + [Join(x, 0)]
    ensures |n| % 2 == 1 ==> Pack(n + [x]) == Pack(n)[|n| / 2 := Pack(n)[|n| / 2] + x]
  {
  }

  /** From a vector that holds one nibble per element; a negative `end` counts from the back. */
  method EncodeVector(hex: Nibbles, leaf: bool, begin: nat, end: int) returns (ret: Bytes)
    requires begin <= (if end < 0 then |hex| + 1 + end else end) <= |hex|
    ensures ret == Encoded(hex[begin..if end < 0 then |hex| + 1 + end else end], leaf)
  {
    var e := if end < 0 then |hex| + 1 + end else end;
    var odd := (e - begin) % 2 != 0;
    var b := begin;
    ret := [Join((if leaf then 2 else 0) + (if odd then 1 else 0), 0)];
    ghost var want := Flagged(hex[begin..e], leaf);
    if odd {
      ret := ret[0 := ret[0] + hex[begin]];
      b := b + 1;
    }
    assert want[..2] + hex[b..e] == want && want[..2] == [want[0], want[1]];
    PackPair(want[0], want[1]);
    ret := AppendPairs(ret, hex[b..e], want[..2]);
  }

  lemma PackPair(x: Nibble, y: Nibble)
    ensures Pack([x, y]) == [Join(x, y)]
  {
  }

  /** The loop of the vector form: one byte per two nibbles. */
  method AppendPairs(start: Bytes, pairs: Nibbles, ghost sofar: Nibbles) returns (ret: Bytes)
    requires |pairs| % 2 == 0 && |sofar| % 2 == 0 && start == Pack(sofar)
    ensures ret == Pack(sofar + pairs)
  {
    ret := start;
    var i := 0;
    assert sofar + pairs[..0] == sofar;
    while i < |pairs|
      invariant 0 <= i <= |pairs| && i % 2 == 0 && ret == Pack(sofar + pairs[..i])
      decreases |pairs| - i
    {
      assert sofar + pairs[..i + 2] == (sofar + pairs[..i]) + [pairs[i]] + [pairs[i + 1]];
      PackTwo(sofar + pairs[..i], pairs[i], pairs[i + 1]);
      ret := ret + [Join(pairs[i], pairs[i + 1])];
      i := i + 2;
    }
    assert pairs[..i] == pairs;
  }

  lemma PackTwo(n: Nibbles, x: Nibble, y: Nibble)
    requires |n| % 2 == 0
    ensures Pack(n + [x] + [y]) == Pack(n) + [Join(x, y)]
  {
  }

  /** Onto the back when `d` is odd, as a new high half when it is even. */
  method PushNibble(ret: Bytes, d: nat, n: Nibble, ghost sofar: Nibbles) returns (ret': Bytes)
    requires ret == Pack(sofar) && sofar != [] && (d + |sofar|) % 2 == 0
    ensures ret' == Pack(sofar + [n]) && (d + 1 + |sofar + [n]|) % 2 == 0
  {
    PackSnoc(sofar, n);
    if d % 2 == 1 {
      ret' := ret[|ret| - 1 := ret[|ret| - 1] + n];
    } else {
      ret' := ret + [Join(n, 0)];
    }
  }

  lemma SliceSnoc(a: Nibbles, u: Nibbles, begin: nat, i: nat)
    requires begin <= i < |u|
    ensures a + u[begin..i + 1] == a + u[begin..i] + [u[i]]
  {
  }

  /** The shared inner loop of the packed forms: nibbles `begin` to `end` of `data` follow `sofar`. */
  method AppendNibbles(ret: Bytes, d: nat, data: Bytes, begin: nat, end: nat, ghost sofar: Nibbles)
    returns (ret': Bytes, d': nat)
    requires begin <= end <= 2 * |data|
    requires ret == Pack(sofar) && sofar != [] && (d + |sofar|) % 2 == 0
    ensures ret' == Pack(sofar + Unpack(data)[begin..end])
    ensures (d' + |sofar + Unpack(data)[begin..end]|) % 2 == 0
  {
    ret', d' := ret, d;
    var i := begin;
    ghost var done := sofar;
    assert sofar + Unpack(data)[begin..begin] == sofar;
    while i < end
      invariant begin <= i <= end && done != []
      invariant done == sofar + Unpack(data)[begin..i]
      invariant ret' == Pack(done) && (d' + |done|) % 2 == 0
    {
      SliceSnoc(sofar, Unpack(data), begin, i);
      ret' := PushNibble(ret', d', NibbleAt(data, i), done);
      done := done + [Unpack(data)[i]];
      i, d' := i + 1, d' + 1;
    }
  }

  /** From packed bytes with a nibble offset. */
  method EncodeSlice(data: Bytes, leaf: bool, beginNibble: nat, endNibble: int, offset: nat) returns (ret: Bytes)
    requires offset <= 2 * |data|
    requires var end := (if endNibble < 0 then 2 * |data| - offset + 1 + endNibble else endNibble) + offset;
             beginNibble + offset <= end <= 2 * |data|
    ensures var end := (if endNibble < 0 then 2 * |data| - offset + 1 + endNibble else endNibble) + offset;
            ret == Encoded(Unpack(data)[beginNibble + offset..end], leaf)
  {
    var begin := beginNibble + offset;
    var end := (if endNibble < 0 then 2 * |data| - offset + 1 + endNibble else endNibble) + offset;
    var odd := (end - begin) % 2 == 1;
    var d;
    ret, d := FirstByte(leaf, odd);
    ret, d := AppendNibbles(ret, d, data, begin, end, Front(leaf, odd));
    FrontEncoded(Unpack(data)[begin..end], leaf, odd);
  }

  /** The flag byte; `d` is odd when its low half is still to be filled. */
  method FirstByte(leaf: bool, odd: bool) returns (ret: Bytes, d: nat)
    ensures ret == Pack(Front(leaf, odd)) && (d + |Front(leaf, odd)|) % 2 == 0
  {
    ret := [Join((if leaf then 2 else 0) + (if odd then 1 else 0), 0)];
    d := if odd then 1 else 2;
  }

  /** From the rest of one packed string followed by the rest of another. */
  method EncodeJoined(d1: Bytes, o1: nat, d2: Bytes, o2: nat, leaf: bool) returns (ret: Bytes)
    requires o1 <= 2 * |d1| && o2 <= 2 * |d2|
    ensures ret == Encoded(Unpack(d1)[o1..] + Unpack(d2)[o2..], leaf)
  {
    var odd := (2 * |d1| - o1 + 2 * |d2| - o2) % 2 == 1;
    ghost var sofar := Front(leaf, odd);
    ghost var first, second := Unpack(d1)[o1..], Unpack(d2)[o2..];
    var d;
    ret, d := FirstByte(leaf, odd);
    ret, d := AppendRest(ret, d, d1, o1, sofar);
    ret, d := AppendRest(ret, d, d2, o2, sofar + first);
    Assoc(sofar, first, second);
    FrontEncoded(first + second, leaf, odd);
  }

  method AppendRest(ret: Bytes, d: nat, data: Bytes, begin: nat, ghost sofar: Nibbles) returns (ret': Bytes, d': nat)
    requires begin <= 2 * |data| && ret == Pack(sofar) && sofar != [] && (d + |sofar|) % 2 == 0
    ensures ret' == Pack(sofar + Unpack(data)[begin..])
    ensures (d' + |sofar + Unpack(data)[begin..]|) % 2 == 0
  {
    ToTheEnd(data, begin);
    ret', d' := AppendNibbles(ret, d, data, begin, 2 * |data|, sofar);
  }

  lemma ToTheEnd(data: Bytes, begin: nat)
    requires begin <= 2 * |data|
    ensures Unpack(data)[begin..2 * |data|] == Unpack(data)[begin..]
  {
  }

  /** The first byte as nibbles: only the flag yet when a nibble of the key is to join it. */
  ghost function Front(leaf: bool, odd: bool): Nibbles {
    var flag := if leaf then 2 else 0;
    if odd then [flag + 1] else [flag, 0]
  }

  lemma FrontFlagged(key: Nibbles, leaf: bool)
    ensures Front(leaf, |key| % 2 == 1) + key == Flagged(key, leaf)
  {
  }

  lemma FrontEncoded(key: Nibbles, leaf: bool, odd: bool)
    requires odd == (|key| % 2 == 1)
    ensures Encoded(key, leaf) == Pack(Front(leaf, odd) + key)
  {
    FrontFlagged(key, leaf);
  }
}
