/** Big-endian integers: `bytesRequired`, `toBigEndian`, `toCompactBigEndian`, `fromBigEndian`. */
module BigEndian {
  import opened Common

  function Pow256(k: nat): (p: nat)
    ensures p > 0
  {
    if k == 0 then 1 else 256 * Pow256(k - 1)
  }

  /** The fewest bytes that hold `n`; none for zero. */
  function BytesRequired(n: nat): nat {
    if n == 0 then 0 else 1 + BytesRequired(n / 256)
  }

  /** The compact form: no leading zero, empty for zero. */
  function Compact(n: nat): (b: Bytes)
    ensures |b| == BytesRequired(n)
  {
    if n == 0 then [] else Compact(n / 256) + [n % 256]
  }

  /** The `w` low-order bytes of `n`. */
  function Fixed(n: nat, w: nat): (b: Bytes)
    ensures |b| == w
  {
    if w == 0 then [] else Fixed(n / 256, w - 1) + [n % 256]
  }

  function Value(b: Bytes): nat {
    if b == [] then 0 else 256 * Value(b[..|b| - 1]) + b[|b| - 1]
  }

  lemma ValueSnoc(b: Bytes, x: Byte)
    ensures Value(b + [x]) == 256 * Value(b) + x
  {
    assert (b + [x])[..|b|] == b;
  }

  lemma Shifted(x: nat, p: nat)
    ensures 256 * (x * p) == x * (256 * p)
  {
  }

  /** The first byte weighs most. */
  lemma {:induction false} ValueFirst(b: Bytes, p: nat)
    requires b != [] && p == Pow256(|b| - 1)
    ensures Value(b) == b[0] * p + Value(b[1..])
  {
    if |b| == 1 {
      assert b[..0] == [] && b[1..] == [];
    } else {
      var init, last := b[..|b| - 1], b[|b| - 1];
      ValueFirst(init, Pow256(|init| - 1));
      Shifted(b[0], Pow256(|init| - 1));
      TailSnoc(b);
    }
  }

  lemma TailSnoc(b: Bytes)
    requires |b| > 1
    ensures Value(b[1..]) == 256 * Value(b[..|b| - 1][1..]) + b[|b| - 1]
  {
    assert b[1..] == b[..|b| - 1][1..] + [b[|b| - 1]];
    ValueSnoc(b[..|b| - 1][1..], b[|b| - 1]);
  }

  lemma {:induction false} CompactValue(n: nat)
    ensures Value(Compact(n)) == n
    ensures n > 0 ==> Compact(n)[0] != 0
  {
    if n > 0 {
      CompactValue(n / 256);
      ValueSnoc(Compact(n / 256), n % 256);
    }
  }

  /** A byte string without a leading zero is the compact form of its value. */
  lemma {:induction false} ValueCompact(b: Bytes)
    requires b != [] ==> b[0] != 0
    ensures Compact(Value(b)) == b
    ensures b != [] ==> Value(b) > 0
  {
    if b != [] {
      var init := b[..|b| - 1];
      ValueCompact(init);
      assert Value(b) / 256 == Value(init) && Value(b) % 256 == b[|b| - 1];
      assert b == init + [b[|b| - 1]];
    }
  }

  lemma {:induction false} ValueBound(b: Bytes)
    ensures Value(b) < Pow256(|b|)
  {
    if b != [] {
      ValueBound(b[..|b| - 1]);
    }
  }

  lemma {:induction false} BytesRequiredBound(n: nat, k: nat)
    ensures BytesRequired(n) <= k <==> n < Pow256(k)
  {
    if n > 0 && k > 0 {
      BytesRequiredBound(n / 256, k - 1);
    }
  }

  lemma {:induction false} FixedValue(n: nat, w: nat)
    requires n < Pow256(w)
    ensures Value(Fixed(n, w)) == n
  {
    if w > 0 {
      FixedValue(n / 256, w - 1);
      ValueSnoc(Fixed(n / 256, w - 1), n % 256);
    }
  }

  lemma {:induction false} ValueFixed(b: Bytes)
    ensures Fixed(Value(b), |b|) == b
  {
    if b != [] {
      var init := b[..|b| - 1];
      ValueFixed(init);
      assert Value(b) / 256 == Value(init) && Value(b) % 256 == b[|b| - 1];
      assert b == init + [b[|b| - 1]];
    }
  }

  /** Eight bytes hold exactly the values of `size_t`. */
  lemma SizeBytes(n: nat)
    ensures BytesRequired(n) <= 8 <==> n < SIZE_LIMIT
  {
    BytesRequiredBound(n, 8);
    assert Pow256(2) == 0x1_0000;
    assert Pow256(4) == 0x1_0000_0000;
    assert Pow256(6) == 0x1_0000_0000_0000;
    assert Pow256(8) == SIZE_LIMIT;
  }
}
