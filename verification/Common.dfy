/** Value types shared by every part of the model. */
module Common {

  datatype Option<+T> = None | Some(value: T)

  datatype Result<+T> = Ok(value: T) | Err {
    predicate IsFailure() { Err? }

    function PropagateFailure<U>(): Result<U>
      requires Err?
    {
      Err
    }

    function Extract(): T
      requires Ok?
    {
      value
    }
  }

  /** One octet. An integer subset type, so that shifts and masks are written as `/` and `%`. */
  type Byte = b: int | 0 <= b < 256

  type Bytes = seq<Byte>

  /** One past the largest value of the 64-bit `size_t`. */
  const SIZE_LIMIT: nat := 0x1_0000_0000_0000_0000

  /** `vector_ref::cropped(begin, count)`: empty when the range does not fit. */
  function Cropped(d: Bytes, begin: nat, count: nat): Bytes {
    if begin + count <= |d| then d[begin..begin + count] else []
  }

  function ZeroBytes(n: nat): (z: Bytes)
    ensures |z| == n
  {
    seq(n, _ => 0)
  }

  ghost predicate Digest32(h: Bytes -> Bytes) {
    forall x :: |h(x)| == 32
  }

  /** A hash function with 32-byte digests. */
  type HashFn = h: Bytes -> Bytes | Digest32(h) witness (_ => seq(32, _ => 0))

  /** Concatenation of a list of sequences, in order. */
  function Concat<T>(parts: seq<seq<T>>): seq<T> {
    if parts == [] then [] else parts[0] + Concat(parts[1..])
  }

  ghost predicate NoDup<T>(s: seq<T>) {
    forall i, j :: 0 <= i < j < |s| ==> s[i] != s[j]
  }

  function Indices(n: nat): (s: set<nat>)
    ensures forall i :: i in s <==> 0 <= i < n
  {
    if n == 0 then {} else Indices(n - 1) + {n - 1}
  }

  lemma Assoc<T>(a: seq<T>, b: seq<T>, c: seq<T>)
    ensures a + b + c == a + (b + c)
  {
  }

  lemma {:induction false} ConcatAppend<T>(a: seq<seq<T>>, b: seq<seq<T>>)
    ensures Concat(a + b) == Concat(a) + Concat(b)
  {
    if a == [] {
      assert a + b == b;
    } else {
      ConcatAppend(a[1..], b);
      assert (a + b)[1..] == a[1..] + b;
      Assoc(a[0], Concat(a[1..]), Concat(b));
    }
  }

  lemma ConcatSnoc<T>(parts: seq<seq<T>>, last: seq<T>)
    ensures Concat(parts + [last]) == Concat(parts) + last
  {
    ConcatAppend(parts, [last]);
    assert Concat([last]) == last;
  }
}
