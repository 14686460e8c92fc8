/** The contract ABI codec: head and tail encoding over nested array types. */
module Abi {
  import opened Common
  import opened BigEndian

  const WORD: nat := 32
  const U256_LIMIT: nat := 0x1_0000000000000000_0000000000000000_0000000000000000_0000000000000000

  /** The largest word that the decoder takes as a non-negative `int256`. */
  const SIGN_LIMIT: nat := 0x8fffffffffffffff_ffffffffffffffff_ffffffffffffffff_ffffffffffffffff

  /** `Text` stands for `string` and for `bytes`, which share one layout. */
  datatype Type =
    | UInt | SInt | Bool | Address | Bytes32 | Text
    | StaticArray(elem: Type, size: nat)
    | DynamicArray(elem: Type)

  datatype Val = Unsigned(n: nat) | Signed(i: int) | Flag(b: bool) | Raw(bytes: Bytes) | Array(elems: seq<Val>)

  ghost predicate HasType(v: Val, t: Type)
    decreases v
  {
    match t
    case UInt => v.Unsigned? && v.n < U256_LIMIT
    case SInt => v.Signed? && 0 - U256_LIMIT < v.i < U256_LIMIT
    case Bool => v.Flag?
    case Address => v.Raw? && |v.bytes| == 20
    case Bytes32 => v.Raw? && |v.bytes| == WORD
    case Text => v.Raw? && |v.bytes| < SIZE_LIMIT
    case StaticArray(e, n) => v.Array? && |v.elems| == n && AllHaveType(v.elems, e)
    case DynamicArray(e) => v.Array? && |v.elems| < SIZE_LIMIT && AllHaveType(v.elems, e)
  }

  ghost predicate AllHaveType(vs: seq<Val>, e: Type)
    decreases vs
  {
    forall i :: 0 <= i < |vs| ==> HasType(vs[i], e)
  }

  /** `ABIDynamicType`. */
  predicate IsDynamic(t: Type) {
    match t
    case Text => true
    case DynamicArray(_) => true
    case StaticArray(e, _) => IsDynamic(e)
    case _ => false
  }

  /** `Length`: the number of head words. */
  function Length(t: Type): nat {
    if t.StaticArray? && !IsDynamic(t) then t.size * Length(t.elem) else 1
  }

  // ---- Encoding --------------------------------------------------------------------------------

  function Word(n: nat): (w: Bytes)
    ensures |w| == WORD
  {
    Fixed(n, WORD)
  }

  /** Zero bytes after a text of the given length. */
  function Padding(n: nat): nat {
    (n + 31) / 32 * 32 - n
  }

  /** Offset words of parts whose contents begin at `start`. */
  function Words(parts: seq<Bytes>, start: nat): (w: Bytes)
    ensures |w| == |parts| * 32
  {
    if parts == [] then [] else Word(start) + Words(parts[1..], start + |parts[0]|)
  }

  /** The elements of an array: offset words first when the elements are dynamic. */
  function Body(parts: seq<Bytes>, dynamic: bool): Bytes {
    (if dynamic then Words(parts, |parts| * 32) else []) + Concat(parts)
  }

  /** The layout of one value. */
  function Layout(v: Val, t: Type): Bytes
    requires HasType(v, t)
    decreases v
  {
    match t
    case UInt => Word(v.n)
    case SInt => Word(v.i % U256_LIMIT)
    case Bool => Word(if v.b then 1 else 0)
    case Address => ZeroBytes(12) + v.bytes
    case Bytes32 => v.bytes
    case Text => Word(|v.bytes|) + (v.bytes + ZeroBytes(Padding(|v.bytes|)))
    case StaticArray(e, _) => Body(Layouts(v.elems, e), IsDynamic(e))
    case DynamicArray(e) => Word(|v.elems|) + Body(Layouts(v.elems, e), IsDynamic(e))
  }

  function Layouts(vs: seq<Val>, e: Type): (parts: seq<Bytes>)
    requires AllHaveType(vs, e)
    ensures |parts| == |vs|
    decreases vs
  {
    if vs == [] then [] else [Layout(vs[0], e)] + Layouts(vs[1..], e)
  }

  ghost predicate HaveTypes(vs: seq<Val>, ts: seq<Type>) {
    |vs| == |ts| && forall i :: 0 <= i < |vs| ==> HasType(vs[i], ts[i])
  }

  /** `Offset`: the head words of an argument list. */
  function HeadWords(ts: seq<Type>): nat {
    if ts == [] then 0 else Length(ts[0]) + HeadWords(ts[1..])
  }

  datatype Arg = Arg(dynamic: bool, bytes: Bytes)

  function Args(vs: seq<Val>, ts: seq<Type>): (args: seq<Arg>)
    requires HaveTypes(vs, ts)
    ensures |args| == |vs|
    ensures forall i :: 0 <= i < |vs| ==> args[i] == Arg(IsDynamic(ts[i]), Layout(vs[i], ts[i]))
  {
    seq(|vs|, i requires 0 <= i < |vs| && HasType(vs[i], ts[i]) => Arg(IsDynamic(ts[i]), Layout(vs[i], ts[i])))
  }

  function Heads(args: seq<Arg>, offset: nat): Bytes {
    if args == [] then []
    else if args[0].dynamic then Word(offset) + Heads(args[1..], offset + |args[0].bytes|)
    else args[0].bytes + Heads(args[1..], offset)
  }

  function Tails(args: seq<Arg>): Bytes {
    if args == [] then [] else (if args[0].dynamic then args[0].bytes else []) + Tails(args[1..])
  }

  /** What `abiIn` produces after the selector. */
  function Encoded(vs: seq<Val>, ts: seq<Type>): Bytes
    requires HaveTypes(vs, ts)
  {
    Heads(Args(vs, ts), HeadWords(ts) * 32) + Tails(Args(vs, ts))
  }

  // ---- Decoding --------------------------------------------------------------------------------

  /** `size_t` arithmetic. */
  function Wrap(n: nat): (r: nat)
    ensures r < SIZE_LIMIT
    ensures n < SIZE_LIMIT ==> r == n
  {
    if n < SIZE_LIMIT then n else n % SIZE_LIMIT
  }

  /** The guard before every read of a word. */
  predicate WordInside(data: Bytes, off: nat) {
    Wrap(off + WORD - 1) < |data|
  }

  function WordAt(data: Bytes, off: nat): Result<nat> {
    if WordInside(data, off) then Ok(Value(Cropped(data, off, WORD))) else Err
  }

  /** `populate` into a buffer of `n` bytes. */
  function Populated(b: Bytes, n: nat): (r: Bytes)
    ensures |r| == n
  {
    if |b| >= n then b[..n] else b + ZeroBytes(n - |b|)
  }

  /** The `int256` that the decoder makes of a word. */
  function Sign(u: nat): int {
    if u > SIGN_LIMIT then u - U256_LIMIT else u
  }

  function Read(data: Bytes, t: Type, off: nat): Result<Val>
    decreases t, 0
  {
    match t
    case UInt => var n :- WordAt(data, off); Ok(Unsigned(n))
    case SInt => var n :- WordAt(data, off); Ok(Signed(Sign(n)))
    case Bool => var n :- WordAt(data, off); Ok(Flag(n > 0))
    case Address =>
      if WordInside(data, off) then Ok(Raw(Populated(Cropped(data, Wrap(off + WORD - 20), 20), 20))) else Err
    case Bytes32 =>
      if WordInside(data, off) then Ok(Raw(Populated(Cropped(data, off, WORD), WORD))) else Err
    case Text =>
      var n :- WordAt(data, off);
      if Wrap(off + WORD + Wrap(n) - 1) < |data| then Ok(Raw(Cropped(data, Wrap(off + WORD), Wrap(n)))) else Err
    case StaticArray(e, n) =>
      var vs :- ReadAll(data, e, off, 0, n);
      Ok(Array(vs))
    case DynamicArray(e) =>
      var n :- WordAt(data, off);
      var vs :- ReadAll(data, e, Wrap(off + WORD), 0, Wrap(n));
      Ok(Array(vs))
  }

  /** Where the decoder looks for element `u` of an array whose elements begin at `base`. */
  function Place(data: Bytes, dynamic: bool, size: nat, base: nat, u: nat): Result<nat> {
    if dynamic then
      var n :- WordAt(data, Wrap(base + u * size));
      Ok(Wrap(base + Wrap(n)))
    else Ok(Wrap(base + u * size))
  }

  function ReadAll(data: Bytes, e: Type, base: nat, u: nat, n: nat): (r: Result<seq<Val>>)
    requires u <= n
    decreases e, 1 + n - u
  {
    if u == n then Ok([]) else
      var off :- Place(data, IsDynamic(e), Length(e) * 32, base, u);
      var v :- Read(data, e, off);
      var vs :- ReadAll(data, e, base, u + 1, n);
      Ok([v] + vs)
  }

  /** Where the decoder looks for an argument whose head is at `offset`. */
  function Target(data: Bytes, dynamic: bool, offset: nat): Result<nat> {
    if dynamic then
      var n :- WordAt(data, offset);
      Ok(Wrap(n))
    else Ok(offset)
  }

  function Arguments(data: Bytes, ts: seq<Type>, offset: nat): Result<seq<Val>> {
    if ts == [] then Ok([]) else
      var off :- Target(data, IsDynamic(ts[0]), offset);
      var v :- Read(data, ts[0], off);
      var vs :- Arguments(data, ts[1..], Wrap(offset + Length(ts[0]) * 32));
      Ok([v] + vs)
  }

  // ---- Positions -------------------------------------------------------------------------------

  /** `s` is what `data` holds at `off`. */
  ghost predicate At(data: Bytes, off: nat, s: Bytes) {
    off + |s| <= |data| && data[off..off + |s|] == s
  }

  lemma AtSplit(data: Bytes, off: nat, a: Bytes, b: Bytes)
    requires At(data, off, a + b)
    ensures At(data, off, a) && At(data, off + |a|, b)
  {
    var d := data[off..off + |a + b|];
    assert d[..|a|] == data[off..off + |a|] && d[|a|..] == data[off + |a|..off + |a| + |b|];
    assert (a + b)[..|a|] == a && (a + b)[|a|..] == b;
  }

  lemma {:induction false} PowSum(a: nat, b: nat)
    ensures Pow256(a + b) == Pow256(a) * Pow256(b)
  {
    if a > 0 {
      PowSum(a - 1, b);
      assert Pow256(a + b) == 256 * (Pow256(a - 1) * Pow256(b));
    }
  }

  lemma EightBytes()
    ensures Pow256(8) == 0x1_0000_0000_0000_0000
  {
    assert Pow256(4) == 0x1_0000_0000;
    PowSum(4, 4);
  }

  lemma SixteenBytes()
    ensures Pow256(16) == 0x1_0000000000000000_0000000000000000
  {
    EightBytes();
    PowSum(8, 8);
  }

  lemma WordValues()
    ensures Pow256(WORD) == U256_LIMIT
  {
    SixteenBytes();
    PowSum(16, 16);
  }

  lemma ReadWord(data: Bytes, off: nat, n: nat)
    requires At(data, off, Word(n)) && n < U256_LIMIT && |data| < SIZE_LIMIT
    ensures WordInside(data, off) && WordAt(data, off) == Ok(n)
  {
    WordValues();
    FixedValue(n, WORD);
  }

  lemma {:induction false} WordsAppend(a: seq<Bytes>, b: seq<Bytes>, start: nat, mid: nat)
    requires mid == start + |Concat(a)|
    ensures Words(a + b, start) == Words(a, start) + Words(b, mid)
  {
    if a == [] {
      assert a + b == b;
    } else {
      WordsFirst(a, b, start);
      WordsAppend(a[1..], b, start + |a[0]|, mid);
      Prepend(Word(start), Words(a[1..] + b, start + |a[0]|), Words(a[1..], start + |a[0]|), Words(b, mid));
    }
  }

  lemma Prepend(w: Bytes, whole: Bytes, front: Bytes, back: Bytes)
    requires whole == front + back
    ensures w + whole == (w + front) + back
  {
    Assoc(w, front, back);
  }

  lemma WordsFirst(a: seq<Bytes>, b: seq<Bytes>, start: nat)
    requires a != []
    ensures Words(a + b, start) == Word(start) + Words(a[1..] + b, start + |a[0]|)
    ensures Words(a, start) == Word(start) + Words(a[1..], start + |a[0]|)
    ensures |Concat(a)| == |a[0]| + |Concat(a[1..])|
  {
    assert (a + b)[1..] == a[1..] + b;
  }

  lemma WordsSnoc(parts: seq<Bytes>, last: Bytes, start: nat)
    ensures Words(parts + [last], start) == Words(parts, start) + Word(start + |Concat(parts)|)
  {
    WordsAppend(parts, [last], start, start + |Concat(parts)|);
    assert Words([last], start + |Concat(parts)|) == Word(start + |Concat(parts)|);
  }

  /** The words before and after the one of part `u`. */
  lemma WordsSplit(parts: seq<Bytes>, start: nat, u: nat) returns (before: Bytes, after: Bytes)
    requires u < |parts|
    ensures |before| == u * 32 && Words(parts, start) == before + (Word(start + |Concat(parts[..u])|) + after)
  {
    var mid := start + |Concat(parts[..u])|;
    before, after := Words(parts[..u], start), Words(parts[u..][1..], mid + |parts[u]|);
    assert parts == parts[..u] + parts[u..];
    WordsAppend(parts[..u], parts[u..], start, mid);
    assert Words(parts[u..], mid) == Word(mid) + after;
  }

  /** The offset word of part `u` gives where that part lies among the contents. */
  lemma OffsetOfPart(data: Bytes, parts: seq<Bytes>, start: nat, u: nat, base: nat)
    requires u < |parts| && |data| < SIZE_LIMIT && At(data, base, Words(parts, start))
    requires start + |Concat(parts[..u])| < SIZE_LIMIT
    ensures base + u * 32 < SIZE_LIMIT && WordAt(data, base + u * 32) == Ok(start + |Concat(parts[..u])|)
  {
    var before, after := WordsSplit(parts, start, u);
    OffsetWord(data, before, start + |Concat(parts[..u])|, after, base);
  }

  lemma OffsetWord(data: Bytes, before: Bytes, mid: nat, after: Bytes, base: nat)
    requires |data| < SIZE_LIMIT && mid < SIZE_LIMIT && At(data, base, before + (Word(mid) + after))
    ensures base + |before| < SIZE_LIMIT && WordAt(data, base + |before|) == Ok(mid)
  {
    AtSplit(data, base, before, Word(mid) + after);
    AtSplit(data, base + |before|, Word(mid), after);
    ReadWord(data, base + |before|, mid);
  }

  lemma ContentOfPart(data: Bytes, parts: seq<Bytes>, u: nat, base: nat)
    requires u < |parts| && At(data, base, Concat(parts))
    ensures At(data, base + |Concat(parts[..u])|, parts[u])
  {
    assert parts == parts[..u] + parts[u..];
    ConcatAppend(parts[..u], parts[u..]);
    AtSplit(data, base, Concat(parts[..u]), Concat(parts[u..]));
    AtSplit(data, base + |Concat(parts[..u])|, parts[u], Concat(parts[u..][1..]));
  }

  lemma {:induction false} EvenParts(parts: seq<Bytes>, size: nat)
    requires forall i :: 0 <= i < |parts| ==> |parts[i]| == size
    ensures |Concat(parts)| == |parts| * size
  {
    if parts != [] {
      EvenParts(parts[1..], size);
      assert |parts| * size == (|parts| - 1) * size + size;
    }
  }

  lemma DynamicPlace(data: Bytes, parts: seq<Bytes>, u: nat, base: nat) returns (pos: nat)
    requires u < |parts| && |data| < SIZE_LIMIT && At(data, base, Body(parts, true))
    ensures Place(data, true, 32, base, u) == Ok(pos) && At(data, pos, parts[u])
  {
    var start := |parts| * 32;
    AtSplit(data, base, Words(parts, start), Concat(parts));
    ContentOfPart(data, parts, u, base + start);
    OffsetOfPart(data, parts, start, u, base);
    pos := base + start + |Concat(parts[..u])|;
  }

  lemma StaticPlace(data: Bytes, parts: seq<Bytes>, size: nat, u: nat, base: nat) returns (pos: nat)
    requires u < |parts| && |data| < SIZE_LIMIT && At(data, base, Body(parts, false))
    requires forall i :: 0 <= i < |parts| ==> |parts[i]| == size
    ensures Place(data, false, size, base, u) == Ok(pos) && At(data, pos, parts[u])
  {
    AtSplit(data, base, [], Concat(parts));
    ContentOfPart(data, parts, u, base);
    EvenParts(parts[..u], size);
    pos := base + |Concat(parts[..u])|;
  }

  /** The decoder finds every element of an array where the encoder put it. */
  lemma PlaceOfPart(data: Bytes, parts: seq<Bytes>, dynamic: bool, size: nat, u: nat, base: nat) returns (pos: nat)
    requires u < |parts| && |data| < SIZE_LIMIT && At(data, base, Body(parts, dynamic))
    requires dynamic ==> size == 32
    requires !dynamic ==> forall i :: 0 <= i < |parts| ==> |parts[i]| == size
    ensures Place(data, dynamic, size, base, u) == Ok(pos) && At(data, pos, parts[u])
  {
    if dynamic {
      pos := DynamicPlace(data, parts, u, base);
    } else {
      pos := StaticPlace(data, parts, size, u, base);
    }
  }

  lemma {:induction false} HeadsSize(args: seq<Arg>, offset: nat)
    ensures |Heads(args, offset)| == HeadBytes(args)
  {
    if args != [] {
      HeadsSize(args[1..], if args[0].dynamic then offset + |args[0].bytes| else offset);
    }
  }

  function HeadBytes(args: seq<Arg>): nat {
    if args == [] then 0 else (if args[0].dynamic then 32 else |args[0].bytes|) + HeadBytes(args[1..])
  }

  lemma StaticFirst(args: seq<Arg>, tail: nat)
    requires args != [] && !args[0].dynamic
    ensures Heads(args, tail) == args[0].bytes + Heads(args[1..], tail) && Tails(args) == Tails(args[1..])
  {
    assert [] + Tails(args[1..]) == Tails(args[1..]);
  }

  lemma StaticArgument(data: Bytes, args: seq<Arg>, head: nat, tail: nat)
    requires args != [] && !args[0].dynamic
    requires At(data, head, Heads(args, tail)) && At(data, tail, Tails(args))
    ensures At(data, head, args[0].bytes)
    ensures At(data, head + |args[0].bytes|, Heads(args[1..], tail)) && At(data, tail, Tails(args[1..]))
  {
    StaticFirst(args, tail);
    AtSplit(data, head, args[0].bytes, Heads(args[1..], tail));
  }

  lemma DynamicArgument(data: Bytes, args: seq<Arg>, head: nat, tail: nat, next: nat)
    requires args != [] && args[0].dynamic && next == tail + |args[0].bytes| && |data| < SIZE_LIMIT
    requires At(data, head, Heads(args, tail)) && At(data, tail, Tails(args))
    ensures WordAt(data, head) == Ok(tail) && At(data, tail, args[0].bytes)
    ensures At(data, head + 32, Heads(args[1..], next)) && At(data, next, Tails(args[1..]))
  {
    AtSplit(data, head, Word(tail), Heads(args[1..], next));
    AtSplit(data, tail, args[0].bytes, Tails(args[1..]));
    ReadWord(data, head, tail);
  }

  /** One argument: where its value lies, and where the heads and tails after it lie. */
  lemma TargetOfArgument(data: Bytes, args: seq<Arg>, head: nat, tail: nat) returns (pos: nat, next: nat)
    requires args != [] && |data| < SIZE_LIMIT
    requires At(data, head, Heads(args, tail)) && At(data, tail, Tails(args))
    ensures Target(data, args[0].dynamic, head) == Ok(pos) && At(data, pos, args[0].bytes)
    ensures At(data, next, Tails(args[1..]))
    ensures At(data, head + (if args[0].dynamic then 32 else |args[0].bytes|), Heads(args[1..], next))
  {
    if args[0].dynamic {
      pos, next := tail, tail + |args[0].bytes|;
      DynamicArgument(data, args, head, tail, next);
    } else {
      pos, next := head, tail;
      StaticArgument(data, args, head, tail);
    }
  }

  // ---- Round trip ------------------------------------------------------------------------------

  /** The value that comes back: an `int256` is read by the decoder's sign test. */
  function Seen(v: Val): Val
    decreases v
  {
    match v
    case Signed(i) => Signed(Sign(i % U256_LIMIT))
    case Array(vs) => Array(SeenAll(vs))
    case _ => v
  }

  function SeenAll(vs: seq<Val>): (r: seq<Val>)
    ensures |r| == |vs|
    decreases vs
  {
    if vs == [] then [] else [Seen(vs[0])] + SeenAll(vs[1..])
  }

  /** Every `int256` inside is at or above -2^255 + 2^252 and below 2^255 + 2^252. */
  ghost predicate InRange(v: Val)
    decreases v
  {
    match v
    case Signed(i) => SIGN_LIMIT - U256_LIMIT < i <= SIGN_LIMIT
    case Array(vs) => AllInRange(vs)
    case _ => true
  }

  ghost predicate AllInRange(vs: seq<Val>)
    decreases vs
  {
    vs != [] ==> InRange(vs[0]) && AllInRange(vs[1..])
  }

  lemma SeenCons(vs: seq<Val>)
    requires vs != []
    ensures SeenAll(vs) == vs <==> Seen(vs[0]) == vs[0] && SeenAll(vs[1..]) == vs[1..]
  {
    assert SeenAll(vs)[0] == Seen(vs[0]) && SeenAll(vs)[1..] == SeenAll(vs[1..]);
    assert vs == [vs[0]] + vs[1..];
  }

  /** A value comes back unchanged exactly when its `int256` parts are in range. */
  lemma {:induction false} SeenExact(v: Val, t: Type)
    requires HasType(v, t)
    ensures Seen(v) == v <==> InRange(v)
    decreases v
  {
    if v.Array? {
      SeenAllExact(v.elems, seq(|v.elems|, _ => t.elem));
    }
  }

  lemma {:induction false} SeenAllExact(vs: seq<Val>, ts: seq<Type>)
    requires HaveTypes(vs, ts)
    ensures SeenAll(vs) == vs <==> AllInRange(vs)
    decreases vs
  {
    if vs != [] {
      SeenExact(vs[0], ts[0]);
      SeenAllExact(vs[1..], ts[1..]);
      SeenCons(vs);
    }
  }

  lemma {:induction false} LayoutsAt(vs: seq<Val>, e: Type, i: nat)
    requires AllHaveType(vs, e) && i < |vs|
    ensures Layouts(vs, e)[i] == Layout(vs[i], e)
  {
    if i > 0 {
      LayoutsAt(vs[1..], e, i - 1);
    }
  }

  lemma Regrouped(n: nat, m: nat)
    ensures n * (m * 32) == n * m * 32
  {
  }

  lemma {:induction false} StaticSize(v: Val, t: Type)
    requires HasType(v, t) && !IsDynamic(t)
    ensures |Layout(v, t)| == Length(t) * 32
    decreases v
  {
    if t.StaticArray? {
      StaticSizes(v.elems, t.elem);
      EvenParts(Layouts(v.elems, t.elem), Length(t.elem) * 32);
      Regrouped(|v.elems|, Length(t.elem));
    }
  }

  lemma {:induction false} StaticSizes(vs: seq<Val>, e: Type)
    requires AllHaveType(vs, e) && !IsDynamic(e)
    ensures forall i :: 0 <= i < |vs| ==> |Layouts(vs, e)[i]| == Length(e) * 32
    decreases vs
  {
    forall i | 0 <= i < |vs|
      ensures |Layouts(vs, e)[i]| == Length(e) * 32
    {
      LayoutsAt(vs, e, i);
      StaticSize(vs[i], e);
    }
  }

  lemma ReadText(data: Bytes, b: Bytes, off: nat)
    requires |b| < SIZE_LIMIT && |data| < SIZE_LIMIT
    requires At(data, off, Word(|b|) + (b + ZeroBytes(Padding(|b|))))
    ensures Read(data, Text, off) == Ok(Raw(b))
  {
    AtSplit(data, off, Word(|b|), b + ZeroBytes(Padding(|b|)));
    AtSplit(data, off + WORD, b, ZeroBytes(Padding(|b|)));
    ReadWord(data, off, |b|);
  }

  lemma PopulatedWhole(b: Bytes)
    ensures Populated(b, |b|) == b
  {
    assert b[..|b|] == b;
  }

  lemma ReadAddress(data: Bytes, b: Bytes, off: nat)
    requires |b| == 20 && |data| < SIZE_LIMIT && At(data, off, ZeroBytes(12) + b)
    ensures Read(data, Address, off) == Ok(Raw(b))
  {
    AtSplit(data, off, ZeroBytes(12), b);
    PopulatedWhole(b);
  }

  lemma ReadCount(data: Bytes, n: nat, body: Bytes, off: nat)
    requires n < SIZE_LIMIT && |data| < SIZE_LIMIT && At(data, off, Word(n) + body)
    ensures WordAt(data, off) == Ok(n) && At(data, off + WORD, body)
  {
    AtSplit(data, off, Word(n), body);
    ReadWord(data, off, n);
  }

  /** Reading back one value, wherever it lies. */
  lemma {:induction false} ReadInvertsLayout(data: Bytes, v: Val, t: Type, off: nat)
    requires HasType(v, t) && |data| < SIZE_LIMIT && At(data, off, Layout(v, t))
    ensures Read(data, t, off) == Ok(Seen(v))
    decreases v, 0
  {
    match t
    case UInt => ReadWord(data, off, v.n);
    case SInt => ReadWord(data, off, v.i % U256_LIMIT);
    case Bool => ReadWord(data, off, if v.b then 1 else 0);
    case Address => ReadAddress(data, v.bytes, off);
    case Bytes32 => PopulatedWhole(v.bytes);
    case Text => ReadText(data, v.bytes, off);
    case StaticArray(e, n) => ReadInvertsElements(data, v.elems, e, off, 0, v.elems);
    case DynamicArray(e) =>
      ReadCount(data, |v.elems|, Body(Layouts(v.elems, e), IsDynamic(e)), off);
      ReadInvertsElements(data, v.elems, e, off + WORD, 0, v.elems);
  }

  lemma {:induction false} ReadInvertsElements(data: Bytes, vs: seq<Val>, e: Type, base: nat, u: nat, rest: seq<Val>)
    requires AllHaveType(vs, e) && |data| < SIZE_LIMIT && u <= |vs| && rest == vs[u..]
    requires At(data, base, Body(Layouts(vs, e), IsDynamic(e)))
    ensures ReadAll(data, e, base, u, |vs|) == Ok(SeenAll(rest))
    decreases vs, |vs| - u
  {
    if u < |vs| {
      var pos := PlaceOfElement(data, vs, e, base, u);
      ReadInvertsLayout(data, vs[u], e, pos);
      ReadInvertsElements(data, vs, e, base, u + 1, rest[1..]);
    }
  }

  lemma PlaceOfElement(data: Bytes, vs: seq<Val>, e: Type, base: nat, u: nat) returns (pos: nat)
    requires AllHaveType(vs, e) && |data| < SIZE_LIMIT && u < |vs|
    requires At(data, base, Body(Layouts(vs, e), IsDynamic(e)))
    ensures Place(data, IsDynamic(e), Length(e) * 32, base, u) == Ok(pos) && At(data, pos, Layout(vs[u], e))
  {
    if !IsDynamic(e) {
      StaticSizes(vs, e);
    }
    LayoutsAt(vs, e, u);
    pos := PlaceOfPart(data, Layouts(vs, e), IsDynamic(e), Length(e) * 32, u, base);
  }

  lemma ArgsTail(vs: seq<Val>, ts: seq<Type>)
    requires HaveTypes(vs, ts) && vs != []
    ensures HaveTypes(vs[1..], ts[1..]) && Args(vs, ts)[1..] == Args(vs[1..], ts[1..])
  {
  }

  lemma {:induction false} HeadBytesWords(vs: seq<Val>, ts: seq<Type>)
    requires HaveTypes(vs, ts)
    ensures HeadBytes(Args(vs, ts)) == HeadWords(ts) * 32
  {
    if vs != [] {
      ArgsTail(vs, ts);
      HeadBytesWords(vs[1..], ts[1..]);
      if !IsDynamic(ts[0]) {
        StaticSize(vs[0], ts[0]);
      }
    }
  }

  /** Where the decoder finds the first argument, and where the rest lies. */
  lemma FirstArgument(data: Bytes, vs: seq<Val>, ts: seq<Type>, head: nat, tail: nat) returns (pos: nat, next: nat)
    requires HaveTypes(vs, ts) && vs != [] && |data| < SIZE_LIMIT
    requires At(data, head, Heads(Args(vs, ts), tail)) && At(data, tail, Tails(Args(vs, ts)))
    ensures Target(data, IsDynamic(ts[0]), head) == Ok(pos) && At(data, pos, Layout(vs[0], ts[0]))
    ensures HaveTypes(vs[1..], ts[1..]) && At(data, next, Tails(Args(vs[1..], ts[1..])))
    ensures At(data, head + Length(ts[0]) * 32, Heads(Args(vs[1..], ts[1..]), next))
  {
    pos, next := TargetOfArgument(data, Args(vs, ts), head, tail);
    ArgsTail(vs, ts);
    if !IsDynamic(ts[0]) {
      StaticSize(vs[0], ts[0]);
    }
  }

  lemma {:induction false} ReadInvertsArguments(data: Bytes, vs: seq<Val>, ts: seq<Type>, head: nat, tail: nat)
    requires HaveTypes(vs, ts) && |data| < SIZE_LIMIT
    requires At(data, head, Heads(Args(vs, ts), tail)) && At(data, tail, Tails(Args(vs, ts)))
    ensures Arguments(data, ts, head) == Ok(SeenAll(vs))
  {
    if vs != [] {
      var pos, next := FirstArgument(data, vs, ts, head, tail);
      ReadInvertsLayout(data, vs[0], ts[0], pos);
      ReadInvertsArguments(data, vs[1..], ts[1..], head + Length(ts[0]) * 32, next);
    }
  }

  /**
   * Decoding the encoded arguments, whatever follows them, gives the arguments as the sign test
   * sees them; those are the arguments themselves exactly when every `int256` is in range.
   */
  lemma RoundTrip(vs: seq<Val>, ts: seq<Type>, after: Bytes)
    requires HaveTypes(vs, ts) && |Encoded(vs, ts) + after| < SIZE_LIMIT
    ensures Arguments(Encoded(vs, ts) + after, ts, 0) == Ok(SeenAll(vs))
    ensures Arguments(Encoded(vs, ts) + after, ts, 0) == Ok(vs) <==> AllInRange(vs)
  {
    var top := HeadWords(ts) * 32;
    var heads, tails := Heads(Args(vs, ts), top), Tails(Args(vs, ts));
    var data := Encoded(vs, ts) + after;
    HeadsSize(Args(vs, ts), top);
    HeadBytesWords(vs, ts);
    assert data == heads + (tails + after);
    AtSplit(data, 0, heads, tails + after);
    AtSplit(data, top, tails, after);
    ReadInvertsArguments(data, vs, ts, 0, top);
    SeenAllExact(vs, ts);
  }

  /** The most negative `int256` does not survive: it comes back as 2^255. */
  lemma MostNegativeIsLost()
    ensures var v := Signed(-(U256_LIMIT / 2));
            HaveTypes([v], [SInt]) && Arguments(Encoded([v], [SInt]), [SInt], 0) == Ok([Signed(U256_LIMIT / 2)])
  {
    var v := Signed(-(U256_LIMIT / 2));
    HeadsSize(Args([v], [SInt]), HeadWords([SInt]) * 32);
    HeadBytesWords([v], [SInt]);
    assert Tails(Args([v], [SInt])) == [];
    RoundTrip([v], [SInt], []);
    assert Encoded([v], [SInt]) + [] == Encoded([v], [SInt]);
    assert SeenAll([v]) == [Seen(v)];
  }
}
