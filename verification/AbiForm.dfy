/** The contract ABI layout byte by byte, where each argument and element lies, and data that is too short. */
module AbiForm {
  import opened Common
  import opened BigEndian
  import opened Abi

  // ---- The layout, byte by byte ----------------------------------------------------------------

  /** Texts are filled up to the next whole word. */
  lemma PaddingForm(n: nat)
    ensures (n + Padding(n)) % 32 == 0 && Padding(n) < 32
  {
  }

  lemma WordForm(n: nat)
    requires n < U256_LIMIT
    ensures |Word(n)| == 32 && Value(Word(n)) == n
  {
    WordValues();
    FixedValue(n, WORD);
  }

  ghost predicate TextLaidOut(t: Bytes, b: Bytes) {
    && |t| % 32 == 0 && 32 + |b| <= |t| < 32 + |b| + 32
    && Value(t[..32]) == |b| && t[32..32 + |b|] == b
    && forall i :: 32 + |b| <= i < |t| ==> t[i] == 0
  }

  /** A text: its length as a word, its bytes, and zeros up to the next multiple of 32. */
  lemma TextForm(b: Bytes)
    requires |b| < SIZE_LIMIT
    ensures TextLaidOut(Layout(Raw(b), Text), b)
  {
    WordForm(|b|);
    LaidOut(Word(|b|), b, Padding(|b|));
  }

  lemma LaidOut(w: Bytes, b: Bytes, zeros: nat)
    requires |w| == 32 && Value(w) == |b| && zeros == Padding(|b|)
    ensures TextLaidOut(w + (b + ZeroBytes(zeros)), b)
  {
    PaddingForm(|b|);
    WholeSum(32, |b| + zeros);
    ThreeParts(w, b, zeros);
  }

  lemma ThreeParts(w: Bytes, b: Bytes, zeros: nat)
    ensures var t := w + (b + ZeroBytes(zeros));
            && |t| == |w| + |b| + zeros && t[..|w|] == w && t[|w|..|w| + |b|] == b
            && forall i :: |w| + |b| <= i < |t| ==> t[i] == 0
  {
  }

  /** The values of one word: unsigned, two's complement, 0 or 1, left-padded address, raw bytes. */
  lemma SimpleForm(v: Val, t: Type)
    requires HasType(v, t) && !t.Text? && !t.StaticArray? && !t.DynamicArray?
    ensures |Layout(v, t)| == 32
    ensures t.UInt? ==> Value(Layout(v, t)) == v.n
    ensures t.SInt? ==> Value(Layout(v, t)) == if v.i >= 0 then v.i else v.i + U256_LIMIT
    ensures t.Bool? ==> Value(Layout(v, t)) == if v.b then 1 else 0
    ensures t.Address? ==> Layout(v, t)[..12] == seq(12, _ => 0) && Layout(v, t)[12..] == v.bytes
    ensures t.Bytes32? ==> Layout(v, t) == v.bytes
  {
    match t
    case UInt => WordForm(v.n);
    case SInt =>
      Complement(v.i);
      WordForm(v.i % U256_LIMIT);
    case Bool => WordForm(if v.b then 1 else 0);
    case Address => AddressForm(v.bytes);
    case _ =>
  }

  lemma Complement(i: int)
    requires 0 - U256_LIMIT < i < U256_LIMIT
    ensures i % U256_LIMIT == if i >= 0 then i else i + U256_LIMIT
  {
  }

  lemma AddressForm(b: Bytes)
    requires |b| == 20
    ensures (ZeroBytes(12) + b)[..12] == seq(12, _ => 0) && (ZeroBytes(12) + b)[12..] == b
  {
  }

  /** Element `u` of an array: its offset word counts from the first byte after the array's length. */
  lemma ElementForm(parts: seq<Bytes>, u: nat)
    requires u < |parts|
    ensures var p := 32 * |parts| + |Concat(parts[..u])|;
            At(Body(parts, true), 32 * u, Word(p)) && At(Body(parts, true), p, parts[u])
    ensures At(Body(parts, false), |Concat(parts[..u])|, parts[u])
  {
    OffsetForm(parts, u);
    ContentForm(Words(parts, |parts| * 32), parts, u);
    ContentForm([], parts, u);
  }

  lemma ContentForm(front: Bytes, parts: seq<Bytes>, u: nat)
    requires u < |parts|
    ensures At(front + Concat(parts), |front| + |Concat(parts[..u])|, parts[u])
  {
    AtWhole(front, Concat(parts));
    ContentOfPart(front + Concat(parts), parts, u, |front|);
  }

  lemma OffsetForm(parts: seq<Bytes>, u: nat)
    requires u < |parts|
    ensures At(Body(parts, true), 32 * u, Word(32 * |parts| + |Concat(parts[..u])|))
  {
    var words := Words(parts, |parts| * 32);
    var before, after := WordsSplit(parts, |parts| * 32, u);
    WordAfter(before, Word(|parts| * 32 + |Concat(parts[..u])|), after);
    AtEarlier(words, Concat(parts), |before|, Word(|parts| * 32 + |Concat(parts[..u])|));
  }

  lemma WordAfter(before: Bytes, w: Bytes, after: Bytes)
    ensures At(before + (w + after), |before|, w)
  {
    AtWhole(before, w + after);
    AtSplit(before + (w + after), |before|, w, after);
  }

  lemma AtWhole(a: Bytes, b: Bytes)
    ensures At(a + b, 0, a) && At(a + b, |a|, b)
  {
  }

  /** Arrays: a dynamic array has its length in front, a static one has not. */
  lemma ArrayForm(v: Val, t: Type)
    requires HasType(v, t) && (t.StaticArray? || t.DynamicArray?)
    ensures var body := Body(Layouts(v.elems, t.elem), IsDynamic(t.elem));
            if t.StaticArray? then Layout(v, t) == body
            else Value(Layout(v, t)[..32]) == |v.elems| && Layout(v, t)[32..] == body
  {
    if t.DynamicArray? {
      WordForm(|v.elems|);
      assert Layout(v, t)[..32] == Word(|v.elems|);
    }
  }

  lemma WholeSum(a: nat, b: nat)
    requires a % 32 == 0 && b % 32 == 0
    ensures (a + b) % 32 == 0
  {
  }

  lemma {:induction false} WholeParts(parts: seq<Bytes>)
    requires forall i :: 0 <= i < |parts| ==> |parts[i]| % 32 == 0
    ensures |Concat(parts)| % 32 == 0
  {
    if parts != [] {
      WholeParts(parts[1..]);
      WholeSum(|parts[0]|, |Concat(parts[1..])|);
    }
  }

  lemma WholeBody(parts: seq<Bytes>, dynamic: bool)
    requires forall i :: 0 <= i < |parts| ==> |parts[i]| % 32 == 0
    ensures |Body(parts, dynamic)| % 32 == 0
  {
    WholeParts(parts);
    WholeSum(if dynamic then |parts| * 32 else 0, |Concat(parts)|);
  }

  /** Every layout consists of whole words. */
  lemma {:induction false} WholeWords(v: Val, t: Type)
    requires HasType(v, t)
    ensures |Layout(v, t)| % 32 == 0
    decreases v
  {
    if t.Text? {
      TextForm(v.bytes);
    } else if t.StaticArray? || t.DynamicArray? {
      WholeElements(v.elems, t.elem);
      ArraySize(v, t);
    } else {
      SimpleForm(v, t);
    }
  }

  lemma ArraySize(v: Val, t: Type)
    requires HasType(v, t) && (t.StaticArray? || t.DynamicArray?)
    requires |Body(Layouts(v.elems, t.elem), IsDynamic(t.elem))| % 32 == 0
    ensures |Layout(v, t)| % 32 == 0
  {
    WholeSum(32, |Body(Layouts(v.elems, t.elem), IsDynamic(t.elem))|);
  }

  lemma {:induction false} WholeElements(vs: seq<Val>, e: Type)
    requires AllHaveType(vs, e)
    ensures |Body(Layouts(vs, e), IsDynamic(e))| % 32 == 0
    decreases vs
  {
    forall i | 0 <= i < |vs|
      ensures |Layouts(vs, e)[i]| % 32 == 0
    {
      LayoutsAt(vs, e, i);
      WholeWords(vs[i], e);
    }
    WholeBody(Layouts(vs, e), IsDynamic(e));
  }

  lemma {:induction false} WholeArgs(args: seq<Arg>)
    requires forall i :: 0 <= i < |args| ==> |args[i].bytes| % 32 == 0
    ensures HeadBytes(args) % 32 == 0 && |Tails(args)| % 32 == 0
  {
    if args != [] {
      WholeArgs(args[1..]);
      WholeSum(if args[0].dynamic then 32 else |args[0].bytes|, HeadBytes(args[1..]));
      WholeSum(if args[0].dynamic then |args[0].bytes| else 0, |Tails(args[1..])|);
    }
  }

  lemma WholeHeadsAndTails(args: seq<Arg>, top: nat)
    requires forall i :: 0 <= i < |args| ==> |args[i].bytes| % 32 == 0
    ensures |Heads(args, top) + Tails(args)| % 32 == 0
  {
    WholeArgs(args);
    HeadsSize(args, top);
    WholeSum(HeadBytes(args), |Tails(args)|);
  }

  lemma ArgsWhole(vs: seq<Val>, ts: seq<Type>)
    requires HaveTypes(vs, ts)
    ensures forall i :: 0 <= i < |vs| ==> |Args(vs, ts)[i].bytes| % 32 == 0
  {
    forall i | 0 <= i < |vs|
      ensures |Args(vs, ts)[i].bytes| % 32 == 0
    {
      WholeWords(vs[i], ts[i]);
    }
  }

  /** So does every encoded argument list. */
  lemma EncodedWholeWords(vs: seq<Val>, ts: seq<Type>)
    requires HaveTypes(vs, ts)
    ensures |Encoded(vs, ts)| % 32 == 0
  {
    ArgsWhole(vs, ts);
    WholeHeadsAndTails(Args(vs, ts), HeadWords(ts) * 32);
  }

  // ---- Where the arguments lie -----------------------------------------------------------------

  lemma Prefix(args: seq<Arg>, i: nat)
    requires 0 < i <= |args|
    ensures HeadBytes(args[..i]) == (if args[0].dynamic then 32 else |args[0].bytes|) + HeadBytes(args[1..][..i - 1])
    ensures |Tails(args[..i])| == (if args[0].dynamic then |args[0].bytes| else 0) + |Tails(args[1..][..i - 1])|
  {
    assert args[..i][1..] == args[1..][..i - 1];
  }

  /** The head of argument `i`: the value itself, or where it lies among the tails. */
  function Head(arg: Arg, place: nat): Bytes {
    if arg.dynamic then Word(place) else arg.bytes
  }

  /** Where the tail after that of the first argument begins. */
  function NextOffset(args: seq<Arg>, offset: nat): nat
    requires args != []
  {
    if args[0].dynamic then offset + |args[0].bytes| else offset
  }

  lemma HeadsFirst(args: seq<Arg>, offset: nat)
    requires args != []
    ensures Heads(args, offset) == Head(args[0], offset) + Heads(args[1..], NextOffset(args, offset))
    ensures |Head(args[0], offset)| == if args[0].dynamic then 32 else |args[0].bytes|
  {
  }

  lemma {:induction false} HeadAt(args: seq<Arg>, offset: nat, i: nat, at: nat, place: nat)
    requires i < |args| && at == HeadBytes(args[..i]) && place == offset + |Tails(args[..i])|
    ensures At(Heads(args, offset), at, Head(args[i], place))
  {
    HeadsFirst(args, offset);
    var first, rest := Head(args[0], offset), Heads(args[1..], NextOffset(args, offset));
    if i == 0 {
      AtWhole(first, rest);
    } else {
      Prefix(args, i);
      HeadAt(args[1..], NextOffset(args, offset), i - 1, at - |first|, place);
      AtLater(first, rest, at - |first|, Head(args[i], place));
    }
  }

  lemma AtLater(a: Bytes, b: Bytes, off: nat, s: Bytes)
    requires At(b, off, s)
    ensures At(a + b, |a| + off, s)
  {
    assert (a + b)[|a| + off..|a| + off + |s|] == b[off..off + |s|];
  }

  lemma {:induction false} TailAt(args: seq<Arg>, i: nat)
    requires i < |args| && args[i].dynamic
    ensures At(Tails(args), |Tails(args[..i])|, args[i].bytes)
  {
    var first := if args[0].dynamic then args[0].bytes else [];
    if i == 0 {
      AtWhole(first, Tails(args[1..]));
    } else {
      TailAt(args[1..], i - 1);
      Prefix(args, i);
      AtLater(first, Tails(args[1..]), |Tails(args[1..][..i - 1])|, args[i].bytes);
    }
  }

  lemma HeadWordsBefore(vs: seq<Val>, ts: seq<Type>, i: nat)
    requires HaveTypes(vs, ts) && i < |vs|
    ensures HeadBytes(Args(vs, ts)[..i]) == HeadWords(ts[..i]) * 32
  {
    assert Args(vs, ts)[..i] == Args(vs[..i], ts[..i]);
    HeadBytesWords(vs[..i], ts[..i]);
  }

  lemma ArgumentPlace(args: seq<Arg>, top: nat, i: nat) returns (p: nat)
    requires i < |args| && |Heads(args, top)| == top
    ensures At(Heads(args, top) + Tails(args), p, args[i].bytes)
    ensures !args[i].dynamic ==> p == HeadBytes(args[..i])
    ensures args[i].dynamic ==> p >= top && At(Heads(args, top) + Tails(args), HeadBytes(args[..i]), Word(p))
  {
    HeadAt(args, top, i, HeadBytes(args[..i]), top + |Tails(args[..i])|);
    if args[i].dynamic {
      p := top + |Tails(args[..i])|;
      TailAt(args, i);
      AtLater(Heads(args, top), Tails(args), |Tails(args[..i])|, args[i].bytes);
      AtEarlier(Heads(args, top), Tails(args), HeadBytes(args[..i]), Word(p));
    } else {
      p := HeadBytes(args[..i]);
      AtEarlier(Heads(args, top), Tails(args), p, args[i].bytes);
    }
  }

  /**
   * Argument `i` of an encoded list: a static one lies at its head; the head of a dynamic one is the
   * offset, from the start of the arguments, of the place where it lies.
   */
  lemma ArgumentForm(vs: seq<Val>, ts: seq<Type>, i: nat) returns (p: nat)
    requires HaveTypes(vs, ts) && i < |vs|
    ensures At(Encoded(vs, ts), p, Layout(vs[i], ts[i]))
    ensures !IsDynamic(ts[i]) ==> p == HeadWords(ts[..i]) * 32
    ensures IsDynamic(ts[i]) ==> p >= HeadWords(ts) * 32 && At(Encoded(vs, ts), HeadWords(ts[..i]) * 32, Word(p))
    ensures ts[i].Text? || ts[i].DynamicArray? ==> IsDynamic(ts[i])
    ensures ts[i].UInt? || ts[i].SInt? || ts[i].Bool? || ts[i].Address? || ts[i].Bytes32? ==> !IsDynamic(ts[i])
    ensures ts[i].StaticArray? ==> (IsDynamic(ts[i]) <==> IsDynamic(ts[i].elem))
  {
    HeadsSize(Args(vs, ts), HeadWords(ts) * 32);
    HeadBytesWords(vs, ts);
    HeadWordsBefore(vs, ts, i);
    p := ArgumentPlace(Args(vs, ts), HeadWords(ts) * 32, i);
  }

  lemma AtEarlier(a: Bytes, b: Bytes, off: nat, s: Bytes)
    requires At(a, off, s)
    ensures At(a + b, off, s)
  {
    assert (a + b)[off..off + |s|] == a[off..off + |s|];
  }

  // ---- Data that is too short ------------------------------------------------------------------

  /** A word is read only if it lies inside the data. */
  lemma WordNeeds(data: Bytes, off: nat)
    requires |data| < SIZE_LIMIT && off < SIZE_LIMIT && off % 32 == 0
    ensures WordAt(data, off).Ok? <==> off + 32 <= |data|
  {
  }

  /** A value is read only if all its head words lie inside the data. */
  lemma {:induction false} ReadNeeds(data: Bytes, t: Type, off: nat)
    requires |data| < SIZE_LIMIT && off < SIZE_LIMIT && off % 32 == 0 && !IsDynamic(t)
    requires Read(data, t, off).Ok?
    ensures Length(t) > 0 ==> off + Length(t) * 32 <= |data|
    decreases t, 0
  {
    if t.StaticArray? {
      if t.size > 0 && Length(t.elem) > 0 {
        ElementsNeed(data, t.elem, off, 0, t.size);
        Regrouped(t.size, Length(t.elem));
      }
    } else {
      WordNeeds(data, off);
    }
  }

  lemma {:induction false} ElementsNeed(data: Bytes, e: Type, base: nat, u: nat, n: nat)
    requires |data| < SIZE_LIMIT && base % 32 == 0 && !IsDynamic(e) && Length(e) > 0 && u < n
    requires base + u * (Length(e) * 32) < SIZE_LIMIT && ReadAll(data, e, base, u, n).Ok?
    ensures base + n * (Length(e) * 32) <= |data|
    decreases e, 1 + n - u
  {
    var size := Length(e) * 32;
    Aligned(base, u, Length(e));
    ReadNeeds(data, e, base + u * size);
    NextElement(base, u, size);
    if u + 1 < n {
      ElementsNeed(data, e, base, u + 1, n);
    }
  }

  lemma NextElement(base: nat, u: nat, size: nat)
    ensures base + (u + 1) * size == base + u * size + size
  {
  }

  lemma Aligned(base: nat, u: nat, words: nat)
    requires base % 32 == 0
    ensures (base + u * (words * 32)) % 32 == 0
  {
    Regrouped(u, words);
  }

  lemma StillAligned(offset: nat, words: nat)
    requires offset % 32 == 0
    ensures (offset + words * 32) % 32 == 0
  {
  }

  /** The head of an argument that was read lies inside the data. */
  lemma HeadNeeds(data: Bytes, t: Type, offset: nat)
    requires |data| < SIZE_LIMIT && offset <= |data| && offset % 32 == 0
    requires var at := Target(data, IsDynamic(t), offset); at.Ok? && Read(data, t, at.value).Ok?
    ensures offset + Length(t) * 32 <= |data|
  {
    if IsDynamic(t) {
      WordNeeds(data, offset);
    } else {
      ReadNeeds(data, t, offset);
    }
  }

  lemma FirstWasRead(data: Bytes, ts: seq<Type>, offset: nat)
    requires ts != [] && Arguments(data, ts, offset).Ok?
    ensures var at := Target(data, IsDynamic(ts[0]), offset); at.Ok? && Read(data, ts[0], at.value).Ok?
    ensures Arguments(data, ts[1..], Wrap(offset + Length(ts[0]) * 32)).Ok?
  {
  }

  lemma {:induction false} ArgumentsNeed(data: Bytes, ts: seq<Type>, offset: nat, words: nat)
    requires |data| < SIZE_LIMIT && offset <= |data| && offset % 32 == 0
    requires Arguments(data, ts, offset).Ok? && words == HeadWords(ts)
    ensures offset + words * 32 <= |data|
  {
    if ts != [] {
      FirstWasRead(data, ts, offset);
      HeadNeeds(data, ts[0], offset);
      StillAligned(offset, Length(ts[0]));
      ArgumentsNeed(data, ts[1..], offset + Length(ts[0]) * 32, words - Length(ts[0]));
    }
  }

  /** Data shorter than the heads of the arguments is refused. */
  lemma TooShortFails(data: Bytes, ts: seq<Type>)
    requires |data| < SIZE_LIMIT && |data| < HeadWords(ts) * 32
    ensures Arguments(data, ts, 0) == Err
  {
    if Arguments(data, ts, 0).Ok? {
      ArgumentsNeed(data, ts, 0, HeadWords(ts));
    }
  }

  /** A text is read, and whole, exactly when it lies inside the data; its end must not overflow. */
  lemma TextNeeds(data: Bytes, off: nat)
    requires |data| < SIZE_LIMIT && off + 32 <= |data|
    requires off + 32 + Value(data[off..off + 32]) <= SIZE_LIMIT
    ensures var n := Value(data[off..off + 32]);
            Read(data, Text, off) ==
              if off + 32 + n <= |data| then Ok(Raw(data[off + 32..off + 32 + n])) else Err
  {
  }

  // ---- Reading any word ------------------------------------------------------------------------

  /** An `int256` survives exactly from -2^255 + 2^252 on and below 2^255 + 2^252. */
  lemma SignedSurvives(i: int)
    requires HasType(Signed(i), SInt)
    ensures Seen(Signed(i)) == Signed(i) <==>
            -0x7000000000000000_0000000000000000_0000000000000000_0000000000000000 <= i
            < 0x9000000000000000_0000000000000000_0000000000000000_0000000000000000
  {
  }

  /** What the decoder makes of any word inside the data. */
  lemma ReadForm(data: Bytes, off: nat)
    requires |data| < SIZE_LIMIT && off + 32 <= |data|
    ensures var w := data[off..off + 32];
            && Read(data, UInt, off) == Ok(Unsigned(Value(w)))
            && Read(data, Bool, off) == Ok(Flag(Value(w) != 0))
            && Read(data, Bytes32, off) == Ok(Raw(w))
            && Read(data, Address, off) == Ok(Raw(data[off + 12..off + 32]))
            && Read(data, SInt, off) ==
               Ok(Signed(if Value(w) > 0x8fffffffffffffff_ffffffffffffffff_ffffffffffffffff_ffffffffffffffff
                         then Value(w) - U256_LIMIT else Value(w)))
  {
    PopulatedWhole(data[off..off + 32]);
    PopulatedWhole(data[off + 12..off + 32]);
  }
}
