/** `ContractABI`: the encoder and decoder that build and read the ABI layout in place. */
module AbiCodec {
  import opened Common
  import opened BigEndian
  import opened Abi

  class ContractAbi {
    var offset: nat
    var fixedPart: Bytes
    var dynamicPart: Bytes
    var data: Bytes

    constructor ()
      ensures offset == 0 && fixedPart == [] && dynamicPart == [] && data == []
    {
      offset, fixedPart, dynamicPart, data := 0, [], [], [];
    }

    /** `serialise` of a string or of bytes: the buffer grows by whole words, then is filled. */
    static method SerialiseText(b: Bytes) returns (ret: Bytes)
      ensures ret == Word(|b|) + (b + ZeroBytes(Padding(|b|)))
    {
      ret := Word(|b|);
      ret := ret + ZeroBytes((|b| + 31) / 32 * 32);
      ret := ret[..32] + Populated(b, |ret| - 32);
    }

    static method Serialise(v: Val, t: Type) returns (out: Bytes)
      requires HasType(v, t)
      ensures out == Layout(v, t)
      decreases v, 0
    {
      match t
      case UInt => out := Word(v.n);
      case SInt => out := Word(v.i % U256_LIMIT);
      case Bool => out := Word(if v.b then 1 else 0);
      case Address => out := ZeroBytes(12) + v.bytes;
      case Bytes32 => out := v.bytes;
      case Text => out := SerialiseText(v.bytes);
      case StaticArray(e, n) =>
        out := SerialiseArray(v.elems, e);
      case DynamicArray(e) =>
        var elements := SerialiseArray(v.elems, e);
        out := Word(|v.elems|) + elements;
    }

    /** The loop shared by the two array forms: offset words and contents grow side by side. */
    static method SerialiseArray(vs: seq<Val>, e: Type) returns (out: Bytes)
      requires AllHaveType(vs, e)
      ensures out == Body(Layouts(vs, e), IsDynamic(e))
      decreases vs, 1
    {
      var offsets: Bytes, contents: Bytes, length: nat := [], [], |vs| * 32;
      ghost var parts := Layouts(vs, e);
      for i := 0 to |vs|
        invariant Built(parts, i, IsDynamic(e), offsets, contents, length)
      {
        LayoutsAt(vs, e, i);
        var element := Serialise(vs[i], e);
        offsets, contents, length := AddElement(parts, i, IsDynamic(e), offsets, contents, length, element);
      }
      assert parts[..|vs|] == parts;
      out := offsets + contents;
    }

    /** The offset words and the contents of the first `i` elements, and where the next one goes. */
    static ghost predicate Built(
      parts: seq<Bytes>, i: nat, dynamic: bool, offsets: Bytes, contents: Bytes, length: nat)
    {
      && i <= |parts| && contents == Concat(parts[..i])
      && (if dynamic then length == |parts| * 32 + |contents| && offsets == Words(parts[..i], |parts| * 32)
          else offsets == [])
    }

    static method AddElement(
      ghost parts: seq<Bytes>, ghost i: nat, dynamic: bool,
      offsets: Bytes, contents: Bytes, length: nat, element: Bytes)
      returns (offsets': Bytes, contents': Bytes, length': nat)
      requires i < |parts| && element == parts[i] && Built(parts, i, dynamic, offsets, contents, length)
      ensures Built(parts, i + 1, dynamic, offsets', contents', length')
    {
      OnePartMore(parts, i, |parts| * 32);
      offsets', length' := offsets, length;
      if dynamic {
        offsets' := offsets + Word(length);
        length' := length + |element|;
      }
      contents' := contents + element;
    }

    method AbiInAux(vs: seq<Val>, ts: seq<Type>)
      requires HaveTypes(vs, ts)
      modifies this
      ensures fixedPart == old(fixedPart) + Heads(Args(vs, ts), old(offset))
      ensures dynamicPart == old(dynamicPart) + Tails(Args(vs, ts))
      ensures data == old(data)
      decreases vs
    {
      if vs != [] {
        ArgsTail(vs, ts);
        ghost var rest := Args(vs[1..], ts[1..]);
        var out := Serialise(vs[0], ts[0]);
        if IsDynamic(ts[0]) {
          Assoc(fixedPart, Word(offset), Heads(rest, offset + |out|));
          Assoc(dynamicPart, out, Tails(rest));
          dynamicPart := dynamicPart + out;
          fixedPart := fixedPart + Word(offset);
          offset := offset + |out|;
        } else {
          Assoc(fixedPart, out, Heads(rest, offset));
          fixedPart := fixedPart + out;
        }
        AbiInAux(vs[1..], ts[1..]);
      }
    }

    static method HeadSize(ts: seq<Type>) returns (words: nat)
      ensures words == HeadWords(ts)
    {
      words := 0;
      for i := 0 to |ts|
        invariant words + HeadWords(ts[i..]) == HeadWords(ts)
      {
        assert ts[i..][1..] == ts[i + 1..];
        words := words + Length(ts[i]);
      }
    }

    /** `selector` is empty, or the first four bytes of the hash of the function signature. */
    method AbiIn(selector: Bytes, vs: seq<Val>, ts: seq<Type>) returns (out: Bytes)
      requires HaveTypes(vs, ts)
      modifies this
      ensures out == selector + Encoded(vs, ts)
    {
      var words := HeadSize(ts);
      offset := words * 32;
      fixedPart, dynamicPart := [], [];
      AbiInAux(vs, ts);
      NothingBefore(Heads(Args(vs, ts), words * 32));
      NothingBefore(Tails(Args(vs, ts)));
      out := selector + fixedPart + dynamicPart;
      Assoc(selector, fixedPart, dynamicPart);
    }

    method Deserialise(t: Type, off: nat) returns (r: Result<Val>)
      ensures r == Read(data, t, off)
      decreases t, 0
    {
      match t
      case UInt =>
        var n := DeserialiseWord(off);
        r := if n.Ok? then Ok(Unsigned(n.value)) else Err;
      case SInt =>
        var n := DeserialiseWord(off);
        if n.Err? {
          return Err;
        }
        if n.value > SIGN_LIMIT {
          var magnitude := (U256_LIMIT - 1) - n.value + 1;
          r := Ok(Signed(0 - magnitude));
        } else {
          r := Ok(Signed(n.value));
        }
      case Bool =>
        var n := DeserialiseWord(off);
        r := if n.Ok? then Ok(Flag(n.value > 0)) else Err;
      case Address =>
        r := if WordInside(data, off) then Ok(Raw(Populated(Cropped(data, Wrap(off + WORD - 20), 20), 20))) else Err;
      case Bytes32 =>
        r := if WordInside(data, off) then Ok(Raw(Populated(Cropped(data, off, WORD), WORD))) else Err;
      case Text =>
        var n := DeserialiseWord(off);
        if n.Err? || Wrap(off + WORD + Wrap(n.value) - 1) >= |data| {
          return Err;
        }
        r := Ok(Raw(Cropped(data, Wrap(off + WORD), Wrap(n.value))));
      case StaticArray(e, n) =>
        var vs := DeserialiseArray(e, off, n);
        r := if vs.Ok? then Ok(Array(vs.value)) else Err;
      case DynamicArray(e) =>
        var n := DeserialiseWord(off);
        if n.Err? {
          return Err;
        }
        var vs := DeserialiseArray(e, Wrap(off + WORD), Wrap(n.value));
        r := if vs.Ok? then Ok(Array(vs.value)) else Err;
    }

    method DeserialiseWord(off: nat) returns (r: Result<nat>)
      ensures r == WordAt(data, off)
    {
      if Wrap(off + WORD - 1) >= |data| {
        return Err;
      }
      var word := Cropped(data, off, WORD);
      var n: nat := 0;
      for i := 0 to |word|
        invariant n == Value(word[..i])
      {
        assert word[..i + 1] == word[..i] + [word[i]];
        ValueSnoc(word[..i], word[i]);
        n := n * 256 + word[i];
      }
      assert word[..|word|] == word;
      r := Ok(n);
    }

    /** The loop shared by the two array forms. */
    method DeserialiseArray(e: Type, base: nat, n: nat) returns (r: Result<seq<Val>>)
      ensures r == ReadAll(data, e, base, 0, n)
      decreases e, 1
    {
      var vs: seq<Val>, size := [], Length(e) * 32;
      JoinedNothing(ReadAll(data, e, base, 0, n));
      for u := 0 to n
        invariant ReadAll(data, e, base, 0, n) == Joined(vs, ReadAll(data, e, base, u, n))
      {
        var place := PlaceElement(IsDynamic(e), size, base, u);
        if place.Err? {
          return Err;
        }
        var v := Deserialise(e, place.value);
        if v.Err? {
          return Err;
        }
        JoinedNext(vs, v.value, ReadAll(data, e, base, u + 1, n));
        vs := vs + [v.value];
      }
      assert vs + [] == vs;
      r := Ok(vs);
    }

    method PlaceElement(dynamic: bool, size: nat, base: nat, u: nat) returns (r: Result<nat>)
      ensures r == Place(data, dynamic, size, base, u)
    {
      var at := Wrap(base + u * size);
      if !dynamic {
        return Ok(at);
      }
      var head := DeserialiseWord(at);
      r := if head.Ok? then Ok(Wrap(base + Wrap(head.value))) else Err;
    }

    method AbiOutAux(ts: seq<Type>) returns (r: Result<seq<Val>>)
      modifies `offset
      ensures r == Arguments(data, ts, old(offset))
      decreases ts
    {
      if ts == [] {
        return Ok([]);
      }
      var place := TargetOf(IsDynamic(ts[0]));
      if place.Err? {
        return Err;
      }
      var v := Deserialise(ts[0], place.value);
      if v.Err? {
        return Err;
      }
      offset := Wrap(offset + Length(ts[0]) * 32);
      var vs := AbiOutAux(ts[1..]);
      r := if vs.Ok? then Ok([v.value] + vs.value) else Err;
    }

    method TargetOf(dynamic: bool) returns (r: Result<nat>)
      ensures r == Target(data, dynamic, offset)
    {
      if !dynamic {
        return Ok(offset);
      }
      var head := DeserialiseWord(offset);
      r := if head.Ok? then Ok(Wrap(head.value)) else Err;
    }

    /** A result of `Err` stands for the exception that `abiOut` turns into false. */
    method AbiOut(bytes: Bytes, ts: seq<Type>) returns (r: Result<seq<Val>>)
      modifies this
      ensures data == bytes && r == Arguments(bytes, ts, 0)
    {
      data := bytes;
      offset := 0;
      r := AbiOutAux(ts);
    }

    /** A whole round through the codec, with and without a selector. */
    method EncodeThenDecode(selector: Bytes, vs: seq<Val>, ts: seq<Type>) returns (r: Result<seq<Val>>)
      requires HaveTypes(vs, ts) && |Encoded(vs, ts)| < SIZE_LIMIT
      modifies this
      ensures r == Ok(SeenAll(vs))
      ensures r == Ok(vs) <==> AllInRange(vs)
    {
      var out := AbiIn(selector, vs, ts);
      assert out[|selector|..] == Encoded(vs, ts) + [];
      RoundTrip(vs, ts, []);
      r := AbiOut(out[|selector|..], ts);
    }
  }

  lemma OnePartMore(parts: seq<Bytes>, i: nat, start: nat)
    requires i < |parts|
    ensures Concat(parts[..i + 1]) == Concat(parts[..i]) + parts[i]
    ensures Words(parts[..i + 1], start) == Words(parts[..i], start) + Word(start + |Concat(parts[..i])|)
  {
    assert parts[..i + 1] == parts[..i] + [parts[i]];
    ConcatSnoc(parts[..i], parts[i]);
    WordsSnoc(parts[..i], parts[i], start);
  }

  lemma NothingBefore(b: Bytes)
    ensures [] + b == b
  {
  }

  ghost function Joined<T>(done: seq<T>, rest: Result<seq<T>>): Result<seq<T>> {
    if rest.Ok? then Ok(done + rest.value) else Err
  }

  lemma JoinedNothing<T>(rest: Result<seq<T>>)
    ensures Joined([], rest) == rest
  {
    if rest.Ok? {
      assert [] + rest.value == rest.value;
    }
  }

  lemma JoinedNext<T>(done: seq<T>, x: T, rest: Result<seq<T>>)
    ensures Joined(done + [x], rest) == Joined(done, if rest.Ok? then Ok([x] + rest.value) else Err)
  {
    if rest.Ok? {
      Assoc(done, [x], rest.value);
    }
  }
}
