/** Channel message framing: `ChannelMessage` and the read loop of `ChannelSession`. */
module Framing {
  import opened Common
  import opened BigEndian

  const HEADER_LENGTH: nat := 42
  const MAX_LENGTH: nat := 104857600

  datatype Message = Message(kind: nat, seqId: Bytes, result: int, data: Bytes)

  /** The ranges of the C++ field types. */
  predicate Typed(m: Message) {
    m.kind < 0x1_0000 && -0x8000_0000 <= m.result < 0x8000_0000
  }

  function Unsigned32(i: int): nat {
    i % 0x1_0000_0000
  }

  function Signed32(n: nat): int {
    if n >= 0x8000_0000 then n - 0x1_0000_0000 else n
  }

  /** The bytes of one message; the length field keeps its low 32 bits. */
  function Encoding(m: Message): (b: Bytes)
    ensures |b| == 10 + |m.seqId| + |m.data|
  {
    Fixed(42 + |m.data|, 4) + (Fixed(m.kind, 2) + (m.seqId + (Fixed(Unsigned32(m.result), 4) + m.data)))
  }

  /** Outcome of one decode: a message and its length, too few bytes, a length over the limit, an exception. */
  datatype Decoded = Complete(msg: Message, used: nat) | Incomplete | Illegal | Fault

  function Decode(b: Bytes): (r: Decoded)
    ensures r.Complete? ==> 42 <= r.used <= |b| && r.used <= MAX_LENGTH && Typed(r.msg) && |r.msg.seqId| == 32
  {
    if |b| < 42 then Incomplete else
      var length := Value(b[..4]);
      if length > MAX_LENGTH then Illegal
      else if |b| < length then Incomplete
      else if length < 42 then Fault
      else
        FieldBound(b[4..6]);
        FieldBound(b[38..42]);
        Complete(Message(Value(b[4..6]), b[6..38], Signed32(Value(b[38..42])), b[42..length]), length)
  }

  lemma FieldBound(b: Bytes)
    ensures |b| == 2 ==> Value(b) < 0x1_0000
    ensures |b| == 4 ==> Value(b) < 0x1_0000_0000
  {
    ValueBound(b);
    assert Pow256(2) == 0x1_0000;
    assert Pow256(4) == 0x1_0000_0000;
  }

  // ---- One message -----------------------------------------------------------------------------

  lemma FieldValue(n: nat)
    ensures n < 0x1_0000 ==> Value(Fixed(n, 2)) == n
    ensures n < 0x1_0000_0000 ==> Value(Fixed(n, 4)) == n
  {
    assert Pow256(2) == 0x1_0000;
    assert Pow256(4) == 0x1_0000_0000;
    if n < 0x1_0000 {
      FixedValue(n, 2);
    }
    if n < 0x1_0000_0000 {
      FixedValue(n, 4);
    }
  }

  lemma Fields(m: Message, after: Bytes)
    requires |m.seqId| == 32
    ensures var b := Encoding(m) + after;
            && b[..4] == Fixed(42 + |m.data|, 4) && b[4..6] == Fixed(m.kind, 2) && b[6..38] == m.seqId
            && b[38..42] == Fixed(Unsigned32(m.result), 4) && b[42..42 + |m.data|] == m.data
  {
  }

  lemma LengthField(m: Message, after: Bytes)
    requires |m.seqId| == 32 && 42 + |m.data| <= MAX_LENGTH
    ensures Value((Encoding(m) + after)[..4]) == 42 + |m.data|
  {
    Fields(m, after);
    FieldValue(42 + |m.data|);
  }

  lemma KindField(m: Message, after: Bytes)
    requires Typed(m) && |m.seqId| == 32
    ensures Value((Encoding(m) + after)[4..6]) == m.kind
  {
    Fields(m, after);
    FieldValue(m.kind);
  }

  lemma SignedUnsigned(i: int)
    requires -0x8000_0000 <= i < 0x8000_0000
    ensures Unsigned32(i) == (if i >= 0 then i else i + 0x1_0000_0000) && Signed32(Unsigned32(i)) == i
  {
  }

  lemma ResultField(m: Message, after: Bytes)
    requires Typed(m) && |m.seqId| == 32
    ensures Signed32(Value((Encoding(m) + after)[38..42])) == m.result
  {
    Fields(m, after);
    SignedUnsigned(m.result);
    assert Value(Fixed(Unsigned32(m.result), 4)) == Unsigned32(m.result) by {
      FieldValue(Unsigned32(m.result));
    }
  }

  lemma DecodeFields(b: Bytes, m: Message)
    requires 42 + |m.data| <= |b| && 42 + |m.data| <= MAX_LENGTH && Value(b[..4]) == 42 + |m.data|
    requires Value(b[4..6]) == m.kind && b[6..38] == m.seqId && Signed32(Value(b[38..42])) == m.result
    requires b[42..42 + |m.data|] == m.data
    ensures Decode(b) == Complete(m, 42 + |m.data|)
  {
  }

  /** Decoding a message's bytes, whatever follows them, gives the message back. */
  lemma DecodeEncoding(m: Message, after: Bytes)
    requires Typed(m) && |m.seqId| == 32 && 42 + |m.data| <= MAX_LENGTH
    ensures Decode(Encoding(m) + after) == Complete(m, |Encoding(m)|)
  {
    Fields(m, after);
    LengthField(m, after);
    KindField(m, after);
    ResultField(m, after);
    DecodeFields(Encoding(m) + after, m);
  }

  /** The limits under which a message comes back are exactly a 32-byte sequence id and the size limit. */
  lemma RoundTrip(m: Message)
    requires Typed(m)
    ensures Decode(Encoding(m)) == Complete(m, |Encoding(m)|) <==> |m.seqId| == 32 && 42 + |m.data| <= MAX_LENGTH
  {
    if |m.seqId| == 32 && 42 + |m.data| <= MAX_LENGTH {
      DecodeEncoding(m, []);
      assert Encoding(m) + [] == Encoding(m);
    }
  }

  /** More bytes change nothing once a decode has an outcome. */
  lemma DecodeMore(b: Bytes, c: Bytes)
    requires !Decode(b).Incomplete?
    ensures Decode(b + c) == Decode(b)
  {
    var d := b + c;
    assert d[..4] == b[..4] && d[4..6] == b[4..6] && d[6..38] == b[6..38] && d[38..42] == b[38..42];
    if Decode(b).Complete? {
      assert d[42..Decode(b).used] == b[42..Decode(b).used];
    }
  }

  /** The outcome of a decode, by the number of bytes and the announced length. */
  lemma DecodeOutcome(b: Bytes)
    ensures |b| < 42 ==> Decode(b) == Incomplete
    ensures |b| >= 42 ==>
              var length := Value(b[..4]);
              && (length > 104857600 <==> Decode(b) == Illegal)
              && (length < 42 <==> Decode(b) == Fault)
              && (42 <= length <= 104857600 && |b| < length <==> Decode(b) == Incomplete)
              && (42 <= length <= 104857600 && length <= |b| ==> Decode(b).Complete? && Decode(b).used == length)
  {
  }

  /** A proper prefix of a message's bytes is never taken for a message. */
  lemma PrefixIncomplete(m: Message, p: Bytes)
    requires Typed(m) && |m.seqId| == 32 && 42 + |m.data| <= MAX_LENGTH && p < Encoding(m)
    ensures Decode(p) == Incomplete
  {
    if |p| >= 42 {
      Fields(m, []);
      FieldValue(42 + |m.data|);
      assert Encoding(m) + [] == Encoding(m);
      assert p[..4] == Encoding(m)[..4];
    }
  }

  // ---- The stream ------------------------------------------------------------------------------

  /** How a drain ends: waiting for more, disconnected, or left without a further read. */
  datatype End = Waiting | Disconnected | Stalled

  datatype Drained = Drained(msgs: seq<Message>, rest: Bytes, end: End)

  /** All the messages at the front of a buffer. */
  function Drain(b: Bytes): Drained
    decreases |b|
  {
    match Decode(b)
    case Complete(m, used) =>
      var d := Drain(b[used..]);
      Drained([m] + d.msgs, d.rest, d.end)
    case Incomplete => Drained([], b, Waiting)
    case Illegal => Drained([], b, Disconnected)
    case Fault => Drained([], b, Stalled)
  }

  /** Another chunk arrives; nothing is read once the session has stopped. */
  function Feed(s: Drained, chunk: Bytes): Drained {
    if s.end != Waiting then s else
      var d := Drain(s.rest + chunk);
      Drained(s.msgs + d.msgs, d.rest, d.end)
  }

  function FeedAll(s: Drained, chunks: seq<Bytes>): Drained
    decreases |chunks|
  {
    if chunks == [] then s else FeedAll(Feed(s, chunks[0]), chunks[1..])
  }

  const FRESH: Drained := Drained([], [], Waiting)

  /** The same messages, the same ending, and the same leftover while still reading. */
  ghost predicate Agrees(s: Drained, t: Drained) {
    s.msgs == t.msgs && s.end == t.end && (s.end == Waiting ==> s.rest == t.rest)
  }

  /** Draining early and going on agrees with draining everything together. */
  lemma {:induction false} DrainSplit(b: Bytes, c: Bytes)
    ensures Agrees(Feed(Drain(b), c), Drain(b + c))
    decreases |b|
  {
    if Decode(b).Incomplete? {
      assert [] + Drain(b + c).msgs == Drain(b + c).msgs;
    } else {
      DecodeMore(b, c);
      if Decode(b).Complete? {
        var m, used := Decode(b).msg, Decode(b).used;
        DrainSplit(b[used..], c);
        assert (b + c)[used..] == b[used..] + c;
        var d := Drain(b[used..]);
        if d.end == Waiting {
          Assoc([m], d.msgs, Drain(d.rest + c).msgs);
        }
      }
    }
  }

  lemma {:induction false} FeedStopped(s: Drained, chunks: seq<Bytes>)
    requires s.end != Waiting
    ensures FeedAll(s, chunks) == s
    decreases |chunks|
  {
    if chunks != [] {
      FeedStopped(s, chunks[1..]);
    }
  }

  lemma {:induction false} FeedAllSplit(b: Bytes, s: Drained, chunks: seq<Bytes>)
    requires Agrees(s, Drain(b))
    ensures Agrees(FeedAll(s, chunks), Drain(b + Concat(chunks)))
    decreases |chunks|
  {
    if chunks == [] {
      assert b + [] == b;
    } else {
      DrainSplit(b, chunks[0]);
      FeedAllSplit(b + chunks[0], Feed(s, chunks[0]), chunks[1..]);
      Assoc(b, chunks[0], Concat(chunks[1..]));
    }
  }

  /** Framing does not depend on chunking, for any bytes at all. */
  lemma ChunkingIrrelevant(chunks: seq<Bytes>)
    ensures Agrees(FeedAll(FRESH, chunks), Drain(Concat(chunks)))
  {
    assert [] + Concat(chunks) == Concat(chunks);
    FeedAllSplit([], FRESH, chunks);
  }

  lemma DrainNext(m: Message, later: Bytes)
    requires Sendable(m)
    ensures Drain(Encoding(m) + later) == Drained([m] + Drain(later).msgs, Drain(later).rest, Drain(later).end)
  {
    DecodeEncoding(m, later);
    assert (Encoding(m) + later)[|Encoding(m)|..] == later;
  }

  /**
   * After any messages, an announced length over 104857600 ends the session with a disconnect and one
   * below 42 leaves it without a further read; the messages before it are delivered and no others.
   */
  lemma {:induction false} BadLengthEnds(ms: seq<Message>, bad: Bytes)
    requires (forall i :: 0 <= i < |ms| ==> Sendable(ms[i])) && |bad| >= 42
    requires Value(bad[..4]) > 104857600 || Value(bad[..4]) < 42
    ensures var d := Drain(Encodings(ms) + bad);
            d.msgs == ms && d.end == if Value(bad[..4]) < 42 then Stalled else Disconnected
    decreases |ms|
  {
    if ms == [] {
      DecodeOutcome(bad);
      assert Encodings(ms) + bad == bad;
    } else {
      BadLengthEnds(ms[1..], bad);
      OneMoreFirst(ms, bad);
    }
  }

  lemma OneMoreFirst(ms: seq<Message>, tail: Bytes)
    requires ms != [] && Sendable(ms[0])
    ensures var d := Drain(Encodings(ms[1..]) + tail);
            Drain(Encodings(ms) + tail) == Drained([ms[0]] + d.msgs, d.rest, d.end)
    ensures [ms[0]] + ms[1..] == ms
  {
    Assoc(Encoding(ms[0]), Encodings(ms[1..]), tail);
    DrainNext(ms[0], Encodings(ms[1..]) + tail);
  }

  ghost predicate Sendable(m: Message) {
    Typed(m) && |m.seqId| == 32 && 42 + |m.data| <= MAX_LENGTH
  }

  function Encodings(ms: seq<Message>): Bytes {
    if ms == [] then [] else Encoding(ms[0]) + Encodings(ms[1..])
  }

  /** Where a prefix of the stream stops: after `k` messages, inside the next one. */
  ghost predicate StopsAfter(ms: seq<Message>, p: Bytes, k: nat, rest: Bytes) {
    k <= |ms| && p == Encodings(ms[..k]) + rest && if k < |ms| then rest < Encoding(ms[k]) else rest == []
  }

  lemma {:induction false} DrainStream(ms: seq<Message>, p: Bytes) returns (k: nat)
    requires forall i :: 0 <= i < |ms| ==> Sendable(ms[i])
    requires p <= Encodings(ms)
    ensures k <= |ms| && Drain(p).end == Waiting && Drain(p).msgs == ms[..k] && StopsAfter(ms, p, k, Drain(p).rest)
    decreases |ms|
  {
    k := 0;
    if ms == [] {
      assert p == [];
    } else {
      var first := Encoding(ms[0]);
      if |p| < |first| {
        assert p == Encodings(ms)[..|p|] == first[..|p|];
        PrefixIncomplete(ms[0], p);
        assert Encodings(ms[..0]) + p == p;
      } else {
        var later := p[|first|..];
        PrefixTail(p, first, Encodings(ms[1..]));
        var j := DrainStream(ms[1..], later);
        DecodeEncoding(ms[0], later);
        k := j + 1;
        OneMore(ms, j, p, Drain(later).rest);
      }
    }
  }

  lemma PrefixTail(p: Bytes, first: Bytes, rest: Bytes)
    requires p <= first + rest && |p| >= |first|
    ensures p == first + p[|first|..] && p[|first|..] <= rest
  {
    assert p == (first + rest)[..|p|];
    assert p[..|first|] == first;
    assert p[|first|..] == rest[..|p| - |first|];
  }

  lemma OneMore(ms: seq<Message>, j: nat, p: Bytes, rest: Bytes)
    requires ms != [] && |p| >= |Encoding(ms[0])| && p == Encoding(ms[0]) + p[|Encoding(ms[0])|..]
    requires StopsAfter(ms[1..], p[|Encoding(ms[0])|..], j, rest)
    ensures StopsAfter(ms, p, j + 1, rest) && ms[..j + 1] == [ms[0]] + ms[1..][..j]
  {
    assert ms[..j + 1] == [ms[0]] + ms[1..][..j];
    assert ms[..j + 1][1..] == ms[1..][..j];
    Assoc(Encoding(ms[0]), Encodings(ms[1..][..j]), rest);
  }

  /**
   * For every list of messages and every split of any prefix of their bytes into reads, the session
   * delivers exactly the messages that are wholly there, in order, and keeps a proper prefix of the
   * next one.
   */
  lemma StreamDelivered(ms: seq<Message>, chunks: seq<Bytes>) returns (k: nat)
    requires forall i :: 0 <= i < |ms| ==> Sendable(ms[i])
    requires Concat(chunks) <= Encodings(ms)
    ensures var s := FeedAll(FRESH, chunks);
            k <= |ms| && s.end == Waiting && s.msgs == ms[..k] && StopsAfter(ms, Concat(chunks), k, s.rest)
    ensures Concat(chunks) == Encodings(ms) ==> k == |ms|
  {
    ChunkingIrrelevant(chunks);
    k := DrainStream(ms, Concat(chunks));
    if Concat(chunks) == Encodings(ms) && k < |ms| {
      EncodingsSplit(ms, k);
      assert false;
    }
  }

  lemma {:induction false} EncodingsSplit(ms: seq<Message>, k: nat)
    requires k < |ms|
    ensures |Encodings(ms)| >= |Encodings(ms[..k])| + |Encoding(ms[k])|
  {
    if k > 0 {
      EncodingsSplit(ms[1..], k - 1);
      assert ms[..k][1..] == ms[1..][..k - 1];
    }
  }

  // ---- The objects -----------------------------------------------------------------------------

  class ChannelMessage {
    var length: nat
    var kind: nat
    var seqId: Bytes
    var result: int
    var data: Bytes

    constructor ()
      ensures Now() == Message(0, [], 0, [])
    {
      length, kind, seqId, result, data := 0, 0, [], 0, [];
    }

    function Now(): Message
      reads this
    {
      Message(kind, seqId, result, data)
    }

    /** Appends the message to a buffer. */
    method Encode(buffer: Bytes) returns (r: Bytes)
      modifies `length
      ensures r == buffer + Encoding(Now()) && length == HEADER_LENGTH + |data|
    {
      length := HEADER_LENGTH + |data|;
      var lengthN := Fixed(HEADER_LENGTH + |data|, 4);
      var typeN := Fixed(kind, 2);
      var resultN := Fixed(Unsigned32(result), 4);
      r := buffer;
      r := r + lengthN;
      r := r + typeN;
      r := r + seqId;
      r := r + resultN;
      r := r + data;
      assert r == buffer + (lengthN + (typeN + (seqId + (resultN + data))));
    }

    /** The number of bytes used, 0 for too few, -1 for an illegal length; `Err` for an exception. */
    method DecodeAmop(buffer: Bytes) returns (r: Result<int>)
      modifies this
      ensures match Decode(buffer)
              case Complete(m, used) => r == Ok(used) && Now() == m
              case Incomplete => r == Ok(0)
              case Illegal => r == Ok(-1)
              case Fault => r == Err
    {
      if |buffer| < HEADER_LENGTH {
        return Ok(0);
      }
      length := Value(buffer[..4]);
      if length > MAX_LENGTH {
        return Ok(-1);
      }
      if |buffer| < length {
        return Ok(0);
      }
      kind := Value(buffer[4..6]);
      seqId := buffer[6..38];
      result := Signed32(Value(buffer[38..42]));
      if length < HEADER_LENGTH {
        return Err;
      }
      data := buffer[HEADER_LENGTH..length];
      r := Ok(length);
    }
  }

  /** The receiving half of a session. `reading` says that a further read has been started. */
  class Session {
    var active: bool
    var reading: bool
    var recvProtocolBuffer: Bytes
    var delivered: seq<Message>

    constructor ()
      ensures Now() == FRESH
    {
      active, reading, recvProtocolBuffer, delivered := true, true, [], [];
    }

    function Now(): Drained
      reads this
    {
      Drained(delivered, recvProtocolBuffer, if !active then Disconnected else if reading then Waiting else Stalled)
    }

    /** A read has completed with `chunk`. */
    method OnRead(chunk: Bytes)
      requires reading || !active
      modifies this
      ensures Now() == Feed(old(Now()), chunk)
    {
      if !active {
        return;
      }
      reading := false;
      recvProtocolBuffer := recvProtocolBuffer + chunk;
      ghost var all, before, done: seq<Message> := Drain(recvProtocolBuffer), delivered, [];
      while true
        invariant active && !reading && delivered == before + done
        invariant var d := Drain(recvProtocolBuffer); all == Drained(done + d.msgs, d.rest, d.end)
        decreases |recvProtocolBuffer|
      {
        var message := new ChannelMessage();
        var result := message.DecodeAmop(recvProtocolBuffer);
        if result.Err? {
          break;
        }
        if result.value > 0 {
          DrainFirst(recvProtocolBuffer, before, done);
          done := done + [message.Now()];
          delivered := delivered + [message.Now()];
          recvProtocolBuffer := recvProtocolBuffer[result.value..];
        } else if result.value == 0 {
          reading := true;
          break;
        } else {
          active := false;
          break;
        }
      }
      assert done + [] == done;
    }

    /** A whole sequence of reads; the session stops by itself when no further read is started. */
    method OnReads(chunks: seq<Bytes>)
      requires Now() == FRESH
      modifies this
      ensures Now() == FeedAll(FRESH, chunks)
      ensures Agrees(Now(), Drain(Concat(chunks)))
    {
      var i := 0;
      while i < |chunks| && active && reading
        invariant i <= |chunks| && FeedAll(FRESH, chunks) == FeedAll(Now(), chunks[i..])
      {
        assert chunks[i..][0] == chunks[i] && chunks[i..][1..] == chunks[i + 1..];
        OnRead(chunks[i]);
        i := i + 1;
      }
      if Now().end != Waiting {
        FeedStopped(Now(), chunks[i..]);
      }
      ChunkingIrrelevant(chunks);
    }
  }

  lemma DrainFirst(b: Bytes, before: seq<Message>, done: seq<Message>)
    requires Decode(b).Complete?
    ensures var m, d := Decode(b).msg, Drain(b[Decode(b).used..]);
            && done + Drain(b).msgs == done + [m] + d.msgs && Drain(b).rest == d.rest && Drain(b).end == d.end
            && before + done + [m] == before + (done + [m])
  {
    Assoc(done, [Decode(b).msg], Drain(b[Decode(b).used..]).msgs);
    Assoc(before, done, [Decode(b).msg]);
  }
}
