/** Cutting a stream of messages out of a growing buffer: the result does not depend on how the
    bytes arrived. Models ExtractFromSbBuffer of internal/speeddaemon/codec.go and the buffer loop of
    handleConnection in internal/speeddaemon/speeddaemon.go on values. */
module SdStream {
  import opened Wrappers
  import opened SdTypes
  import opened SdFormat
  import opened SdConverse

  /** The source's "Invalid message". */
  const INVALID_MESSAGE := ErrorMessage([73, 110, 118, 97, 108, 105, 100, 32, 109, 101, 115, 115, 97, 103, 101])

  /** ExtractFromSbBuffer: the messages at the front of s and how many bytes they take. A byte that
      is no type stops the extraction with an error message and is not counted. */
  function Messages(s: seq<U8>): seq<Message>
    decreases |s|
  {
    if s == [] then []
    else if Invalid(s) then [INVALID_MESSAGE]
    else
      match Parse(s)
      case Incomplete => []
      case Got(m, rest) => ParseShrinks(s); [m] + Messages(rest)
  }

  /** What the extraction leaves in the buffer. */
  function Leftover(s: seq<U8>): seq<U8>
    decreases |s|
  {
    if s == [] || Invalid(s) then s
    else
      match Parse(s)
      case Incomplete => s
      case Got(_, rest) => ParseShrinks(s); Leftover(rest)
  }

  /** The extraction never meets a byte that is no type. */
  predicate WellTyped(s: seq<U8>) {
    !Invalid(Leftover(s))
  }

  /** handleConnection: each read is appended to the buffer, what is complete is extracted. */
  function Feed(buffer: seq<U8>, chunks: seq<seq<U8>>): (seq<Message>, seq<U8>)
    decreases |chunks|
  {
    if chunks == [] then ([], buffer)
    else
      var now := buffer + chunks[0];
      var later := Feed(Leftover(now), chunks[1..]);
      (Messages(now) + later.0, later.1)
  }

  /** Extracting early changes nothing: later bytes only add to what was left over. */
  lemma {:induction false} ExtractAppend(a: seq<U8>, b: seq<U8>)
    requires WellTyped(a)
    ensures Messages(a + b) == Messages(a) + Messages(Leftover(a) + b)
    ensures Leftover(a + b) == Leftover(Leftover(a) + b)
    decreases |a|
  {
    if a == [] {
      assert a + b == b;
    } else if Parse(a).Got? {
      ParseShrinks(a);
      ParseExtend(a, b);
      var m, rest := Parse(a).value, Parse(a).rest;
      ExtractAppend(rest, b);
      ExtractStep(a, m, rest);
      ExtractStep(a + b, m, rest + b);
      Assoc([m], Messages(rest), Messages(Leftover(rest) + b));
    }
  }

  lemma ExtractStep(s: seq<U8>, m: Message, rest: seq<U8>)
    requires s != [] && !Invalid(s) && Parse(s) == Got(m, rest)
    ensures Messages(s) == [m] + Messages(rest) && Leftover(s) == Leftover(rest)
  {
  }

  /** What is left over has nothing more to extract. */
  lemma {:induction false} LeftoverIsDone(s: seq<U8>)
    ensures Leftover(Leftover(s)) == Leftover(s)
    ensures WellTyped(s) ==> Messages(Leftover(s)) == []
    decreases |s|
  {
    if s != [] && !Invalid(s) && Parse(s).Got? {
      ParseShrinks(s);
      LeftoverIsDone(Parse(s).rest);
    }
  }

  /** A well-typed stream is well typed from the start. */
  lemma {:induction false} WellTypedPrefix(a: seq<U8>, b: seq<U8>)
    requires WellTyped(a + b)
    ensures WellTyped(a)
    decreases |a|
  {
    if a != [] {
      ParseExtend(a, b);
      if !Invalid(a) && Parse(a).Got? {
        ParseShrinks(a);
        ExtractStep(a, Parse(a).value, Parse(a).rest);
        ExtractStep(a + b, Parse(a).value, Parse(a).rest + b);
        WellTypedPrefix(Parse(a).rest, b);
      }
    }
  }

  /** However a well-typed stream is cut into reads, the loop yields the same messages in the same
      order and keeps the same unfinished rest as extracting from the whole stream at once. */
  lemma {:induction false} CuttingDoesNotMatter(buffer: seq<U8>, chunks: seq<seq<U8>>)
    requires WellTyped(buffer + Flatten(chunks)) && Leftover(buffer) == buffer
    ensures Feed(buffer, chunks) == (Messages(buffer + Flatten(chunks)), Leftover(buffer + Flatten(chunks)))
    decreases |chunks|
  {
    if chunks == [] {
      assert buffer + Flatten(chunks) == buffer;
      LeftoverIsDone(buffer);
    } else {
      var now, later := buffer + chunks[0], Flatten(chunks[1..]);
      Assoc(buffer, chunks[0], later);
      WellTypedPrefix(now, later);
      ExtractAppend(now, later);
      LeftoverIsDone(now);
      CuttingDoesNotMatter(Leftover(now), chunks[1..]);
    }
  }

  // ---------- When cutting matters ----------

  /** A connection never returns a read of no bytes. */
  predicate Nonempty(chunks: seq<seq<U8>>) {
    forall i :: 0 <= i < |chunks| ==> chunks[i] != []
  }

  lemma NonemptyFlatten(chunks: seq<seq<U8>>)
    requires Nonempty(chunks)
    ensures Flatten(chunks) == [] <==> chunks == []
  {
    if chunks != [] {
      assert |Flatten(chunks)| == |chunks[0]| + |Flatten(chunks[1..])|;
    }
  }

  /** A byte that is no type stops the extraction: later bytes are only added to the leftover. */
  lemma {:induction false} StoppedAppend(a: seq<U8>, b: seq<U8>)
    requires !WellTyped(a)
    ensures Messages(a + b) == Messages(a) && Leftover(a + b) == Leftover(a) + b
    decreases |a|
  {
    if !Invalid(a) {
      ParseShrinks(a);
      ParseExtend(a, b);
      var m, rest := Parse(a).value, Parse(a).rest;
      StoppedAppend(rest, b);
      ExtractStep(a, m, rest);
      ExtractStep(a + b, m, rest + b);
    }
  }

  /** When the byte that is no type is the last one of all, it is reported once, by the last read. */
  lemma {:induction false} LastByteInvalid(buffer: seq<U8>, chunks: seq<seq<U8>>)
    requires Nonempty(chunks) && Leftover(buffer) == buffer && !Invalid(buffer)
    requires !WellTyped(buffer + Flatten(chunks)) && |Leftover(buffer + Flatten(chunks))| == 1
    ensures Feed(buffer, chunks) == (Messages(buffer + Flatten(chunks)), Leftover(buffer + Flatten(chunks)))
    decreases |chunks|
  {
    assert buffer + [] == buffer;
    if chunks != [] {
      var now, later := buffer + chunks[0], Flatten(chunks[1..]);
      Assoc(buffer, chunks[0], later);
      NonemptyFlatten(chunks[1..]);
      if later == [] {
        assert now + later == now && Messages(now) + [] == Messages(now);
      } else {
        if !WellTyped(now) {
          StoppedAppend(now, later);
          assert false;
        }
        ExtractAppend(now, later);
        LeftoverIsDone(now);
        LastByteInvalid(Leftover(now), chunks[1..]);
      }
    }
  }

  /** The extraction stops at the front, or it reads a message and stops later. */
  lemma StopsLater(s: seq<U8>)
    requires !WellTyped(s)
    ensures Invalid(s) ==> Leftover(s) == s && Messages(s) == [INVALID_MESSAGE]
    ensures !Invalid(s) ==> s != [] && Parse(s).Got? && |Parse(s).rest| < |s| && !WellTyped(Parse(s).rest)
    ensures !Invalid(s) ==>
              && Messages(s) == [Parse(s).value] + Messages(Parse(s).rest)
              && Leftover(s) == Leftover(Parse(s).rest)
  {
    if !Invalid(s) {
      ParseShrinks(s);
    }
  }

  /** The length up to and with the byte that stops the extraction. */
  function StopLength(s: seq<U8>): int {
    |s| - |Leftover(s)| + 1
  }

  /** Cut just after the byte that is no type, a stream extracts to the same messages, with that byte
      left over. */
  lemma {:induction false} CutAfterInvalid(s: seq<U8>)
    requires !WellTyped(s)
    ensures 0 < StopLength(s) <= |s|
    ensures Messages(s[..StopLength(s)]) == Messages(s)
    ensures Invalid(Leftover(s[..StopLength(s)])) && |Leftover(s[..StopLength(s)])| == 1
    decreases |s|
  {
    hide Messages, Leftover, Parse;
    StopsLater(s);
    if Invalid(s) {
      StopsAtFront(s[..1]);
      StopsLater(s[..1]);
    } else {
      var rest := Parse(s).rest;
      CutAfterInvalid(rest);
      ReadFromCut(s, StopLength(rest));
    }
  }

  lemma StopsAtFront(s: seq<U8>)
    requires Invalid(s)
    ensures !WellTyped(s)
  {
  }

  /** The first message of s is still read when s is cut after k bytes of what follows it. */
  lemma ReadFromCut(s: seq<U8>, k: nat)
    requires s != [] && !Invalid(s) && Parse(s).Got? && k <= |Parse(s).rest|
    ensures |Parse(s).rest| <= |s|
    ensures var m, rest := Parse(s).value, Parse(s).rest;
            var cut := s[..|s| - |rest| + k];
            Messages(cut) == [m] + Messages(rest[..k]) && Leftover(cut) == Leftover(rest[..k])
  {
    hide Messages, Leftover, Parse, Encoding;
    ReadWasWritten(s);
    var m, rest := Parse(s).value, Parse(s).rest;
    var cut := s[..|s| - |rest| + k];
    assert cut == Encoding(m) + rest[..k];
    RoundTrip(m, rest[..k]);
    NotEmpty(m, rest[..k]);
    ExtractStep(cut, m, rest[..k]);
  }

  lemma NotEmpty(m: Message, t: seq<U8>)
    requires Encodable(m)
    ensures Encoding(m) + t != []
  {
  }

  /** Cut there, the loop reports the byte twice. */
  lemma CuttingMatters(s: seq<U8>) returns (chunks: seq<seq<U8>>)
    requires !WellTyped(s) && |Leftover(s)| > 1
    ensures Nonempty(chunks) && Flatten(chunks) == s
    ensures Feed([], chunks) != (Messages(s), Leftover(s))
  {
    hide Messages, Leftover, Feed, Flatten, Parse;
    var n := StopLength(s);
    CutAfterInvalid(s);
    var first, second := s[..n], s[n..];
    chunks := [first, second];
    FeedTwo(first, second);
    assert s == first + second;
    InvalidMessages(Leftover(first) + second);
    assert |Feed([], chunks).0| == |Messages(s)| + 1;
  }

  lemma InvalidMessages(s: seq<U8>)
    requires Invalid(s)
    ensures Messages(s) == [INVALID_MESSAGE]
  {
  }

  lemma FeedTwo(first: seq<U8>, second: seq<U8>)
    ensures Flatten([first, second]) == first + second
    ensures Feed([], [first, second]).0 == Messages(first) + Messages(Leftover(first) + second)
  {
    hide Messages, Leftover;
    var last := [second];
    assert [first, second][1..] == last && last[1..] == [];
    assert second + [] == second && [] + first == first;
    assert Flatten(last) == second + Flatten(last[1..]);
    var more := Leftover(first) + second;
    assert Feed(Leftover(more), []).0 == [] && Messages(more) + [] == Messages(more);
    assert Feed(Leftover(first), last).0 == Messages(more) + Feed(Leftover(more), last[1..]).0;
  }

  /** The result is that of the whole stream, for every way to cut it into reads, if and only if the
      extraction never meets a byte that is no type, or meets one that is the last byte of the stream. */
  lemma CuttingDoesNotMatterExactly(s: seq<U8>)
    ensures WellTyped(s) || |Leftover(s)| == 1 <==>
            forall chunks: seq<seq<U8>> ::
              Nonempty(chunks) && Flatten(chunks) == s ==> Feed([], chunks) == (Messages(s), Leftover(s))
  {
    assert [] + s == s;
    if WellTyped(s) || |Leftover(s)| == 1 {
      forall chunks: seq<seq<U8>> | Nonempty(chunks) && Flatten(chunks) == s
        ensures Feed([], chunks) == (Messages(s), Leftover(s))
      {
        if WellTyped(s) {
          CuttingDoesNotMatter([], chunks);
        } else {
          LastByteInvalid([], chunks);
        }
      }
    } else {
      var chunks := CuttingMatters(s);
    }
  }

  // ---------- Streams of encoded messages ----------

  function EncodeAll(ms: seq<Message>): seq<U8>
    requires forall i :: 0 <= i < |ms| ==> Encodable(ms[i])
  {
    if ms == [] then [] else assert Encodable(ms[0]); Encoding(ms[0]) + EncodeAll(ms[1..])
  }

  lemma {:induction false} ExtractEncoded(ms: seq<Message>, tail: seq<U8>, m: Message)
    requires forall i :: 0 <= i < |ms| ==> Encodable(ms[i])
    requires Unfinished(tail, m)
    ensures Messages(EncodeAll(ms) + tail) == ms && Leftover(EncodeAll(ms) + tail) == tail
  {
    if ms == [] {
      assert EncodeAll(ms) + tail == tail;
      CutOffIsIncomplete(m, |tail|);
      assert tail == Encoding(m)[..|tail|];
    } else {
      var rest := EncodeAll(ms[1..]) + tail;
      Assoc(Encoding(ms[0]), EncodeAll(ms[1..]), tail);
      RoundTrip(ms[0], rest);
      ExtractStep(Encoding(ms[0]) + rest, ms[0], rest);
      ExtractEncoded(ms[1..], tail, m);
      assert ms == [ms[0]] + ms[1..];
    }
  }

  /** A stream of encoded messages and an unfinished last one, cut into any reads, yields exactly
      those messages in order, and the unfinished one stays in the buffer. */
  lemma StreamIsRecovered(ms: seq<Message>, tail: seq<U8>, m: Message, chunks: seq<seq<U8>>)
    requires forall i :: 0 <= i < |ms| ==> Encodable(ms[i])
    requires Unfinished(tail, m)
    requires Flatten(chunks) == EncodeAll(ms) + tail
    ensures Feed([], chunks) == (ms, tail)
  {
    ExtractEncoded(ms, tail, m);
    CutOffIsIncomplete(m, |tail|);
    assert tail == Encoding(m)[..|tail|];
    assert [] + Flatten(chunks) == Flatten(chunks);
    CuttingDoesNotMatter([], chunks);
  }

  /** A byte that is no type stays at the front of the buffer: every later read reports it again, and
      no message is read any more. */
  lemma {:induction false} InvalidByteStays(buffer: seq<U8>, chunks: seq<seq<U8>>)
    requires Invalid(buffer)
    ensures Feed(buffer, chunks).1 == buffer + Flatten(chunks)
    ensures |Feed(buffer, chunks).0| == |chunks|
    ensures forall k :: 0 <= k < |chunks| ==> Feed(buffer, chunks).0[k] == INVALID_MESSAGE
    decreases |chunks|
  {
    if chunks == [] {
      assert buffer + Flatten(chunks) == buffer;
    } else {
      var now := buffer + chunks[0];
      assert Invalid(now);
      InvalidByteStays(now, chunks[1..]);
      Assoc(buffer, chunks[0], Flatten(chunks[1..]));
    }
  }

  predicate AllEncodable(ms: seq<Message>) {
    forall i :: 0 <= i < |ms| ==> Encodable(ms[i])
  }

  /** The stream is what a peer has written that is in the middle of a message. */
  ghost predicate IsWritten(s: seq<U8>, ms: seq<Message>, tail: seq<U8>, m: Message) {
    AllEncodable(ms) && Unfinished(tail, m) && s == EncodeAll(ms) + tail
  }

  /** What is extracted encodes to what it was extracted from. */
  lemma {:induction false} ExtractedWasWritten(s: seq<U8>)
    ensures WellTyped(s) ==> AllEncodable(Messages(s)) && s == EncodeAll(Messages(s)) + Leftover(s)
    decreases |s|
  {
    if s != [] && !Invalid(s) && Parse(s).Got? {
      ParseShrinks(s);
      var m, rest := Parse(s).value, Parse(s).rest;
      ExtractStep(s, m, rest);
      ReadWasWritten(s);
      ExtractedWasWritten(rest);
      if WellTyped(s) {
        EncodeCons(m, Messages(rest));
        Assoc(Encoding(m), EncodeAll(Messages(rest)), Leftover(rest));
      }
    } else if WellTyped(s) {
      assert s == [] + s;
    }
  }

  lemma EncodeCons(m: Message, ms: seq<Message>)
    requires Encodable(m) && AllEncodable(ms)
    ensures AllEncodable([m] + ms) && EncodeAll([m] + ms) == Encoding(m) + EncodeAll(ms)
  {
    assert ([m] + ms)[1..] == ms;
  }

  lemma {:induction false} LeftoverIsIncomplete(s: seq<U8>)
    requires WellTyped(s)
    ensures Parse(Leftover(s)) == Incomplete
    decreases |s|
  {
    if s != [] && !Invalid(s) && Parse(s).Got? {
      ParseShrinks(s);
      LeftoverIsIncomplete(Parse(s).rest);
    }
  }

  /** A stream is well typed if and only if it consists of encoded messages and the beginning of one. */
  lemma WellTypedIsWritten(s: seq<U8>)
    ensures WellTyped(s) <==> exists ms, tail, m :: IsWritten(s, ms, tail, m)
  {
    if WellTyped(s) {
      ExtractedWasWritten(s);
      LeftoverIsIncomplete(s);
      var m := IncompleteIsCutOff(Leftover(s));
      assert IsWritten(s, Messages(s), Leftover(s), m);
    }
    if ms, tail, m :| IsWritten(s, ms, tail, m) {
      ExtractEncoded(ms, tail, m);
      CutOffIsIncomplete(m, |tail|);
      assert tail == Encoding(m)[..|tail|];
    }
  }
}
