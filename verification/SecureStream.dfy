/** The conversation over the insecure sockets layer: ciphertext arrives in pieces, each complete line
    of the plaintext is answered, and the answers go out encoded. Two positions run along, one for
    each direction. Models recieveLoop and respondToClient of
    internal/insecuresocketslayer/insecuresocketlayer.go, over any reply function. */
module SecureStream {
  import opened Wrappers
  import opened CipherOps
  import opened Lines
  import Ascii
  import CipherCodec
  import CipherParallel

  const NEWLINE: Byte := Ascii.NEWLINE as Byte

  /** What a line, with its newline, is answered with; None rejects it and ends the conversation. */
  type Reply = seq<Byte> -> Option<seq<Byte>>

  // ---------- What is to be answered ----------

  predicate Accepted(reply: Reply, line: seq<Byte>) {
    reply(line + [NEWLINE]).Some?
  }

  predicate AllAccepted(reply: Reply, lines: seq<seq<Byte>>) {
    lines == [] || (Accepted(reply, lines[0]) && AllAccepted(reply, lines[1..]))
  }

  /** The answers to the lines before the first rejected one, each with its newline. */
  function Answers(reply: Reply, lines: seq<seq<Byte>>): seq<Byte> {
    if lines == [] || !Accepted(reply, lines[0]) then []
    else reply(lines[0] + [NEWLINE]).value + [NEWLINE] + Answers(reply, lines[1..])
  }

  /** Lines that come later are answered after the earlier ones, unless one of these was rejected. */
  lemma {:induction false} AnswersAppend(reply: Reply, a: seq<seq<Byte>>, b: seq<seq<Byte>>)
    ensures Answers(reply, a + b) ==
            if AllAccepted(reply, a) then Answers(reply, a) + Answers(reply, b) else Answers(reply, a)
  {
    if a == [] {
      assert a + b == b;
    } else {
      assert (a + b)[1..] == a[1..] + b;
      AnswersAppend(reply, a[1..], b);
      if Accepted(reply, a[0]) {
        Assoc(reply(a[0] + [NEWLINE]).value + [NEWLINE], Answers(reply, a[1..]), Answers(reply, b));
      }
    }
  }

  lemma {:induction false} AcceptedAppend(reply: Reply, a: seq<seq<Byte>>, b: seq<seq<Byte>>)
    ensures AllAccepted(reply, a + b) <==> AllAccepted(reply, a) && AllAccepted(reply, b)
  {
    if a == [] {
      assert a + b == b;
    } else {
      assert (a + b)[1..] == a[1..] + b;
      AcceptedAppend(reply, a[1..], b);
    }
  }

  lemma AnswersCons(reply: Reply, line: seq<Byte>, lines: seq<seq<Byte>>)
    ensures AllAccepted(reply, [line] + lines) <==> Accepted(reply, line) && AllAccepted(reply, lines)
    ensures Answers(reply, [line] + lines) ==
            if Accepted(reply, line) then reply(line + [NEWLINE]).value + [NEWLINE] + Answers(reply, lines) else []
  {
    assert ([line] + lines)[1..] == lines;
  }

  /** The whole output for a plaintext. */
  function Output(reply: Reply, plain: seq<Byte>): seq<Byte> {
    Answers(reply, Complete(plain, NEWLINE))
  }

  predicate Open(reply: Reply, plain: seq<Byte>) {
    AllAccepted(reply, Complete(plain, NEWLINE))
  }

  /** Taking the first line of a plaintext and going on with the rest. */
  lemma OutputStep(reply: Reply, plain: seq<Byte>)
    requires IndexOf(plain, NEWLINE) >= 0
    ensures var i := IndexOf(plain, NEWLINE);
            var line, rest := plain[..i + 1], plain[i + 1..];
            if reply(line) == None then Output(reply, plain) == [] && !Open(reply, plain)
            else Output(reply, plain) == reply(line).value + [NEWLINE] + Output(reply, rest) &&
                 Open(reply, plain) == Open(reply, rest)
  {
    var i := IndexOf(plain, NEWLINE);
    assert plain[..i + 1] == plain[..i] + [NEWLINE];
    CompleteStep(plain, NEWLINE);
    AnswersCons(reply, plain[..i], Complete(plain[i + 1..], NEWLINE));
  }

  /** More plaintext extends the output; after a rejected line it changes nothing. */
  lemma OutputExtend(reply: Reply, a: seq<Byte>, b: seq<Byte>)
    ensures Output(reply, a + b) ==
            if Open(reply, a) then Output(reply, a) + Output(reply, Unfinished(a, NEWLINE) + b) else Output(reply, a)
    ensures Open(reply, a + b) == (Open(reply, a) && Open(reply, Unfinished(a, NEWLINE) + b))
  {
    CutAppend(a, b, NEWLINE);
    var now, later := Complete(a, NEWLINE), Complete(Unfinished(a, NEWLINE) + b, NEWLINE);
    AnswersAppend(reply, now, later);
    AcceptedAppend(reply, now, later);
  }

  // ---------- One read, one line ----------

  /** The reads before the first empty one. */
  function UntilEmpty(chunks: seq<seq<Byte>>): seq<seq<Byte>> {
    if chunks == [] || chunks[0] == [] then [] else [chunks[0]] + UntilEmpty(chunks[1..])
  }

  lemma FlattenCons(part: seq<Byte>, parts: seq<seq<Byte>>)
    ensures Flatten([part] + parts) == part + Flatten(parts)
  {
    assert ([part] + parts)[1..] == parts;
  }

  /** The ciphertext of the reads from the n-th on. */
  ghost function Later(chunks: seq<seq<Byte>>, n: nat): seq<Byte>
    requires n <= |chunks|
  {
    Flatten(UntilEmpty(chunks[n..]))
  }

  lemma LaterStep(chunks: seq<seq<Byte>>, n: nat, received: seq<Byte>)
    requires n < |chunks|
    ensures received + Later(chunks, n) ==
            if chunks[n] == [] then received else (received + chunks[n]) + Later(chunks, n + 1)
  {
    assert chunks[n..][1..] == chunks[n + 1..];
    if chunks[n] == [] {
      assert received + [] == received;
    } else {
      FlattenCons(chunks[n], UntilEmpty(chunks[n + 1..]));
      Assoc(received, chunks[n], Later(chunks, n + 1));
    }
  }

  /** After a rejected line, what the peer sends makes no difference to the output. */
  lemma NothingMore(decodeOps: seq<Instruction>, reply: Reply, received: seq<Byte>, later: seq<Byte>)
    requires !Open(reply, Decoded(decodeOps, 0, received))
    ensures Output(reply, Decoded(decodeOps, 0, received + later)) == Output(reply, Decoded(decodeOps, 0, received))
    ensures !Open(reply, Decoded(decodeOps, 0, received + later))
  {
    hide Output, Open, Decoded, Unfinished;
    DecodedInPieces(decodeOps, 0, received, later);
    OutputExtend(reply, Decoded(decodeOps, 0, received), Decoded(decodeOps, |received|, later));
  }

  /** Of the plaintext all, what is before buffer has been answered by done, after before. */
  ghost predicate Answered(ops: seq<Instruction>, reply: Reply, all: seq<Byte>, before: seq<Byte>,
                           done: seq<Byte>, buffer: seq<Byte>, sent: seq<Byte>) {
    && sent == before + Encoded(ops, |before|, done)
    && Output(reply, all) == done + Output(reply, buffer)
    && Open(reply, all) == Open(reply, buffer)
    && Unfinished(all, NEWLINE) == Unfinished(buffer, NEWLINE)
  }

  lemma NothingAnswered(ops: seq<Instruction>, reply: Reply, all: seq<Byte>, before: seq<Byte>)
    ensures Answered(ops, reply, all, before, [], all, before)
  {
    assert before + Encoded(ops, |before|, []) == before;
    assert [] + Output(reply, all) == Output(reply, all);
  }

  lemma AllAnswered(ops: seq<Instruction>, reply: Reply, all: seq<Byte>, before: seq<Byte>,
                    done: seq<Byte>, buffer: seq<Byte>, sent: seq<Byte>)
    requires Answered(ops, reply, all, before, done, buffer, sent) && IndexOf(buffer, NEWLINE) == -1
    ensures sent == before + Encoded(ops, |before|, Output(reply, all))
    ensures Open(reply, all) && buffer == Unfinished(all, NEWLINE)
  {
    CompleteStep(buffer, NEWLINE);
    assert done + [] == done;
  }

  /** Answering the first line of the buffer, or meeting a rejected one. */
  lemma OneAnswered(ops: seq<Instruction>, reply: Reply, all: seq<Byte>, before: seq<Byte>,
                    done: seq<Byte>, buffer: seq<Byte>, sent: seq<Byte>)
    requires Answered(ops, reply, all, before, done, buffer, sent) && IndexOf(buffer, NEWLINE) >= 0
    ensures var i := IndexOf(buffer, NEWLINE);
            var answer := reply(buffer[..i + 1]);
            if answer == None then
              sent == before + Encoded(ops, |before|, Output(reply, all)) && !Open(reply, all)
            else
              Answered(ops, reply, all, before, done + (answer.value + [NEWLINE]), buffer[i + 1..],
                       sent + Encoded(ops, |sent|, answer.value + [NEWLINE]))
  {
    var i := IndexOf(buffer, NEWLINE);
    OutputStep(reply, buffer);
    CompleteStep(buffer, NEWLINE);
    var answer := reply(buffer[..i + 1]);
    if answer == None {
      assert done + [] == done;
    } else {
      Assoc(done, answer.value + [NEWLINE], Output(reply, buffer[i + 1..]));
      EncodedOneMore(ops, before, done, answer.value + [NEWLINE]);
    }
  }

  /** What one more piece of plaintext adds to the output and to the buffer. */
  lemma PlainMore(ops: seq<Instruction>, reply: Reply, plain: seq<Byte>, decoded: seq<Byte>, sent: seq<Byte>)
    requires Open(reply, plain) && sent == Encoded(ops, 0, Output(reply, plain))
    ensures var buffer := Unfinished(plain, NEWLINE) + decoded;
            && Open(reply, plain + decoded) == Open(reply, buffer)
            && Unfinished(plain + decoded, NEWLINE) == Unfinished(buffer, NEWLINE)
            && Encoded(ops, 0, Output(reply, plain + decoded)) == sent + Encoded(ops, |sent|, Output(reply, buffer))
  {
    OutputExtend(reply, plain, decoded);
    CutAppend(plain, decoded, NEWLINE);
    SentMore(ops, Output(reply, plain), Output(reply, Unfinished(plain, NEWLINE) + decoded), sent);
  }

  lemma SentMore(ops: seq<Instruction>, before: seq<Byte>, more: seq<Byte>, sent: seq<Byte>)
    requires sent == Encoded(ops, 0, before)
    ensures Encoded(ops, 0, before + more) == sent + Encoded(ops, |sent|, more)
  {
    EncodedInPieces(ops, 0, before, more);
  }

  lemma EncodedOneMore(ops: seq<Instruction>, before: seq<Byte>, done: seq<Byte>, answer: seq<Byte>)
    ensures (before + Encoded(ops, |before|, done)) + Encoded(ops, |before + Encoded(ops, |before|, done)|, answer) ==
            before + Encoded(ops, |before|, done + answer)
  {
    EncodedInPieces(ops, |before|, done, answer);
    Assoc(before, Encoded(ops, |before|, done), Encoded(ops, |before| + |done|, answer));
  }

  // ---------- The client ----------

  class Client {
    const encodeOps: seq<Instruction>
    const decodeOps: seq<Instruction>
    const reply: Reply
    const numCPU: nat
    var incomingPosition: nat
    var outboundPosition: nat
    var buffer: seq<Byte>
    var sent: seq<Byte>            // what has been written to the connection
    ghost var received: seq<Byte>  // the ciphertext read so far

    /** Both positions count the bytes that went their way. */
    ghost predicate Valid()
      reads this
    {
      incomingPosition == |received| && outboundPosition == |sent|
    }

    ghost function Plain(): seq<Byte>
      reads this
    {
      Decoded(decodeOps, 0, received)
    }

    /** Everything that arrived is answered, apart from an unfinished line. */
    ghost predicate UpToDate()
      reads this
    {
      && Valid()
      && Open(reply, Plain())
      && sent == Encoded(encodeOps, 0, Output(reply, Plain()))
      && buffer == Unfinished(Plain(), NEWLINE)
    }

    constructor (cipher: CipherCodec.Cipher, reply: Reply, numCPU: nat)
      ensures UpToDate() && received == [] && sent == []
      ensures this.reply == reply && this.encodeOps == cipher.encodeOps && this.decodeOps == cipher.decodeOps
    {
      this.encodeOps, this.decodeOps := cipher.encodeOps, cipher.decodeOps;
      this.reply, this.numCPU := reply, numCPU;
      incomingPosition, outboundPosition := 0, 0;
      buffer, sent, received := [], [], [];
    }

    /** respondToClient; false is its error. */
    method RespondToClient(line: seq<Byte>) returns (ok: bool)
      requires Valid()
      modifies this`outboundPosition, this`sent
      ensures Valid()
      ensures ok == reply(line).Some?
      ensures sent == old(sent) + if ok then Encoded(encodeOps, |old(sent)|, reply(line).value + [NEWLINE]) else []
    {
      var plain := reply(line);
      if plain == None {
        return false;
      }
      var encoded := CipherCodec.EncodeData(encodeOps, outboundPosition, plain.value + [NEWLINE]);
      outboundPosition := outboundPosition + |encoded|;
      sent := sent + encoded;
      return true;
    }

    /** The loop over the lines of the buffer. */
    method AnswerLines() returns (ok: bool)
      requires Valid()
      modifies this`outboundPosition, this`sent, this`buffer
      ensures Valid()
      ensures ok == Open(reply, old(buffer))
      ensures sent == old(sent) + Encoded(encodeOps, |old(sent)|, Output(reply, old(buffer)))
      ensures ok ==> buffer == Unfinished(old(buffer), NEWLINE)
    {
      hide Output, Open, Encoded, Unfinished;
      ghost var all, before, done: seq<Byte> := buffer, sent, [];
      NothingAnswered(encodeOps, reply, all, before);
      while true
        invariant Valid()
        invariant Answered(encodeOps, reply, all, before, done, buffer, sent)
        decreases |buffer|
      {
        var newLineIndex := IndexOf(buffer, NEWLINE);
        if newLineIndex == -1 {
          AllAnswered(encodeOps, reply, all, before, done, buffer, sent);
          return true;
        }
        ok, done := AnswerLine(newLineIndex, all, before, done);
        if !ok {
          return;
        }
      }
    }

    /** One turn of that loop; done is what has been answered of the plaintext all. */
    method AnswerLine(newLineIndex: nat, ghost all: seq<Byte>, ghost before: seq<Byte>, ghost done: seq<Byte>)
      returns (ok: bool, ghost more: seq<Byte>)
      requires Valid() && newLineIndex == IndexOf(buffer, NEWLINE)
      requires Answered(encodeOps, reply, all, before, done, buffer, sent)
      modifies this`outboundPosition, this`sent, this`buffer
      ensures Valid()
      ensures ok ==> Answered(encodeOps, reply, all, before, more, buffer, sent) && |buffer| < |old(buffer)|
      ensures !ok ==> sent == before + Encoded(encodeOps, |before|, Output(reply, all)) && !Open(reply, all)
    {
      var line := buffer[..newLineIndex + 1];
      OneAnswered(encodeOps, reply, all, before, done, buffer, sent);
      ok := RespondToClient(line);
      if !ok {
        assert sent + [] == sent;
        return false, done;
      }
      more := done + (reply(line).value + [NEWLINE]);
      buffer := buffer[newLineIndex + 1..];
    }

    /** One turn of recieveLoop: a piece of ciphertext has been read. */
    method HandleRead(chunk: seq<Byte>) returns (ok: bool)
      requires UpToDate()
      modifies this
      ensures Valid() && received == old(received) + chunk
      ensures ok == Open(reply, Plain())
      ensures sent == Encoded(encodeOps, 0, Output(reply, Plain()))
      ensures ok ==> UpToDate()
    {
      hide Output, Open, Encoded, Decoded, Unfinished;
      var decoded := CipherParallel.DecodeData(decodeOps, incomingPosition, chunk, numCPU);
      DecodedInPieces(decodeOps, 0, received, chunk);
      PlainMore(encodeOps, reply, Plain(), decoded, sent);
      incomingPosition := incomingPosition + |chunk|;
      received := received + chunk;
      buffer := buffer + decoded;
      ok := AnswerLines();
    }

    /** recieveLoop: however the ciphertext is cut into reads, exactly the lines of the plaintext are
        answered, in order, up to the first rejected one. The loop ends with an empty read, with a
        rejected line, or when nothing more comes. */
    method RecieveLoop(chunks: seq<seq<Byte>>) returns (ok: bool)
      requires UpToDate() && received == []
      modifies this
      ensures var plain := Decoded(decodeOps, 0, Flatten(UntilEmpty(chunks)));
              && ok == Open(reply, plain)
              && sent == Encoded(encodeOps, 0, Output(reply, plain))
    {
      hide Output, Open, Encoded, Decoded, Unfinished;
      var n := 0;
      ghost var whole := Later(chunks, 0);
      assert chunks[0..] == chunks;
      assert received + whole == whole;
      while n < |chunks|
        invariant 0 <= n <= |chunks|
        invariant UpToDate()
        invariant whole == received + Later(chunks, n)
      {
        var temp := chunks[n];
        LaterStep(chunks, n, received);
        if |temp| == 0 {
          return true;
        }
        ok := HandleRead(temp);
        if !ok {
          NothingMore(decodeOps, reply, received, Later(chunks, n + 1));
          return;
        }
        n := n + 1;
      }
      assert received + [] == received;
      return true;
    }
  }

  // ---------- The whole conversation ----------

  /** A peer that encodes its lines from position 0 and decodes what comes back from position 0 reads
      exactly the answers to its lines, whatever the cipher. */
  lemma ConversationIsFaithful(ops: seq<Instruction>, reply: Reply, requests: seq<seq<Byte>>, rest: seq<Byte>)
    requires forall line :: line in requests ==> NEWLINE !in line
    requires NEWLINE !in rest
    ensures var stream := Encoded(ops, 0, Join(requests, NEWLINE) + rest);
            var plain := Decoded(Reverse(ops), 0, stream);
            Decoded(Reverse(ops), 0, Encoded(ops, 0, Output(reply, plain))) == Answers(reply, requests)
  {
    var text := Join(requests, NEWLINE) + rest;
    DecodingInverts(ops, 0, text);
    JoinAndCut(requests, rest, NEWLINE);
    DecodingInverts(ops, 0, Answers(reply, requests));
  }
}
