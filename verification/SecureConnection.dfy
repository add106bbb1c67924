/** A whole connection of the insecure sockets layer, from its raw bytes to what is written back.
    Models handleConnection of internal/insecuresocketslayer/insecuresocketlayer.go. */
module SecureConnection {
  import opened Wrappers
  import opened CipherOps
  import opened Lines
  import opened SecureStream
  import CipherCodec

  const BUFFER_SIZE := 5001

  /** The connection starts with a specification that is short enough and passes the validity check. */
  predicate Served(raw: seq<Byte>) {
    && Parse(raw).Some? && Parse(raw).value.length <= CipherCodec.MAX_CIPHER_SPEC_SIZE
    && CipherCodec.IsValid(Parse(raw).value.ops, Spec(Parse(raw).value.ops))
  }

  /** What is written back for the bytes of a connection: nothing without a cipher, otherwise the encoded
      answers to the lines that follow the specification. */
  function WrittenBack(reply: Reply, raw: seq<Byte>): seq<Byte> {
    if !Served(raw) then []
    else
      var ops := Parse(raw).value.ops;
      ParsedLength(raw);
      var plain := Decoded(Reverse(ops), 0, raw[|Spec(ops)|..]);
      Encoded(ops, 0, Output(reply, plain))
  }

  /** The reads of a connection: any positive number of bytes each time, up to the size of the buffer. */
  method Reads(bytes: seq<Byte>) returns (chunks: seq<seq<Byte>>)
    ensures Flatten(chunks) == bytes && UntilEmpty(chunks) == chunks
    decreases |bytes|
  {
    if bytes == [] {
      return [];
    }
    var n: nat :| 0 < n <= |bytes| && n <= BUFFER_SIZE by { assert 0 < 1 <= |bytes| && 1 <= BUFFER_SIZE; }
    var later := Reads(bytes[n..]);
    chunks := [bytes[..n]] + later;
    FlattenCons(bytes[..n], later);
    assert chunks[1..] == later && bytes == bytes[..n] + bytes[n..];
  }

  /** handleConnection: for every connection, however its bytes arrive, what is written back is determined
      by the bytes. */
  method HandleConnection(raw: seq<Byte>, reply: Reply, numCPU: nat) returns (sent: seq<Byte>)
    ensures sent == WrittenBack(reply, raw)
  {
    hide Output, Encoded, Decoded, Parse;
    var cipher := CipherCodec.Handshake(raw);
    if cipher == None {
      return [];
    }
    ParsedLength(raw);
    ghost var ops := Parse(raw).value.ops;
    var chunks := Reads(raw[|cipher.value.rawCipherSpec|..]);
    var client := new Client(cipher.value, reply, numCPU);
    var ok := client.RecieveLoop(chunks);
    sent := client.sent;
  }

  /** A peer that sends a specification and then its encoded lines, and decodes what comes back, reads
      exactly the answers to its lines. */
  lemma PeerReadsAnswers(ops: seq<Instruction>, reply: Reply, requests: seq<seq<Byte>>, rest: seq<Byte>)
    requires |Spec(ops)| <= 80 && CipherCodec.IsValid(ops, Spec(ops))
    requires forall line :: line in requests ==> NEWLINE !in line
    requires NEWLINE !in rest
    ensures var raw := Spec(ops) + Encoded(ops, 0, Join(requests, NEWLINE) + rest);
            Served(raw) && Decoded(Reverse(ops), 0, WrittenBack(reply, raw)) == Answers(reply, requests)
  {
    hide Output, Answers, Encoded, Decoded, Parse, Complete;
    var stream := Encoded(ops, 0, Join(requests, NEWLINE) + rest);
    var raw := Spec(ops) + stream;
    ParseIsSpec(raw, ops);
    assert raw[|Spec(ops)|..] == stream;
    ConversationIsFaithful(ops, reply, requests, rest);
  }
}
