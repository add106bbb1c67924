/** The loops of the cipher: filling the bit table, inverting the operation list, encoding, decoding
    in sequence and in parallel, and parsing the specification in two places.
    Models internal/insecuresocketslayer/codec.go and readCipherSpecBytes of insecuresocketlayer.go. */
module CipherCodec {
  import opened Wrappers
  import opened CipherOps

  datatype Cipher = Cipher(
    encodeOps: seq<Instruction>,
    decodeOps: seq<Instruction>,
    rawCipherSpec: seq<Byte>,
    valid: bool)

  /** init: the table of reversed bytes. */
  method InitTable() returns (table: array<Byte>)
    ensures table.Length == 256 && forall i :: 0 <= i < 256 ==> table[i] == Reversed(i as bv8)
  {
    table := new Byte[256](_ => 0);
    for i := 0 to 256
      invariant forall k :: 0 <= k < i ==> table[k] == Reversed(k as bv8)
    {
      var result: Byte := 0;
      var element := i as bv8;
      for turn := 0 to 8
        invariant Reversed(i as bv8) == Turns(8 - turn, result, element)
      {
        result := result << 1;
        result := result | (element & 1);
        element := element >> 1;
      }
      table[i] := result;
    }
  }

  lemma PrefixedNone(p: Option<Parsed>)
    ensures Prefixed([], 0, p) == p
  {
    if p.Some? {
      assert [] + p.value.ops == p.value.ops;
    }
  }

  lemma PrefixedTwice(ops: seq<Instruction>, op: Instruction, m: nat, n: nat, p: Option<Parsed>)
    ensures Prefixed(ops, m, Prefixed([op], n, p)) == Prefixed(ops + [op], m + n, p)
  {
    if p.Some? {
      Assoc(ops, [op], p.value.ops);
    }
  }

  /** The parser has read the operations of stream up to position at, where another one starts. */
  ghost predicate ReadUpTo(stream: seq<Byte>, ops: seq<Instruction>, at: nat) {
    at <= |stream| && Parse(stream) == Prefixed(ops, at, Parse(stream[at..]))
  }

  lemma ReadNone(stream: seq<Byte>)
    ensures ReadUpTo(stream, [], 0)
  {
    assert stream[0..] == stream;
    PrefixedNone(Parse(stream));
  }

  lemma ReadOne(stream: seq<Byte>, ops: seq<Instruction>, at: nat)
    requires ReadUpTo(stream, ops, at) && FirstOp(stream[at..]).Some?
    ensures var op := FirstOp(stream[at..]).value;
            ReadUpTo(stream, ops + [op], at + |InstructionBytes(op)|)
  {
    var rest := stream[at..];
    var op, n := FirstOp(rest).value, |InstructionBytes(FirstOp(rest).value)|;
    ParseFirst(rest);
    assert rest[n..] == stream[at + n..];
    PrefixedTwice(ops, op, at, n, Parse(stream[at + n..]));
  }

  /** parseCipherSpec */
  method ParseCipherSpec(data: seq<Byte>) returns (r: Option<Parsed>)
    ensures r == Parse(data)
  {
    var index := 0;
    var operations: seq<Instruction> := [];
    ReadNone(data);
    while index < |data|
      invariant index <= |data| && ReadUpTo(data, operations, index)
    {
      var opCode := data[index];
      ghost var rest := data[index..];
      if opCode == OP_END {
        assert operations + [] == operations;
        return Some(Parsed(operations, index + 1));
      }
      ParseFirst(rest);
      if opCode == OP_REVERSE_BITS || opCode == OP_XOR_POS || opCode == OP_ADD_POS {
        var inst := if opCode == OP_REVERSE_BITS then ReverseBits else if opCode == OP_XOR_POS then XorPos else AddPos;
        ReadOne(data, operations, index);
        operations := operations + [inst];
        index := index + 1;
      } else if opCode == OP_XOR || opCode == OP_ADD {
        if index + 1 >= |data| {
          return None;
        }
        var inst := if opCode == OP_XOR then Xor(data[index + 1]) else Add(data[index + 1]);
        ReadOne(data, operations, index);
        operations := operations + [inst];
        index := index + 2;
      } else {
        return None;
      }
    }
    return None;
  }

  /** What is parsed has an end mark at least, and an operand where one is due. */
  lemma {:induction false} ParsedIsLong(data: seq<Byte>)
    requires Parse(data).Some?
    ensures 1 <= Parse(data).value.length <= |data|
    ensures data[0] == OP_XOR || data[0] == OP_ADD ==> 2 <= Parse(data).value.length
    decreases |data|
  {
    if data[0] != OP_END {
      ParseFirst(data);
      ParsedIsLong(data[|InstructionBytes(FirstOp(data).value)|..]);
    }
  }

  /** The operation that starts here takes all its bytes of what the parser reads. */
  lemma MoreToRead(stream: seq<Byte>, ops: seq<Instruction>, at: nat)
    requires ReadUpTo(stream, ops, at)
    ensures Parse(stream).Some? ==>
              && at < Parse(stream).value.length <= |stream|
              && (stream[at] == OP_XOR || stream[at] == OP_ADD ==> at + 1 < Parse(stream).value.length)
  {
    if Parse(stream).Some? {
      assert Parse(stream[at..]).Some?;
      ParsedIsLong(stream[at..]);
    }
  }

  const MAX_CIPHER_SPEC_SIZE := 80

  /** readCipherSpecBytes: the specification at the front of the connection's bytes. It is found by a
      flag for operands, and agrees with the parser: it succeeds exactly when the parser does within
      eighty bytes, and takes exactly the bytes that the parser reads. */
  method ReadCipherSpecBytes(stream: seq<Byte>) returns (r: Option<seq<Byte>>)
    ensures r.Some? <==> Parse(stream).Some? && Parse(stream).value.length <= 80
    ensures r.Some? ==> Parse(stream).value.length == |r.value| && r.value <= stream
  {
    var specBytes: seq<Byte> := [];
    var expectingOperand := false;
    ghost var ops: seq<Instruction> := [];
    ghost var at := 0;  // where the operation that is being read starts
    ReadNone(stream);
    while |specBytes| < MAX_CIPHER_SPEC_SIZE
      invariant specBytes <= stream && |specBytes| <= MAX_CIPHER_SPEC_SIZE
      invariant |specBytes| == at + (if expectingOperand then 1 else 0)
      invariant expectingOperand ==> stream[at] == OP_XOR || stream[at] == OP_ADD
      invariant ReadUpTo(stream, ops, at)
      decreases MAX_CIPHER_SPEC_SIZE - |specBytes|
    {
      MoreToRead(stream, ops, at);
      if |specBytes| == |stream| {
        return None;  // the connection ended
      }
      var b := stream[|specBytes|];
      specBytes := specBytes + [b];

      if expectingOperand {
        expectingOperand := false;
        ReadOne(stream, ops, at);
        ops, at := ops + [FirstOp(stream[at..]).value], at + 2;
        continue;
      }
      if b == 0x00 {
        return Some(specBytes);
      } else if b == 0x01 || b == 0x03 || b == 0x05 {
        expectingOperand := false;
        ReadOne(stream, ops, at);
        ops, at := ops + [FirstOp(stream[at..]).value], at + 1;
      } else if b == 0x02 || b == 0x04 {
        expectingOperand := true;
      } else {
        return None;
      }
    }
    MoreToRead(stream, ops, at);
    return None;
  }

  /** The loop of NewCipher that inverts the list. */
  method InvertOps(encodeOps: seq<Instruction>) returns (decodeOps: seq<Instruction>)
    ensures decodeOps == Reverse(encodeOps)
  {
    var inverted := new Instruction[|encodeOps|](_ => ReverseBits);
    for i := 0 to |encodeOps|
      invariant forall k :: 0 <= k < i ==> inverted[|encodeOps| - 1 - k] == encodeOps[k]
    {
      inverted[|encodeOps| - 1 - i] := encodeOps[i];
    }
    decodeOps := inverted[..];
    forall k | 0 <= k < |encodeOps|
      ensures decodeOps[k] == encodeOps[|encodeOps| - 1 - k]
    {
      assert inverted[|encodeOps| - 1 - (|encodeOps| - 1 - k)] == encodeOps[|encodeOps| - 1 - k];
    }
  }

  /** The 95 printable characters, space to tilde. */
  function DummyMessage(): seq<Byte> {
    seq(95, i requires 0 <= i < 95 => (32 + i) as bv8)
  }

  /** isValidCipher */
  function IsValid(ops: seq<Instruction>, rawCipherSpec: seq<Byte>): bool {
    rawCipherSpec != [OP_END] && Encoded(ops, 0, DummyMessage()) != DummyMessage()
  }

  /** A cipher that changes nothing anywhere is never accepted. */
  lemma NoOpIsRejected(ops: seq<Instruction>, rawCipherSpec: seq<Byte>)
    requires forall position: nat, b: Byte :: EncodeByte(ops, position, b) == b
    ensures !IsValid(ops, rawCipherSpec)
  {
  }

  /** NewCipher; None is its error. */
  method NewCipher(data: seq<Byte>) returns (r: Option<Cipher>)
    ensures r.Some? <==> Parse(data).Some?
    ensures r.Some? ==>
              var c := r.value;
              && c.encodeOps == Parse(data).value.ops && c.decodeOps == Reverse(c.encodeOps)
              && c.rawCipherSpec == Spec(c.encodeOps) && c.rawCipherSpec <= data
              && c.valid == IsValid(c.encodeOps, c.rawCipherSpec)
  {
    var parsed := ParseCipherSpec(data);
    if parsed == None {
      return None;
    }
    var encodeOps, specLen := parsed.value.ops, parsed.value.length;
    ParsedLength(data);
    ParseIsSpec(data, encodeOps);
    var rawSpec := data[..specLen];
    var decodeOps := InvertOps(encodeOps);
    var valid := rawSpec != [OP_END];
    if valid {
      var encoded := EncodeData(encodeOps, 0, DummyMessage());
      valid := encoded != DummyMessage();
    }
    return Some(Cipher(encodeOps, decodeOps, rawSpec, valid));
  }

  /** What the parser reads from a stream parses by itself to the same operations. */
  lemma ParsedAlone(stream: seq<Byte>, specBytes: seq<Byte>)
    requires Parse(stream).Some? && Parse(stream).value.length == |specBytes| && specBytes <= stream
    ensures Parse(specBytes) == Parse(stream) && specBytes == Spec(Parse(stream).value.ops)
  {
    var ops := Parse(stream).value.ops;
    ParsedLength(stream);
    ParseIsSpec(stream, ops);
    ParseIsSpec(specBytes, ops);
  }

  /** The start of handleConnection: the cipher at the front of the connection, which the second
      parser never refuses; None when the connection is dropped. */
  method Handshake(stream: seq<Byte>) returns (r: Option<Cipher>)
    ensures r.Some? <==>
              && Parse(stream).Some? && Parse(stream).value.length <= 80
              && IsValid(Parse(stream).value.ops, Spec(Parse(stream).value.ops))
    ensures r.Some? ==> r.value.encodeOps == Parse(stream).value.ops && r.value.decodeOps == Reverse(r.value.encodeOps)
    ensures r.Some? ==> r.value.rawCipherSpec == Spec(r.value.encodeOps) <= stream
  {
    var specBytes := ReadCipherSpecBytes(stream);
    if specBytes == None {
      return None;
    }
    ParsedAlone(stream, specBytes.value);
    var cipher := NewCipher(specBytes.value);
    if !cipher.value.valid {
      return None;
    }
    return cipher;
  }

  /** EncodeData */
  method EncodeData(encodeOps: seq<Instruction>, startPos: nat, data: seq<Byte>) returns (r: seq<Byte>)
    ensures r == Encoded(encodeOps, startPos, data)
  {
    var encoded := new Byte[|data|](i requires 0 <= i < |data| => data[i]);
    for i := 0 to |data|
      invariant forall k :: 0 <= k < i ==> encoded[k] == EncodeByte(encodeOps, startPos + k, data[k])
      invariant forall k :: i <= k < |data| ==> encoded[k] == data[k]
    {
      var element := encoded[i];
      assert encodeOps[0..] == encodeOps;
      for n := 0 to |encodeOps|
        invariant EncodeByte(encodeOps, startPos + i, data[i]) == EncodeByte(encodeOps[n..], startPos + i, element)
      {
        assert encodeOps[n..][1..] == encodeOps[n + 1..];
        element := ApplyEncode(encodeOps[n], startPos + i, element);
      }
      encoded[i] := element;
    }
    r := encoded[..];
  }

  /** Decodes one byte: the inner loop of both decoders. */
  method DecodeOne(decodeOps: seq<Instruction>, position: nat, b: Byte) returns (element: Byte)
    ensures element == DecodeByte(decodeOps, position, b)
  {
    element := b;
    assert decodeOps[0..] == decodeOps;
    for n := 0 to |decodeOps|
      invariant DecodeByte(decodeOps, position, b) == DecodeByte(decodeOps[n..], position, element)
    {
      assert decodeOps[n..][1..] == decodeOps[n + 1..];
      element := ApplyDecode(decodeOps[n], position, element);
    }
  }

  method DecodeSequential(decodeOps: seq<Instruction>, startPos: nat, data: seq<Byte>) returns (r: seq<Byte>)
    ensures r == Decoded(decodeOps, startPos, data)
  {
    var decoded := new Byte[|data|](i requires 0 <= i < |data| => data[i]);
    for i := 0 to |data|
      invariant forall k :: 0 <= k < i ==> decoded[k] == DecodeByte(decodeOps, startPos + k, data[k])
      invariant forall k :: i <= k < |data| ==> decoded[k] == data[k]
    {
      decoded[i] := DecodeOne(decodeOps, startPos + i, decoded[i]);
    }
    r := decoded[..];
  }
}
