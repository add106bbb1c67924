/** The position-dependent stream cipher of the insecure sockets layer: operations, their inverses,
    and the cipher specification that lists them. Models internal/insecuresocketslayer/codec.go on
    values. */
module CipherOps {
  import opened Wrappers

  type Byte = bv8

  datatype Instruction = ReverseBits | Xor(operand: Byte) | XorPos | Add(operand: Byte) | AddPos

  // ---------- One operation ----------

  /** The loop that fills one entry of bitReverseTable: n turns left. */
  function Turns(n: nat, result: Byte, element: Byte): Byte {
    if n == 0 then result else Turns(n - 1, (result << 1) | (element & 1), element >> 1)
  }

  /** The entry of bitReverseTable for b. */
  function Reversed(b: Byte): Byte {
    Turns(8, 0, b)
  }

  /** The bits in the opposite order, one by one. */
  function BitsReversed(b: Byte): Byte {
    ((b & 1) << 7) | ((b & 2) << 5) | ((b & 4) << 3) | ((b & 8) << 1) |
    ((b & 16) >> 1) | ((b & 32) >> 3) | ((b & 64) >> 5) | ((b & 128) >> 7)
  }

  /** The loop reverses the bits. */
  lemma ReversedIsBitsReversed(b: Byte)
    ensures Reversed(b) == BitsReversed(b)
  {
    var r1, e1 := b & 1, b >> 1;
    var r2, e2 := (r1 << 1) | (e1 & 1), e1 >> 1;
    var r3, e3 := (r2 << 1) | (e2 & 1), e2 >> 1;
    var r4, e4 := (r3 << 1) | (e3 & 1), e3 >> 1;
    var r5, e5 := (r4 << 1) | (e4 & 1), e4 >> 1;
    var r6, e6 := (r5 << 1) | (e5 & 1), e5 >> 1;
    var r7, e7 := (r6 << 1) | (e6 & 1), e6 >> 1;
    var r8, e8 := (r7 << 1) | (e7 & 1), e7 >> 1;
    assert Turns(8, 0, b) == Turns(7, r1, e1);
    assert Turns(7, r1, e1) == Turns(6, r2, e2);
    assert Turns(6, r2, e2) == Turns(5, r3, e3);
    assert Turns(5, r3, e3) == Turns(4, r4, e4);
    assert Turns(4, r4, e4) == Turns(3, r5, e5);
    assert Turns(3, r5, e5) == Turns(2, r6, e6);
    assert Turns(2, r6, e6) == Turns(1, r7, e7);
    assert Turns(1, r7, e7) == r8;
    assert r8 == BitsReversed(b);
  }

  /** byte(position) */
  function PosByte(position: nat): Byte {
    (position % 256) as bv8
  }

  /** applyEncode and applyDecode, with the position already cut to a byte. */
  function EncodeWith(inst: Instruction, p: Byte, element: Byte): Byte {
    match inst
    case ReverseBits => Reversed(element)
    case Xor(operand) => element ^ operand
    case XorPos => element ^ p
    case Add(operand) => element + operand
    case AddPos => element + p
  }

  function DecodeWith(inst: Instruction, p: Byte, element: Byte): Byte {
    match inst
    case ReverseBits => Reversed(element)
    case Xor(operand) => element ^ operand
    case XorPos => element ^ p
    case Add(operand) => element - operand
    case AddPos => element - p
  }

  function ApplyEncode(inst: Instruction, position: nat, element: Byte): Byte {
    EncodeWith(inst, PosByte(position), element)
  }

  function ApplyDecode(inst: Instruction, position: nat, element: Byte): Byte {
    DecodeWith(inst, PosByte(position), element)
  }

  lemma ReversedTwice(b: Byte)
    ensures Reversed(Reversed(b)) == b
  {
    ReversedIsBitsReversed(b);
    ReversedIsBitsReversed(Reversed(b));
    BitsReversedTwice(b);
  }

  lemma BitsReversedTwice(b: Byte)
    ensures BitsReversed(BitsReversed(b)) == b
  {
  }

  lemma AddSubtract(a: Byte, b: Byte)
    ensures a + b - b == a && a - b + b == a && (a ^ b) ^ b == a
  {
  }

  lemma DecodeAfterEncode(inst: Instruction, p: Byte, element: Byte)
    ensures DecodeWith(inst, p, EncodeWith(inst, p, element)) == element
  {
    match inst
    case ReverseBits => ReversedTwice(element);
    case Xor(operand) => AddSubtract(element, operand);
    case XorPos => AddSubtract(element, p);
    case Add(operand) => AddSubtract(element, operand);
    case AddPos => AddSubtract(element, p);
  }

  lemma EncodeAfterDecode(inst: Instruction, p: Byte, element: Byte)
    ensures EncodeWith(inst, p, DecodeWith(inst, p, element)) == element
  {
    match inst
    case ReverseBits => ReversedTwice(element);
    case Xor(operand) => AddSubtract(element, operand);
    case XorPos => AddSubtract(element, p);
    case Add(operand) => AddSubtract(element, operand);
    case AddPos => AddSubtract(element, p);
  }

  // ---------- Operation lists ----------

  function EncodeByte(ops: seq<Instruction>, position: nat, element: Byte): Byte
    decreases |ops|
  {
    if ops == [] then element else EncodeByte(ops[1..], position, ApplyEncode(ops[0], position, element))
  }

  function DecodeByte(ops: seq<Instruction>, position: nat, element: Byte): Byte
    decreases |ops|
  {
    if ops == [] then element else DecodeByte(ops[1..], position, ApplyDecode(ops[0], position, element))
  }

  lemma {:induction false} DecodeByteAppend(a: seq<Instruction>, op: Instruction, position: nat, element: Byte)
    ensures DecodeByte(a + [op], position, element) == ApplyDecode(op, position, DecodeByte(a, position, element))
    decreases |a|
  {
    if a == [] {
      assert a + [op] == [op] && [op][1..] == [];
    } else {
      assert (a + [op])[1..] == a[1..] + [op];
      DecodeByteAppend(a[1..], op, position, ApplyDecode(a[0], position, element));
    }
  }

  /** The inverted list, applied after the list or before it, gives back the byte. */
  lemma {:induction false} ListInverse(ops: seq<Instruction>, position: nat, element: Byte)
    ensures DecodeByte(Reverse(ops), position, EncodeByte(ops, position, element)) == element
    ensures EncodeByte(ops, position, DecodeByte(Reverse(ops), position, element)) == element
    decreases |ops|
  {
    if ops != [] {
      var first := ops[0];
      ListInverse(ops[1..], position, ApplyEncode(first, position, element));
      DecodeByteAppend(Reverse(ops[1..]), first, position, EncodeByte(ops, position, element));
      DecodeAfterEncode(first, PosByte(position), element);
      DecodeByteAppend(Reverse(ops[1..]), first, position, element);
      var inner := DecodeByte(Reverse(ops[1..]), position, element);
      EncodeAfterDecode(first, PosByte(position), inner);
      ListInverse(ops[1..], position, element);
    }
  }

  // ---------- Data ----------

  function Encoded(ops: seq<Instruction>, start: nat, data: seq<Byte>): (r: seq<Byte>)
    ensures |r| == |data|
  {
    seq(|data|, i requires 0 <= i < |data| => EncodeByte(ops, start + i, data[i]))
  }

  function Decoded(decodeOps: seq<Instruction>, start: nat, data: seq<Byte>): (r: seq<Byte>)
    ensures |r| == |data|
  {
    seq(|data|, i requires 0 <= i < |data| => DecodeByte(decodeOps, start + i, data[i]))
  }

  /** Decoding inverts encoding, for every operation list, start position and data; and every
      ciphertext is the encoding of what it decodes to. */
  lemma DecodingInverts(ops: seq<Instruction>, start: nat, data: seq<Byte>)
    ensures Decoded(Reverse(ops), start, Encoded(ops, start, data)) == data
    ensures Encoded(ops, start, Decoded(Reverse(ops), start, data)) == data
  {
    forall i | 0 <= i < |data|
      ensures DecodeByte(Reverse(ops), start + i, EncodeByte(ops, start + i, data[i])) == data[i]
      ensures EncodeByte(ops, start + i, DecodeByte(Reverse(ops), start + i, data[i])) == data[i]
    {
      ListInverse(ops, start + i, data[i]);
    }
  }

  /** A stream may be encoded piece by piece, each piece from its own position. */
  lemma EncodedInPieces(ops: seq<Instruction>, start: nat, a: seq<Byte>, b: seq<Byte>)
    ensures Encoded(ops, start, a + b) == Encoded(ops, start, a) + Encoded(ops, start + |a|, b)
  {
  }

  /** And decoded piece by piece. */
  lemma DecodedInPieces(ops: seq<Instruction>, start: nat, a: seq<Byte>, b: seq<Byte>)
    ensures Decoded(ops, start, a + b) == Decoded(ops, start, a) + Decoded(ops, start + |a|, b)
  {
  }

  // ---------- Specifications ----------

  const OP_END: Byte := 0x00
  const OP_REVERSE_BITS: Byte := 0x01
  const OP_XOR: Byte := 0x02
  const OP_XOR_POS: Byte := 0x03
  const OP_ADD: Byte := 0x04
  const OP_ADD_POS: Byte := 0x05

  function InstructionBytes(inst: Instruction): seq<Byte> {
    match inst
    case ReverseBits => [OP_REVERSE_BITS]
    case Xor(operand) => [OP_XOR, operand]
    case XorPos => [OP_XOR_POS]
    case Add(operand) => [OP_ADD, operand]
    case AddPos => [OP_ADD_POS]
  }

  /** The specification that lists the operations. */
  function Spec(ops: seq<Instruction>): seq<Byte> {
    if ops == [] then [OP_END] else InstructionBytes(ops[0]) + Spec(ops[1..])
  }

  datatype Parsed = Parsed(ops: seq<Instruction>, length: nat)

  /** parseCipherSpec: the operations up to the end mark and the number of bytes read; None for an
      unknown operation, a missing operand or a missing end mark. */
  function Parse(data: seq<Byte>): Option<Parsed>
    decreases |data|
  {
    if data == [] then None
    else if data[0] == OP_END then Some(Parsed([], 1))
    else if data[0] == OP_REVERSE_BITS then Prefixed([ReverseBits], 1, Parse(data[1..]))
    else if data[0] == OP_XOR_POS then Prefixed([XorPos], 1, Parse(data[1..]))
    else if data[0] == OP_ADD_POS then Prefixed([AddPos], 1, Parse(data[1..]))
    else if data[0] == OP_XOR && |data| > 1 then Prefixed([Xor(data[1])], 2, Parse(data[2..]))
    else if data[0] == OP_ADD && |data| > 1 then Prefixed([Add(data[1])], 2, Parse(data[2..]))
    else None
  }

  function Prefixed(ops: seq<Instruction>, length: nat, rest: Option<Parsed>): Option<Parsed> {
    match rest
    case None => None
    case Some(p) => Some(Parsed(ops + p.ops, length + p.length))
  }

  /** A byte string parses to a list of operations exactly when it starts with their specification. */
  lemma {:induction false} ParseIsSpec(data: seq<Byte>, ops: seq<Instruction>)
    ensures Parse(data) == Some(Parsed(ops, |Spec(ops)|)) <==> Spec(ops) <= data
    decreases |data|
  {
    if data == [] || data[0] == OP_END {
      if ops != [] { assert Spec(ops)[0] != OP_END; }
    } else {
      ParseFirst(data);
      var first := FirstOp(data);
      if ops != [] {
        SpecFirst(data, ops);
      }
      if ops != [] && first == Some(ops[0]) {
        var n := |InstructionBytes(ops[0])|;
        SpecRest(data, ops);
        ParseIsSpec(data[n..], ops[1..]);
        PrefixedSame(ops, n, Parse(data[n..]), |Spec(ops[1..])|);
      }
    }
  }

  /** A specification in front of data starts with the operation that is read first. */
  lemma SpecFirst(data: seq<Byte>, ops: seq<Instruction>)
    requires ops != []
    ensures Spec(ops) <= data ==> FirstOp(data) == Some(ops[0])
  {
    var bytes := InstructionBytes(ops[0]);
    if Spec(ops) <= data {
      assert Spec(ops)[0] == data[0] && (|bytes| > 1 ==> Spec(ops)[1] == data[1]);
    }
  }

  lemma SpecRest(data: seq<Byte>, ops: seq<Instruction>)
    requires ops != [] && FirstOp(data) == Some(ops[0])
    ensures var n := |InstructionBytes(ops[0])|; n <= |data| && (Spec(ops) <= data <==> Spec(ops[1..]) <= data[n..])
  {
    var bytes := InstructionBytes(ops[0]);
    assert bytes <= data;
    SamePrefix(bytes, Spec(ops[1..]), data);
  }

  lemma SamePrefix(a: seq<Byte>, b: seq<Byte>, data: seq<Byte>)
    requires a <= data
    ensures a + b <= data <==> b <= data[|a|..]
  {
    if a + b <= data {
      assert b == (a + b)[|a|..];
    }
    if b <= data[|a|..] {
      assert data == a + data[|a|..];
    }
  }

  lemma PrefixedSame(ops: seq<Instruction>, n: nat, rest: Option<Parsed>, length: nat)
    requires ops != []
    ensures Prefixed([ops[0]], n, rest) == Some(Parsed(ops, n + length)) <==> rest == Some(Parsed(ops[1..], length))
  {
    if rest.Some? {
      assert ([ops[0]] + rest.value.ops)[1..] == rest.value.ops;
    }
    assert ops == [ops[0]] + ops[1..];
  }

  /** The operation at the front of data. */
  function FirstOp(data: seq<Byte>): Option<Instruction> {
    if data == [] then None
    else if data[0] == OP_REVERSE_BITS then Some(ReverseBits)
    else if data[0] == OP_XOR_POS then Some(XorPos)
    else if data[0] == OP_ADD_POS then Some(AddPos)
    else if data[0] == OP_XOR && |data| > 1 then Some(Xor(data[1]))
    else if data[0] == OP_ADD && |data| > 1 then Some(Add(data[1]))
    else None
  }

  /** Parsing takes the operation at the front and goes on after its bytes. */
  lemma ParseFirst(data: seq<Byte>)
    requires data != [] && data[0] != OP_END
    ensures FirstOp(data) == None ==> Parse(data) == None
    ensures FirstOp(data).Some? ==>
              var bytes := InstructionBytes(FirstOp(data).value);
              bytes <= data && Parse(data) == Prefixed([FirstOp(data).value], |bytes|, Parse(data[|bytes|..]))
  {
  }

  /** The length that Parse returns is that of the specification of what it returns. */
  lemma {:induction false} ParsedLength(data: seq<Byte>)
    ensures Parse(data).Some? ==> Parse(data).value.length == |Spec(Parse(data).value.ops)| <= |data|
    decreases |data|
  {
    if data != [] && data[0] != OP_END {
      ParseFirst(data);
      if Parse(data).Some? {
        var op, n := FirstOp(data).value, |InstructionBytes(FirstOp(data).value)|;
        var rest := Parse(data[n..]).value;
        ParsedLength(data[n..]);
        assert ([op] + rest.ops)[1..] == rest.ops;
      }
    }
  }
}
