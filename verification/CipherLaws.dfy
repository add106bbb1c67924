/** What the operations of a specification do to the bytes of a stream, in numbers: which byte comes out at
    which position. Models applyEncode and isValidCipher of internal/insecuresocketslayer/codec.go. */
module CipherLaws {
  import opened Wrappers
  import opened ByteArithmetic
  import opened CipherOps
  import opened CipherCodec

  // ---------- One operation ----------

  lemma PosByteIs(position: nat)
    ensures PosByte(position) as int == position % 256
  {
    ThereAndBack(position % 256);
  }

  lemma EncodeOne(op: Instruction, position: nat, b: Byte)
    ensures EncodeByte([op], position, b) == ApplyEncode(op, position, b)
  {
    assert [op][1..] == [];
  }

  lemma SameModulo(p: nat, q: nat, i: nat)
    requires p % 256 == q % 256
    ensures (p + i) % 256 == (q + i) % 256
  {
  }

  lemma SumModulo(a: nat, b: nat)
    ensures (a + b % 256) % 256 == (a + b) % 256
  {
  }

  lemma AddPosAt(position: nat, b: Byte)
    ensures EncodeByte([AddPos], position, b) as int == (b as int + position) % 256
  {
    hide PosByte, EncodeByte;
    EncodeOne(AddPos, position, b);
    var p := PosByte(position);
    PosByteIs(position);
    AddModulo(b, p, position);
  }

  lemma AddModulo(b: Byte, p: Byte, position: nat)
    requires p as int == position % 256
    ensures (b + p) as int == (b as int + position) % 256
  {
    AddBytes(b, p);
    SumModulo(b as int, position);
  }

  /** Adding the position adds the number of the byte in the stream, in eight bits. */
  lemma AddPosLaw(start: nat, data: seq<Byte>, i: nat)
    requires i < |data|
    ensures Encoded([AddPos], start, data)[i] as int == (data[i] as int + start + i) % 256
  {
    hide EncodeByte;
    AddPosAt(start + i, data[i]);
  }

  /** What comes out differs from what went in by exactly the bits of the number of the byte. */
  lemma XorPosLaw(start: nat, data: seq<Byte>, i: nat)
    requires i < |data|
    ensures (Encoded([XorPos], start, data)[i] ^ data[i]) as int == (start + i) % 256
  {
    EncodeOne(XorPos, start + i, data[i]);
    PosByteIs(start + i);
    assert (data[i] ^ PosByte(start + i)) ^ data[i] == PosByte(start + i);
  }

  lemma AddAt(operand: Byte, position: nat, b: Byte)
    ensures EncodeByte([Add(operand)], position, b) as int == (b as int + operand as int) % 256
  {
    hide PosByte, EncodeByte;
    EncodeOne(Add(operand), position, b);
    AddBytes(b, operand);
  }

  lemma AddLaw(operand: Byte, start: nat, data: seq<Byte>, i: nat)
    requires i < |data|
    ensures Encoded([Add(operand)], start, data)[i] as int == (data[i] as int + operand as int) % 256
  {
    hide EncodeByte;
    AddAt(operand, start + i, data[i]);
  }

  lemma XorLaw(operand: Byte, start: nat, data: seq<Byte>, i: nat)
    requires i < |data|
    ensures Encoded([Xor(operand)], start, data)[i] ^ data[i] == operand
  {
    EncodeOne(Xor(operand), start + i, data[i]);
    assert (data[i] ^ operand) ^ data[i] == operand;
  }

  /** Each bit changes places with the one as far from the other end. */
  lemma ReverseBitsLaw(start: nat, data: seq<Byte>, i: nat)
    requires i < |data|
    ensures var r, b := Encoded([ReverseBits], start, data)[i], data[i];
            && (r & 1 != 0 <==> b & 128 != 0) && (r & 128 != 0 <==> b & 1 != 0)
            && (r & 2 != 0 <==> b & 64 != 0) && (r & 64 != 0 <==> b & 2 != 0)
            && (r & 4 != 0 <==> b & 32 != 0) && (r & 32 != 0 <==> b & 4 != 0)
            && (r & 8 != 0 <==> b & 16 != 0) && (r & 16 != 0 <==> b & 8 != 0)
  {
    EncodeOne(ReverseBits, start + i, data[i]);
    ReversedIsBitsReversed(data[i]);
  }

  // ---------- Lists of operations ----------

  lemma {:induction false} EncodeByteAppend(a: seq<Instruction>, b: seq<Instruction>, position: nat, element: Byte)
    ensures EncodeByte(a + b, position, element) == EncodeByte(b, position, EncodeByte(a, position, element))
    decreases |a|
  {
    if a == [] {
      assert a + b == b;
    } else {
      assert (a + b)[1..] == a[1..] + b;
      EncodeByteAppend(a[1..], b, position, ApplyEncode(a[0], position, element));
    }
  }

  /** Operations are applied one after the other, in the order of the specification. */
  lemma EncodedInTurn(a: seq<Instruction>, b: seq<Instruction>, start: nat, data: seq<Byte>)
    ensures Encoded([], start, data) == data
    ensures Encoded(a + b, start, data) == Encoded(b, start, Encoded(a, start, data))
  {
    forall i | 0 <= i < |data|
      ensures EncodeByte(a + b, start + i, data[i]) == EncodeByte(b, start + i, EncodeByte(a, start + i, data[i]))
    {
      EncodeByteAppend(a, b, start + i, data[i]);
    }
  }

  lemma {:induction false} SamePosByte(ops: seq<Instruction>, p: nat, q: nat, element: Byte)
    requires p % 256 == q % 256
    ensures EncodeByte(ops, p, element) == EncodeByte(ops, q, element)
    decreases |ops|
  {
    if ops != [] {
      SamePosByte(ops[1..], p, q, ApplyEncode(ops[0], p, element));
    }
  }

  /** Streams that start at positions equal modulo 256 are encoded alike. */
  lemma PositionsModulo256(ops: seq<Instruction>, start: nat, other: nat, data: seq<Byte>)
    requires start % 256 == other % 256
    ensures Encoded(ops, start, data) == Encoded(ops, other, data)
  {
    hide EncodeByte;
    forall i | 0 <= i < |data|
      ensures EncodeByte(ops, start + i, data[i]) == EncodeByte(ops, other + i, data[i])
    {
      SameModulo(start, other, i);
      SamePosByte(ops, start + i, other + i, data[i]);
    }
  }

  /** The specification 05 05 00 makes 68 67 70 72 77 of the text hello. */
  lemma HelloWithTwoAddPos()
    ensures Parse([0x05, 0x05, 0x00]) == Some(Parsed([AddPos, AddPos], 3))
    ensures Encoded([AddPos, AddPos], 0, [0x68, 0x65, 0x6c, 0x6c, 0x6f]) == [0x68, 0x67, 0x70, 0x72, 0x77]
  {
    hide EncodeByte;
    SpecText(0, []);
    SpecText(0, [AddPos]);
    assert Spec([AddPos] + [AddPos]) == [0x05, 0x05, 0x00] && [AddPos] + [] == [AddPos];
    ParseIsSpec([0x05, 0x05, 0x00], [AddPos, AddPos]);
    HelloBytes();
  }

  lemma HelloBytes()
    ensures EncodeByte([AddPos, AddPos], 0, 0x68) == 0x68 && EncodeByte([AddPos, AddPos], 1, 0x65) == 0x67
    ensures EncodeByte([AddPos, AddPos], 2, 0x6c) == 0x70 && EncodeByte([AddPos, AddPos], 3, 0x6c) == 0x72
    ensures EncodeByte([AddPos, AddPos], 4, 0x6f) == 0x77
  {
    hide EncodeByte;
    HelloByte(0, 0x68, 0x68);
    HelloByte(1, 0x65, 0x67);
    HelloByte(2, 0x6c, 0x70);
    HelloByte(3, 0x6c, 0x72);
    HelloByte(4, 0x6f, 0x77);
  }

  lemma HelloByte(position: nat, b: Byte, c: Byte)
    requires c as int == (b as int + 2 * position) % 256
    ensures EncodeByte([AddPos, AddPos], position, b) == c
  {
    hide EncodeByte;
    AddPosTwice(position, b);
    SameByte(EncodeByte([AddPos, AddPos], position, b), c);
  }

  lemma AddPosTwice(position: nat, b: Byte)
    ensures EncodeByte([AddPos, AddPos], position, b) as int == (b as int + 2 * position) % 256
  {
    hide EncodeByte;
    var once := EncodeByte([AddPos], position, b);
    AddPosAt(position, b);
    AddPosAt(position, once);
    EncodeByteAppend([AddPos], [AddPos], position, b);
    assert [AddPos] + [AddPos] == [AddPos, AddPos];
    TwiceModulo(b as int, position);
  }

  lemma TwiceModulo(b: nat, position: nat)
    ensures ((b + position) % 256 + position) % 256 == (b + 2 * position) % 256
  {
  }

  // ---------- Specifications ----------

  /** The bytes of a specification: those of its operations in order, and the end mark. */
  lemma SpecText(operand: Byte, ops: seq<Instruction>)
    ensures Spec([]) == [0x00]
    ensures Spec([ReverseBits] + ops) == [0x01] + Spec(ops)
    ensures Spec([Xor(operand)] + ops) == [0x02, operand] + Spec(ops)
    ensures Spec([XorPos] + ops) == [0x03] + Spec(ops)
    ensures Spec([Add(operand)] + ops) == [0x04, operand] + Spec(ops)
    ensures Spec([AddPos] + ops) == [0x05] + Spec(ops)
  {
    assert ([ReverseBits] + ops)[1..] == ops && ([XorPos] + ops)[1..] == ops && ([AddPos] + ops)[1..] == ops;
    assert ([Xor(operand)] + ops)[1..] == ops && ([Add(operand)] + ops)[1..] == ops;
  }

  // ---------- Which ciphers are refused ----------

  /** The operations change the byte 32 + i when it comes at position i. */
  predicate ChangesPrintable(ops: seq<Instruction>, i: nat)
    requires i < 95
  {
    EncodeByte(ops, i, (32 + i) as bv8) != (32 + i) as bv8
  }

  /** A cipher is accepted exactly when it changes one of the 95 printable characters, space to tilde, each
      at its own place from 0 on. */
  lemma AcceptedExactly(ops: seq<Instruction>)
    ensures IsValid(ops, Spec(ops)) <==> exists i: nat :: i < 95 && ChangesPrintable(ops, i)
  {
    hide EncodeByte, Spec;
    var text := DummyMessage();
    var encoded := Encoded(ops, 0, text);
    forall i: nat | i < 95
      ensures encoded[i] == EncodeByte(ops, i, (32 + i) as bv8) && text[i] == (32 + i) as bv8
    {
    }
    if i: nat :| i < 95 && ChangesPrintable(ops, i) {
      assert encoded[i] != text[i];
      NotOnlyEnd(ops, i);
    } else {
      forall i: nat | i < 95
        ensures encoded[i] == text[i]
      {
        assert !ChangesPrintable(ops, i);
      }
      assert encoded == text;
    }
  }

  lemma NotOnlyEnd(ops: seq<Instruction>, i: nat)
    requires i < 95 && ChangesPrintable(ops, i)
    ensures Spec(ops) != [0x00]
  {
    assert ops != [];
    assert Spec(ops)[0] == InstructionBytes(ops[0])[0];
  }

  /** Takes the place out of a printable character, changes the byte that is left, which is the same for all
      of them, changes it back, and puts the place in again. */
  const SPARES_PRINTABLE := [Xor(0xff), AddPos, ReverseBits, Xor(0x24), Xor(0xff), AddPos]

  lemma ThreeInTurn(x: Instruction, y: Instruction, z: Instruction, p: nat, b: Byte)
    ensures EncodeByte([x, y, z], p, b) == ApplyEncode(z, p, ApplyEncode(y, p, ApplyEncode(x, p, b)))
  {
    hide ApplyEncode;
    EncodeOne(z, p, ApplyEncode(y, p, ApplyEncode(x, p, b)));
    assert [x, y, z][1..] == [y, z] && [y, z][1..] == [z];
  }

  lemma SixInTurn(p: nat, b: Byte)
    ensures EncodeByte(SPARES_PRINTABLE, p, b) == LastThree(p, FirstThree(p, b))
  {
    hide EncodeByte, ApplyEncode;
    ThreeInTurn(Xor(0xff), AddPos, ReverseBits, p, b);
    ThreeInTurn(Xor(0x24), Xor(0xff), AddPos, p, FirstThree(p, b));
    EncodeByteAppend([Xor(0xff), AddPos, ReverseBits], [Xor(0x24), Xor(0xff), AddPos], p, b);
    assert [Xor(0xff), AddPos, ReverseBits] + [Xor(0x24), Xor(0xff), AddPos] == SPARES_PRINTABLE;
  }

  function FirstThree(p: nat, b: Byte): Byte {
    ApplyEncode(ReverseBits, p, ApplyEncode(AddPos, p, ApplyEncode(Xor(0xff), p, b)))
  }

  function LastThree(p: nat, b: Byte): Byte {
    ApplyEncode(AddPos, p, ApplyEncode(Xor(0xff), p, ApplyEncode(Xor(0x24), p, b)))
  }

  /** Behind the first three operations all printable characters at their own places are the same byte. */
  lemma FirstThreeIs(p: nat, b: Byte, x: Byte)
    requires x == (b ^ 0xff) + PosByte(p)
    ensures FirstThree(p, b) == BitsReversed(x)
  {
    hide BitsReversed, PosByte;
    ReversedIsBitsReversed(x);
  }

  lemma LastThreeIs(p: nat, b: Byte)
    ensures LastThree(p, b) == ((b ^ 0x24) ^ 0xff) + PosByte(p)
  {
    hide PosByte;
  }

  lemma PlaceUndone(p: Byte)
    ensures ((p + 32) ^ 0xff) + p == 0xdf
    ensures BitsReversed(0xdf) == 0xfb && ((0xfb as Byte ^ 0x24) ^ 0xff) + p == p + 32
  {
  }

  lemma Plus32(p: Byte, i: nat)
    requires i < 95 && p as int == i
    ensures (32 + i) as bv8 == p + 32
  {
    AddBytes(p, 32);
    assert (p + 32) as int == i + 32;
    FromByte(p + 32, 32 + i);
  }

  lemma PrintableByte(i: nat)
    requires i < 95
    ensures (32 + i) as bv8 == PosByte(i) + 32
  {
    hide PosByte;
    PosByteIs(i);
    Plus32(PosByte(i), i);
  }

  /** The check samples one pattern, in which each byte is 32 more than its position. So it refuses a cipher
      of six operations that does change bytes: it makes 24 of the byte 0 at position 0. */
  lemma RefusedThoughItChanges()
    ensures !IsValid(SPARES_PRINTABLE, Spec(SPARES_PRINTABLE))
    ensures EncodeByte(SPARES_PRINTABLE, 0, 0x00) == 0x24
  {
    hide EncodeByte, Spec, IsValid, PosByte, BitsReversed, FirstThree, LastThree;
    AcceptedExactly(SPARES_PRINTABLE);
    forall i: nat | i < 95
      ensures !ChangesPrintable(SPARES_PRINTABLE, i)
    {
      PrintableByte(i);
      PrintableSpared(i);
    }
    ZeroBecomes24();
  }

  lemma PrintableSpared(i: nat)
    ensures EncodeByte(SPARES_PRINTABLE, i, PosByte(i) + 32) == PosByte(i) + 32
  {
    hide EncodeByte, PosByte, BitsReversed, FirstThree, LastThree;
    SixInTurn(i, PosByte(i) + 32);
    PlaceUndone(PosByte(i));
    FirstThreeIs(i, PosByte(i) + 32, 0xdf);
    LastThreeIs(i, 0xfb);
  }

  lemma ZeroBecomes24()
    ensures EncodeByte(SPARES_PRINTABLE, 0, 0x00) == 0x24
  {
    hide EncodeByte, FirstThree, LastThree;
    SixInTurn(0, 0x00);
    assert PosByte(0) == 0;
    FirstThreeIs(0, 0x00, 0xff);
    LastThreeIs(0, 0xff);
  }
}
