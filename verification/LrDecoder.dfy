/** The tokenizing decoder of the line reversal protocol and its relation to the encoder.
    Models DecodeLRMessage and constructLRMessage of internal/linereversal/linereversal_message.go. */
module LrDecoder {
  import opened Ascii
  import opened Wrappers
  import opened Decimal
  import opened LrMessage

  /** The fields the decoder still emits for the rest of the buffer, with field the bytes collected
      so far. A slash is a separator unless the byte before it is a backslash, whether or not that
      backslash was itself escaped. Bytes after the last separator are dropped; empty fields are
      skipped. */
  function Fields(afterBackslash: bool, rest: seq<Byte>, field: seq<Byte>): seq<seq<Byte>>
    decreases |rest|
  {
    if rest == [] then []
    else if rest[0] == SLASH && !afterBackslash then
      if field == [] then Fields(false, rest[1..], []) else [field] + Fields(false, rest[1..], [])
    else if EscapePairAt(rest, 0) then Fields(rest[1] == BACKSLASH, rest[2..], field + [rest[1]])
    else Fields(rest[0] == BACKSLASH, rest[1..], field + [rest[0]])
  }

  /** constructLRMessage. An unknown first field is kept: only the dispatcher rejects it. */
  function Construct(fields: seq<seq<Byte>>): Option<LRMessage> {
    if |fields| < 2 || Atoi(fields[1]) == None then None
    else
      var message := LRMessage(fields[0], Atoi(fields[1]).value, 0, [], 0);
      if fields[0] == ACK then
        if |fields| != 3 || Atoi(fields[2]) == None then None
        else Some(message.(length := Atoi(fields[2]).value))
      else if fields[0] == DATA then
        if |fields| != 4 || Atoi(fields[2]) == None then None
        else Some(message.(position := Atoi(fields[2]).value, data := fields[3]))
      else Some(message)
  }

  function Decode(buffer: seq<Byte>): Option<LRMessage> {
    if buffer == [] || buffer[0] != SLASH || buffer[|buffer| - 1] != SLASH then None
    else
      var message := Construct(Fields(false, buffer, []));
      if message.Some? && Validate(message.value) then message else None
  }

  /** DecodeLRMessage, with the source's loop. */
  method DecodeLRMessage(buffer: seq<Byte>) returns (r: Option<LRMessage>)
    ensures r == Decode(buffer)
    ensures r.Some? ==> 0 <= r.value.session <= 2147483647
    ensures r.Some? ==> 0 <= r.value.length <= 2147483647
    ensures r.Some? ==> 0 <= r.value.position && r.value.position + |r.value.data| <= 2147483647
  {
    if |buffer| == 0 {
      return None;
    }
    if buffer[0] != SLASH || buffer[|buffer| - 1] != SLASH {
      return None;
    }
    var fields: seq<seq<Byte>> := [];
    var sb: seq<Byte> := [];
    var i := 0;
    assert buffer[0..] == buffer;
    while i < |buffer|
      invariant 0 <= i <= |buffer|
      invariant Fields(false, buffer, []) ==
                fields + Fields(i > 0 && buffer[i - 1] == BACKSLASH, buffer[i..], sb)
    {
      var current := buffer[i];
      assert buffer[i..][1..] == buffer[i + 1..];
      assert EscapePairAt(buffer[i..], 0) <==> EscapePairAt(buffer, i);
      if current == SLASH && (i == 0 || buffer[i - 1] != BACKSLASH) {
        if |sb| == 0 {
          i := i + 1;
          continue;
        }
        Assoc(fields, [sb], Fields(false, buffer[i + 1..], []));
        fields := fields + [sb];
        sb := [];
        i := i + 1;
        continue;
      }
      if current == BACKSLASH && i < |buffer| - 1 && (buffer[i + 1] == SLASH || buffer[i + 1] == BACKSLASH) {
        assert buffer[i..][2..] == buffer[i + 2..];
        sb := sb + [buffer[i + 1]];
        i := i + 2;
        continue;
      }
      sb := sb + [current];
      i := i + 1;
    }
    assert buffer[i..] == [];
    assert fields + [] == fields;
    var message := Construct(fields);
    if message == None {
      return None;
    }
    if !Validate(message.value) {
      return None;
    }
    return message;
  }

  // ---------- Scanning one field ----------

  /** No slash and no backslash. */
  predicate Plain(s: seq<Byte>) {
    forall k :: 0 <= k < |s| ==> !NeedsEscape(s[k])
  }

  lemma {:induction false} ItoaIsPlain(n: int)
    ensures Plain(Itoa(n)) && Itoa(n) != []
  {
    assert forall k :: 0 <= k < |Itoa(n)| ==> IsDigit(Itoa(n)[k]) || Itoa(n)[k] == MINUS;
  }

  lemma {:induction false} EscapePlain(s: seq<Byte>)
    requires Plain(s)
    ensures Escape(s) == s
  {
    if s != [] {
      EscapePlain(s[1..]);
      assert s == [s[0]] + s[1..];
    }
  }

  /** The decoder collects an escaped field back into its raw bytes, wherever the field starts. */
  lemma {:induction false} ScanEscaped(after: bool, raw: seq<Byte>, rest: seq<Byte>, field: seq<Byte>)
    ensures Fields(after, Escape(raw) + rest, field) ==
            Fields(if raw == [] then after else raw[|raw| - 1] == BACKSLASH, rest, field + raw)
    decreases |raw|
  {
    if raw == [] {
      assert Escape(raw) + rest == rest;
      assert field + raw == field;
    } else {
      var b, tail := raw[0], Escape(raw[1..]) + rest;
      var text := EscapeByte(b) + tail;
      Assoc(EscapeByte(b), Escape(raw[1..]), rest);
      if NeedsEscape(b) {
        assert EscapePairAt(text, 0) && text[2..] == tail;
      } else {
        assert text[1..] == tail;
      }
      ScanEscaped(b == BACKSLASH, raw[1..], rest, field + [b]);
      Assoc(field, [b], raw[1..]);
      assert raw == [b] + raw[1..];
    }
  }

  /** A nonempty field that does not end in a backslash is emitted at the slash after it. */
  lemma ScanField(raw: seq<Byte>, rest: seq<Byte>)
    requires raw != [] && raw[|raw| - 1] != BACKSLASH
    ensures Fields(false, Field(Escape(raw), rest), []) == [raw] + Fields(false, rest, [])
  {
    ScanEscaped(false, raw, [SLASH] + rest, []);
    assert [] + raw == raw;
    assert ([SLASH] + rest)[1..] == rest;
  }

  lemma ScanPlainField(text: seq<Byte>, rest: seq<Byte>)
    requires Plain(text) && text != []
    ensures Fields(false, Field(text, rest), []) == [text] + Fields(false, rest, [])
  {
    EscapePlain(text);
    ScanField(text, rest);
  }

  /** After a field that ends in a backslash the decoder does not see the separator. */
  lemma ScanTrailingBackslash(raw: seq<Byte>)
    requires raw != [] && raw[|raw| - 1] == BACKSLASH
    ensures Fields(false, Field(Escape(raw), []), []) == []
  {
    ScanEscaped(false, raw, [SLASH] + [], []);
    assert ([SLASH] + [])[1..] == [];
  }

  /** How the decoder takes text that no encoder writes: a backslash that escapes nothing stays; a slash
      behind any backslash is part of the field; an empty field is skipped; and what no slash closes is
      dropped. */
  lemma UnwrittenText(after: bool, b: Byte, rest: seq<Byte>, field: seq<Byte>)
    ensures b != 47 && b != 92 ==> Fields(after, [92, b] + rest, field) == Fields(false, rest, field + [92, b])
    ensures Fields(true, [47] + rest, field) == Fields(false, rest, field + [47])
    ensures Fields(false, [47] + rest, []) == Fields(false, rest, [])
    ensures Fields(after, [], field) == []
  {
    assert ([92, b] + rest)[1..] == [b] + rest && ([b] + rest)[1..] == rest && ([47] + rest)[1..] == rest;
    assert field + [92] + [b] == field + [92, b];
  }

  // ---------- Round trips ----------

  /** The opening slash and the first two fields of every message. */
  lemma ScanHeader(kind: seq<Byte>, session: int, rest: seq<Byte>)
    requires Plain(kind) && kind != []
    ensures Fields(false, [SLASH] + Field(kind, Field(Itoa(session), rest)), []) ==
            [kind, Itoa(session)] + Fields(false, rest, [])
  {
    var text := Field(kind, Field(Itoa(session), rest));
    assert ([SLASH] + text)[1..] == text;
    ScanPlainField(kind, Field(Itoa(session), rest));
    ItoaIsPlain(session);
    ScanPlainField(Itoa(session), rest);
    assert [kind] + ([Itoa(session)] + Fields(false, rest, [])) == [kind, Itoa(session)] + Fields(false, rest, []);
  }

  /** Text built from fields ends with a slash. */
  lemma EndsWithSlash(text: seq<Byte>, rest: seq<Byte>)
    requires rest != [] ==> rest[|rest| - 1] == SLASH
    ensures Field(text, rest) != [] && Field(text, rest)[|Field(text, rest)| - 1] == SLASH
  {
  }

  lemma WireIsFramed(m: LRMessage)
    requires Wire(m).Some?
    ensures var wire := Wire(m).value; wire != [] && wire[0] == SLASH && wire[|wire| - 1] == SLASH
  {
    EndsWithSlash(Itoa(m.session), []);
    EndsWithSlash(Itoa(m.length), []);
    EndsWithSlash(m.data, []);
    EndsWithSlash(Itoa(m.position), Field(m.data, []));
    EndsWithSlash(Itoa(m.session), Field(Itoa(m.length), []));
    EndsWithSlash(Itoa(m.session), Field(Itoa(m.position), Field(m.data, [])));
  }

  lemma ScanControl(kind: seq<Byte>, session: int, length: int)
    requires Plain(kind) && kind != []
    ensures Fields(false, [SLASH] + Field(kind, Field(Itoa(session), [])), []) == [kind, Itoa(session)]
    ensures Fields(false, [SLASH] + Field(kind, Field(Itoa(session), Field(Itoa(length), []))), []) ==
            [kind, Itoa(session), Itoa(length)]
  {
    ScanHeader(kind, session, Field(Itoa(length), []));
    ItoaIsPlain(length);
    ScanPlainField(Itoa(length), []);
    assert [kind, Itoa(session)] + ([Itoa(length)] + []) == [kind, Itoa(session), Itoa(length)];
    ScanHeader(kind, session, []);
    assert [kind, Itoa(session)] + [] == [kind, Itoa(session)];
  }

  /** Encode, then decode, for the three kinds of message without data: a message comes back exactly when
      its numbers are allowed, and is rejected otherwise. */
  lemma RoundTripControl(session: int, length: int)
    ensures Decode(Wire(AckMessage(session, length)).value) ==
            if 0 <= session <= 2147483647 && 0 <= length <= 2147483647 then Some(AckMessage(session, length)) else None
    ensures Decode(Wire(ConnectMessage(session)).value) ==
            if 0 <= session <= 2147483647 then Some(ConnectMessage(session)) else None
    ensures Decode(Wire(CloseMessage(session)).value) ==
            if 0 <= session <= 2147483647 then Some(CloseMessage(session)) else None
  {
    hide Itoa, Atoi, Fields;
    AtoiItoa(session);
    AtoiItoa(length);
    WireIsFramed(AckMessage(session, length));
    WireIsFramed(ConnectMessage(session));
    WireIsFramed(CloseMessage(session));
    ScanControl(ACK, session, length);
    ScanControl(CONNECT, session, length);
    ScanControl(CLOSE, session, length);
  }

  // ---------- Any fields ----------

  /** Escaped fields, each with its closing slash. */
  function Framed(fields: seq<seq<Byte>>): seq<Byte> {
    if fields == [] then [] else Escape(fields[0]) + [47] + Framed(fields[1..])
  }

  /** Nonempty fields that do not end in a backslash. */
  predicate Readable(fields: seq<seq<Byte>>) {
    forall k :: 0 <= k < |fields| ==> fields[k] != [] && fields[k][|fields[k]| - 1] != 92
  }

  lemma ScanNothing()
    ensures Fields(false, [], []) == []
  {
  }

  /** The decoder reads back readable fields, however many there are. */
  lemma {:induction false} ScanFramed(fields: seq<seq<Byte>>)
    requires Readable(fields)
    ensures Fields(false, Framed(fields), []) == fields
    ensures Framed(fields) != [] ==> Framed(fields)[|Framed(fields)| - 1] == 47
  {
    hide Escape, Fields;
    ScanNothing();
    if fields != [] {
      ScanFramed(fields[1..]);
      assert Framed(fields) == Field(Escape(fields[0]), Framed(fields[1..]));
      EndsWithSlash(Escape(fields[0]), Framed(fields[1..]));
      ScanField(fields[0], Framed(fields[1..]));
      assert [fields[0]] + fields[1..] == fields;
    }
  }

  /** What the decoder makes of any readable fields: connect, close and unknown messages may have more
      fields than a session, an acknowledgement has exactly a length besides, and data exactly a position
      and the data. */
  lemma DecodeFields(kind: seq<Byte>, session: int, more: seq<seq<Byte>>)
    requires Readable([kind] + more)
    ensures var decoded := Decode([47] + Framed([kind, Itoa(session)] + more));
            if session < 0 || session > 2147483647 then decoded == None
            else if kind == [97, 99, 107] then
              decoded == if |more| == 1 && Atoi(more[0]).Some? && 0 <= Atoi(more[0]).value <= 2147483647
                         then Some(LRMessage(kind, session, 0, [], Atoi(more[0]).value)) else None
            else if kind == [100, 97, 116, 97] then
              decoded == if |more| == 2 && Atoi(more[0]).Some? && 0 <= Atoi(more[0]).value &&
                            Atoi(more[0]).value + |more[1]| <= 2147483647
                         then Some(LRMessage(kind, session, Atoi(more[0]).value, more[1], 0)) else None
            else decoded == Some(LRMessage(kind, session, 0, [], 0))
  {
    hide Itoa, Atoi, Framed, Escape;
    var fields := [kind, Itoa(session)] + more;
    FieldsAfterHeader(kind, session, more);
    AtoiItoa(session);
    assert fields[2..] == more;
  }

  lemma FieldsAfterHeader(kind: seq<Byte>, session: int, more: seq<seq<Byte>>)
    requires Readable([kind] + more)
    ensures var buffer := [47] + Framed([kind, Itoa(session)] + more);
            && buffer[|buffer| - 1] == 47
            && Fields(false, buffer, []) == [kind, Itoa(session)] + more
  {
    var fields := [kind, Itoa(session)] + more;
    ItoaIsPlain(session);
    assert ([kind] + more)[0] == kind;
    assert forall k :: 0 <= k < |more| ==> ([kind] + more)[k + 1] == more[k];
    assert Readable(fields);
    ScanFramed(fields);
    assert ([47] + Framed(fields))[1..] == Framed(fields);
  }

  /** Without the opening or the closing slash nothing is decoded. */
  lemma Unframed(buffer: seq<Byte>)
    requires buffer == [] || buffer[0] != 47 || buffer[|buffer| - 1] != 47
    ensures Decode(buffer) == None
  {
  }

  /** The first three fields of a data message. */
  lemma ScanDataHeader(session: int, position: int, text: seq<Byte>)
    ensures Fields(false, [SLASH] + Field(DATA, Field(Itoa(session), Field(Itoa(position), text))), []) ==
            [DATA, Itoa(session), Itoa(position)] + Fields(false, text, [])
  {
    var at := Itoa(position);
    ScanHeader(DATA, session, Field(at, text));
    ItoaIsPlain(position);
    ScanPlainField(at, text);
    assert [DATA, Itoa(session)] + ([at] + Fields(false, text, [])) ==
           [DATA, Itoa(session), at] + Fields(false, text, []);
  }

  /** The fields of a data message: without the data when that is empty or ends in a backslash. */
  lemma ScanData(session: int, position: int, raw: seq<Byte>)
    ensures Fields(false, Wire(DataMessage(session, position, raw)).value, []) ==
            if raw != [] && raw[|raw| - 1] != BACKSLASH then [DATA, Itoa(session), Itoa(position), raw]
            else [DATA, Itoa(session), Itoa(position)]
  {
    hide Escape, Itoa;
    var header := [DATA, Itoa(session), Itoa(position)];
    ScanDataHeader(session, position, Field(Escape(raw), []));
    if raw == [] {
      ScanEmpty();
      assert header + [] == header;
    } else if raw[|raw| - 1] != BACKSLASH {
      ScanField(raw, []);
      assert header + ([raw] + []) == [DATA, Itoa(session), Itoa(position), raw];
    } else {
      ScanTrailingBackslash(raw);
      assert header + [] == header;
    }
  }

  /** Encode, then decode, of a data message carrying raw bytes: it comes back exactly when the raw
      bytes are neither empty nor end in a backslash. In every other case the decoder rejects the
      message, as it does when a number is not allowed. */
  lemma RoundTripData(session: int, position: int, raw: seq<Byte>)
    ensures var decoded := Decode(Wire(DataMessage(session, position, raw)).value);
            if && 0 <= session <= 2147483647 && 0 <= position && position + |raw| <= 2147483647
               && raw != [] && raw[|raw| - 1] != BACKSLASH
            then decoded == Some(LRMessage(DATA, session, position, raw, 0))
            else decoded == None
  {
    hide Escape, Itoa, Atoi, Fields;
    WireIsFramed(DataMessage(session, position, raw));
    ScanData(session, position, raw);
    AtoiItoa(session);
    AtoiItoa(position);
  }

  lemma ScanEmpty()
    ensures Fields(false, Field(Escape([]), []), []) == []
  {
    assert Field(Escape([]), []) == [SLASH];
    assert [SLASH][1..] == [];
  }
}
