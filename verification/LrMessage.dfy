/** Messages of the line reversal protocol: escaping, the wire format, the tokenizing decoder,
    and the greedy packing of raw bytes into one data message.
    Models internal/linereversal/linereversal_message.go and UnescapeData of session.go. */
module LrMessage {
  import opened Ascii
  import opened Wrappers
  import opened Decimal

  const CONNECT: seq<Byte> := [99, 111, 110, 110, 101, 99, 116]
  const ACK: seq<Byte> := [97, 99, 107]
  const DATA: seq<Byte> := [100, 97, 116, 97]
  const CLOSE: seq<Byte> := [99, 108, 111, 115, 101]

  const MAX_INTEGER := 2147483647
  const MAX_MESSAGE_SIZE := 999

  datatype LRMessage = LRMessage(kind: seq<Byte>, session: int, position: int, data: seq<Byte>, length: int)

  function ConnectMessage(session: int): LRMessage {
    LRMessage(CONNECT, session, 0, [], 0)
  }

  function AckMessage(session: int, length: int): LRMessage {
    LRMessage(ACK, session, 0, [], length)
  }

  function CloseMessage(session: int): LRMessage {
    LRMessage(CLOSE, session, 0, [], 0)
  }

  /** A data message whose data field carries raw, escaped. */
  function DataMessage(session: int, position: int, raw: seq<Byte>): LRMessage {
    LRMessage(DATA, session, position, Escape(raw), 0)
  }

  predicate Validate(m: LRMessage) {
    && 0 <= m.session <= MAX_INTEGER
    && (m.kind == CONNECT || m.kind == CLOSE ==> m.position == 0 && m.length == 0 && m.data == [])
    && (m.kind == ACK ==> 0 <= m.length <= MAX_INTEGER && m.position == 0)
    && (m.kind == DATA ==>
          0 <= m.position <= MAX_INTEGER && m.length == 0 && m.position + |m.data| <= MAX_INTEGER)
  }

  // ---------- Escaping ----------

  predicate NeedsEscape(b: Byte) {
    b == SLASH || b == BACKSLASH
  }

  function EscapeByte(b: Byte): seq<Byte> {
    if NeedsEscape(b) then [BACKSLASH, b] else [b]
  }

  function Escape(raw: seq<Byte>): (r: seq<Byte>)
    ensures |raw| <= |r| <= 2 * |raw|
  {
    if raw == [] then [] else EscapeByte(raw[0]) + Escape(raw[1..])
  }

  /** None is the source's error: the data ends in an escaping backslash. */
  function Unescape(data: seq<Byte>): Option<seq<Byte>>
    decreases |data|
  {
    if data == [] then Some([])
    else if data == [BACKSLASH] then None
    else if EscapePairAt(data, 0) then Prepend([data[1]], Unescape(data[2..]))
    else Prepend([data[0]], Unescape(data[1..]))
  }

  function Prepend(first: seq<Byte>, rest: Option<seq<Byte>>): Option<seq<Byte>> {
    match rest
    case None => None
    case Some(bytes) => Some(first + bytes)
  }

  lemma PrependPrepend(a: seq<Byte>, b: seq<Byte>, rest: Option<seq<Byte>>)
    ensures Prepend(a, Prepend(b, rest)) == Prepend(a + b, rest)
    ensures Prepend([], rest) == rest
  {
    if rest.Some? {
      Assoc(a, b, rest.value);
      assert [] + rest.value == rest.value;
    }
  }

  /** A backslash that escapes the byte after it. */
  predicate EscapePairAt(data: seq<Byte>, k: nat) {
    k + 1 < |data| && data[k] == BACKSLASH && NeedsEscape(data[k + 1])
  }

  /** UnescapeData, with the source's loop. */
  method UnescapeData(data: seq<Byte>) returns (output: Option<seq<Byte>>)
    ensures output == Unescape(data)
  {
    var out: seq<Byte> := [];
    var i := 0;
    PrependPrepend([], [], Unescape(data));
    assert data[0..] == data;
    while i < |data|
      invariant 0 <= i <= |data|
      invariant Unescape(data) == Prepend(out, Unescape(data[i..]))
    {
      assert EscapePairAt(data, i) <==> EscapePairAt(data[i..], 0);
      if i == |data| - 1 && data[i] == BACKSLASH {
        return None;
      }
      if data[i] == BACKSLASH && i < |data| - 1 && (data[i + 1] == SLASH || data[i + 1] == BACKSLASH) {
        assert data[i..][2..] == data[i + 2..];
        PrependPrepend(out, [data[i + 1]], Unescape(data[i + 2..]));
        out := out + [data[i + 1]];
        i := i + 2;
        continue;
      }
      assert data[i..][1..] == data[i + 1..];
      PrependPrepend(out, [data[i]], Unescape(data[i + 1..]));
      out := out + [data[i]];
      i := i + 1;
    }
    assert data[i..] == [] && out + [] == out;
    return Some(out);
  }

  /** Unescaping undoes escaping, for every byte string. */
  lemma {:induction false} UnescapeEscape(raw: seq<Byte>)
    ensures Unescape(Escape(raw)) == Some(raw)
  {
    if raw != [] {
      var e := Escape(raw);
      assert raw == [raw[0]] + raw[1..];
      UnescapeEscape(raw[1..]);
      if NeedsEscape(raw[0]) {
        assert e[2..] == Escape(raw[1..]);
      } else {
        assert e[1..] == Escape(raw[1..]);
        assert e != [BACKSLASH] && !EscapePairAt(e, 0);
      }
    }
  }

  /** What short texts unescape to; a backslash that escapes nothing stays, but not at the end. */
  lemma UnescapeShort(b: Byte)
    ensures Unescape([]) == Some([])
    ensures Unescape([b]) == if b == 92 then None else Some([b])
    ensures Unescape([92, b]) == if b == 47 || b == 92 then Some([b]) else Some([92, b])
  {
    assert [b][1..] == [] && [92, b][1..] == [b] && [92, b][2..] == [];
    assert [b] + [] == [b] && [92] + [b] == [92, b];
  }

  /** Text that unescapes ends where an escape ends, so that what follows unescapes by itself. */
  lemma {:induction false} UnescapeAppend(a: seq<Byte>, b: seq<Byte>)
    requires Unescape(a).Some?
    ensures Unescape(a + b) == Prepend(Unescape(a).value, Unescape(b))
    decreases |a|
  {
    if a == [] {
      assert a + b == b;
      PrependPrepend([], [], Unescape(b));
    } else {
      var n := if EscapePairAt(a, 0) then 2 else 1;
      assert EscapePairAt(a + b, 0) <==> EscapePairAt(a, 0);
      assert (a + b)[n..] == a[n..] + b;
      UnescapeAppend(a[n..], b);
      PrependPrepend([a[n - 1]], Unescape(a[n..]).value, Unescape(b));
    }
  }

  /** Nothing in data looks like an escape. */
  predicate Clean(data: seq<Byte>) {
    && (data != [] ==> data[|data| - 1] != BACKSLASH)
    && forall k: nat :: k < |data| ==> !EscapePairAt(data, k)
  }

  /** Unescaping a second time, which the session does to data the decoder has already unescaped,
      is harmless exactly on clean data; otherwise the data is rejected or comes out shorter. */
  lemma {:induction false} SecondUnescape(data: seq<Byte>)
    ensures Clean(data) <==> Unescape(data) == Some(data)
    ensures !Clean(data) ==> Unescape(data) == None || |Unescape(data).value| < |data|
    ensures Unescape(data).Some? ==> |Unescape(data).value| <= |data|
    decreases |data|
  {
    if data != [] && data != [BACKSLASH] {
      if EscapePairAt(data, 0) {
        SecondUnescape(data[2..]);
      } else {
        var rest := data[1..];
        SecondUnescape(rest);
        assert forall k: nat :: k < |rest| ==> (EscapePairAt(rest, k) <==> EscapePairAt(data, k + 1));
        assert forall k: nat :: 0 < k < |data| ==> (EscapePairAt(data, k) <==> EscapePairAt(rest, k - 1));
        assert Clean(data) <==> Clean(rest);
        assert data == [data[0]] + rest;
        if Unescape(data) == Some(data) {
          assert ([data[0]] + Unescape(rest).value)[1..] == Unescape(rest).value;
        }
      }
    } else if data == [BACKSLASH] {
      assert !Clean(data);
    }
  }

  /** The two bytes that are escaped are the slash and the backslash. */
  lemma EscapeOne(b: Byte)
    ensures Escape([b]) == if b == 47 || b == 92 then [92, b] else [b]
  {
    assert EscapeByte(b) + [] == EscapeByte(b);
  }

  lemma {:induction false} EscapeAppend(a: seq<Byte>, b: seq<Byte>)
    ensures Escape(a + b) == Escape(a) + Escape(b)
  {
    if a == [] {
      assert a + b == b;
    } else {
      assert (a + b)[1..] == a[1..] + b;
      EscapeAppend(a[1..], b);
      Assoc(EscapeByte(a[0]), Escape(a[1..]), Escape(b));
    }
  }

  // ---------- Packing ----------

  /** Number of data bytes PackDataMessage may fill for this session and position. */
  function Budget(session: int, position: int): int {
    MAX_MESSAGE_SIZE - (9 + |Itoa(session)| + |Itoa(position)|)
  }

  /** n raw bytes fit, and no longer prefix does. */
  predicate LongestFit(data: seq<Byte>, budget: int, n: nat) {
    && n <= |data|
    && (n > 0 ==> |Escape(data[..n])| <= budget)
    && (n < |data| ==> |Escape(data[..n + 1])| > budget)
  }

  function PackCount(data: seq<Byte>, budget: int): (n: nat)
    ensures n <= |data|
  {
    if data == [] || |EscapeByte(data[0])| > budget then 0
    else 1 + PackCount(data[1..], budget - |EscapeByte(data[0])|)
  }

  lemma {:induction false} LongerIsLarger(data: seq<Byte>, m: nat, n: nat)
    requires m <= n <= |data|
    ensures |Escape(data[..m])| + (n - m) <= |Escape(data[..n])|
  {
    assert data[..n] == data[..m] + data[m..n];
    EscapeAppend(data[..m], data[m..n]);
  }

  lemma PrefixCost(data: seq<Byte>, m: nat)
    requires 0 < m <= |data|
    ensures |Escape(data[..m])| == |EscapeByte(data[0])| + |Escape(data[1..][..m - 1])|
  {
    assert data[..m][1..] == data[1..][..m - 1];
  }

  /** The greedy count is the longest fit. */
  lemma {:induction false} PackCountFits(data: seq<Byte>, budget: int)
    ensures LongestFit(data, budget, PackCount(data, budget))
  {
    var n := PackCount(data, budget);
    if data != [] {
      if n > 0 {
        PackCountFits(data[1..], budget - |EscapeByte(data[0])|);
        PrefixCost(data, n);
      }
      if n < |data| {
        PrefixCost(data, n + 1);
      }
    }
  }

  /** No prefix that fits is longer than the longest fit. */
  lemma LongestFitIsMaximal(data: seq<Byte>, budget: int, n: nat, m: nat)
    requires LongestFit(data, budget, n)
    requires m <= |data| && (m > 0 ==> |Escape(data[..m])| <= budget)
    ensures m <= n
  {
    if n < m {
      LongerIsLarger(data, n + 1, m);
    }
  }

  /** PackDataMessage, with the source's loop: appends the escaping of the longest prefix of data
      that fits, and returns how many raw bytes that is. */
  method PackDataMessage(message: LRMessage, data: seq<Byte>, startPosition: int)
    returns (packed: LRMessage, used: nat)
    ensures LongestFit(data, Budget(message.session, startPosition), used)
    ensures used == PackCount(data, Budget(message.session, startPosition))
    ensures packed == message.(data := message.data + Escape(data[..used]), position := startPosition)
  {
    var overhead := 9 + |Itoa(message.session)| + |Itoa(startPosition)|;
    var maxDataSize := MAX_MESSAGE_SIZE - overhead;
    var currentEscapedLen := 0;
    used := 0;
    var out := message.data;
    while used < |data|
      invariant used <= |data|
      invariant out == message.data + Escape(data[..used])
      invariant currentEscapedLen == |Escape(data[..used])|
      invariant used > 0 ==> currentEscapedLen <= maxDataSize
      decreases |data| - used
    {
      var b := data[used];
      var bytesToAdd := 1;
      var needsEscape := false;
      if b == SLASH || b == BACKSLASH {
        bytesToAdd := 2;
        needsEscape := true;
      }
      EscapeSnoc(data, used);
      if currentEscapedLen + bytesToAdd > maxDataSize {
        break;
      }
      AppendEscaped(message.data, Escape(data[..used]), b);
      if needsEscape {
        out := out + [BACKSLASH];
      }
      out := out + [b];
      currentEscapedLen := currentEscapedLen + bytesToAdd;
      used := used + 1;
    }
    GreedyIsPackCount(data, maxDataSize, used);
    packed := message.(data := out, position := startPosition);
  }

  lemma GreedyIsPackCount(data: seq<Byte>, budget: int, used: nat)
    requires LongestFit(data, budget, used)
    ensures used == PackCount(data, budget)
  {
    PackCountFits(data, budget);
    LongestFitIsMaximal(data, budget, used, PackCount(data, budget));
    LongestFitIsMaximal(data, budget, PackCount(data, budget), used);
  }

  lemma AppendEscaped(a: seq<Byte>, e: seq<Byte>, b: Byte)
    ensures a + e + [BACKSLASH] + [b] == a + (e + [BACKSLASH, b])
    ensures a + e + [b] == a + (e + [b])
  {
    Assoc(a, e, [b]);
    Assoc(a, e, [BACKSLASH, b]);
  }

  lemma EscapeSnoc(data: seq<Byte>, n: nat)
    requires n < |data|
    ensures Escape(data[..n + 1]) == Escape(data[..n]) + EscapeByte(data[n])
  {
    assert data[..n + 1] == data[..n] + [data[n]];
    EscapeAppend(data[..n], [data[n]]);
  }

  /** Packing always makes progress in the protocol's range of sessions and positions: ids and
      positions have at most ten digits, so one escaped byte always fits. */
  lemma PackMakesProgress(data: seq<Byte>, session: int, position: int)
    requires 0 <= session <= MAX_INTEGER && 0 <= position <= MAX_INTEGER
    requires data != []
    ensures 1 <= PackCount(data, Budget(session, position))
  {
    ShortNumbers(session, position);
  }

  /** Acknowledged bytes never have to be paid back: after the first k of n packed bytes are
      acknowledged, repacking from the new position reaches at least the old end, although the new
      position may have more digits and so a smaller budget. */
  lemma RepackReachesOldEnd(data: seq<Byte>, session: int, position: nat, n: nat, k: nat)
    requires k <= n <= |data| && |Escape(data[..n])| <= Budget(session, position)
    ensures n <= k + PackCount(data[k..], Budget(session, position + k))
  {
    hide Escape, PackCount, Digits;
    DigitsGrowth(position, k);
    var budget := Budget(session, position + k);
    assert data[..n] == data[..k] + data[k..n];
    EscapeAppend(data[..k], data[k..n]);
    assert |Escape(data[k..n])| <= budget;
    assert data[k..][..n - k] == data[k..n];
    PackCountFits(data[k..], budget);
    LongestFitIsMaximal(data[k..], budget, PackCount(data[k..], budget), n - k);
  }

  // ---------- Wire format ----------

  /** One field with its closing slash, before the rest of the text. */
  function Field(text: seq<Byte>, rest: seq<Byte>): seq<Byte> {
    text + ([SLASH] + rest)
  }

  /** Encode: the text of a message; None is the source's error for an unknown type. */
  function Wire(m: LRMessage): Option<seq<Byte>> {
    if m.kind == CONNECT || m.kind == CLOSE then
      Some([SLASH] + Field(m.kind, Field(Itoa(m.session), [])))
    else if m.kind == ACK then
      Some([SLASH] + Field(m.kind, Field(Itoa(m.session), Field(Itoa(m.length), []))))
    else if m.kind == DATA then
      Some([SLASH] + Field(m.kind, Field(Itoa(m.session), Field(Itoa(m.position), Field(m.data, [])))))
    else
      None
  }

  /** The text of each kind of message. */
  lemma WireText(session: int, length: int, position: int, raw: seq<Byte>)
    ensures Wire(ConnectMessage(session)).value == [47, 99, 111, 110, 110, 101, 99, 116, 47] + Itoa(session) + [47]
    ensures Wire(CloseMessage(session)).value == [47, 99, 108, 111, 115, 101, 47] + Itoa(session) + [47]
    ensures Wire(AckMessage(session, length)).value ==
            [47, 97, 99, 107, 47] + Itoa(session) + [47] + Itoa(length) + [47]
    ensures Wire(DataMessage(session, position, raw)).value ==
            [47, 100, 97, 116, 97, 47] + Itoa(session) + [47] + Itoa(position) + [47] + Escape(raw) + [47]
  {
    hide Escape, Itoa;
  }

  /** Only these four kinds can be encoded. */
  lemma WireFails(m: LRMessage)
    ensures Wire(m) == None <==>
            m.kind !in {[99, 111, 110, 110, 101, 99, 116], [99, 108, 111, 115, 101], [97, 99, 107], [100, 97, 116, 97]}
  {
    hide Itoa;
  }

  /** Packing fills the datagram of at most 999 bytes: a prefix of the data fits exactly when it is no
      longer than what is packed. */
  lemma PackedIsLongest(session: int, position: int, data: seq<Byte>, m: nat)
    requires 0 <= session <= 2147483647 && 0 <= position <= 2147483647
    requires m <= |data|
    ensures |Wire(DataMessage(session, position, data[..m])).value| <= 999 <==>
            m <= PackCount(data, Budget(session, position))
  {
    hide Escape, Itoa;
    var budget := Budget(session, position);
    var n := PackCount(data, budget);
    ShortNumbers(session, position);
    WireText(session, 0, position, data[..m]);
    PackCountFits(data, budget);
    if m <= n {
      LongerIsLarger(data, m, n);
    } else {
      LongerIsLarger(data, n + 1, m);
    }
  }

  /** Ids and positions have at most ten digits. */
  lemma ShortNumbers(session: int, position: int)
    requires 0 <= session <= 2147483647 && 0 <= position <= 2147483647
    ensures |Itoa(session)| <= 10 && |Itoa(position)| <= 10
  {
    assert Pow10(10) == 10000000000;
    DigitsBound(session, 10);
    DigitsBound(position, 10);
  }

  /** A packed message never exceeds the protocol's 999 bytes. */
  lemma PackedFits(session: int, position: int, data: seq<Byte>)
    requires 0 <= session <= MAX_INTEGER && 0 <= position <= MAX_INTEGER
    ensures var n := PackCount(data, Budget(session, position));
            |Wire(DataMessage(session, position, data[..n])).value| <= MAX_MESSAGE_SIZE
  {
    PackedIsLongest(session, position, data, PackCount(data, Budget(session, position)));
  }

  lemma AckFits(session: int, length: int)
    requires 0 <= session <= MAX_INTEGER && 0 <= length <= MAX_INTEGER
    ensures |Wire(AckMessage(session, length)).value| <= MAX_MESSAGE_SIZE
    ensures |Wire(CloseMessage(session)).value| <= MAX_MESSAGE_SIZE
  {
    ShortNumbers(session, length);
  }
}
