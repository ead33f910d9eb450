/** Socket-mode message types: the classified inbound text message and the
    acknowledgement sent back for an events_api envelope, with its JSON form. */
module Messages {

  datatype Option<+T> = None | Some(value: T) {
    /** The carried value, or `default` when there is none. */
    function GetOr(default: T): T {
      match this
      case Some(v) => v
      case None => default
    }
  }

  /** Outcome of decoding one inbound text frame as a socket-mode message.
      The JSON decoder itself is not modelled: a text frame is given already
      classified, and `Unrecognized` stands for every decoding error (invalid
      JSON, a missing `type` tag, an unknown tag, a missing field). The
      `reason` and `envelope_id` fields are borrowed from the frame text, so
      a value holding a JSON escape or a raw control character cannot be
      decoded either. Such a frame is `Unrecognized` too: a disconnect with
      such a reason does not stop the loop, and an event with such an id is
      not acknowledged. */
  datatype SocketModeMessage =
    | Hello
    | Disconnect(reason: string)
    | EventsApi(envelopeId: string)
    | Unrecognized

  /** The acknowledgement of one events_api envelope. */
  datatype AckMessage = AckMessage(envelopeId: string, payload: Option<string>)

  /** The acknowledgement the dispatch loop builds for an envelope: it echoes
      the identifier and carries no payload. */
  function AckFor(envelopeId: string): (a: AckMessage)
    ensures a.envelopeId == envelopeId && a.payload == None
  {
    AckMessage(envelopeId, None)
  }

  // ---------------------------------------------------------------------
  // JSON serialisation of an acknowledgement
  // ---------------------------------------------------------------------

  const HexDigits: string := "0123456789abcdef"

  /** Characters written unescaped inside a JSON string. */
  predicate IsPlain(c: char) {
    c != '"' && c != '\\' && c >= ' '
  }

  /** The escaped form of one character inside a JSON string: quote and
      backslash are backslash-escaped, the five control characters with a
      short escape use it, the other control characters are written as
      `\u00` followed by two lower-case hex digits. */
  function Escape(c: char): (r: string)
    ensures IsPlain(c) <==> r == [c]
    ensures !IsPlain(c) ==> |r| >= 2 && r[0] == '\\'
  {
    if c == '"' then "\\\""
    else if c == '\\' then "\\\\"
    else if c == 8 as char then "\\b"
    else if c == '\t' then "\\t"
    else if c == '\n' then "\\n"
    else if c == 12 as char then "\\f"
    else if c == '\r' then "\\r"
    else if c < ' ' then ['\\', 'u', '0', '0', HexDigits[c as int / 16], HexDigits[c as int % 16]]
    else [c]
  }

  /** The body of a JSON string literal for `s` (without the quotes). */
  function EscapeString(s: string): string {
    if s == [] then [] else Escape(s[0]) + EscapeString(s[1..])
  }

  const EnvelopeKey: string := "{\"envelope_id\":\""
  const PayloadKey: string := ",\"payload\":\""

  /** `serde_json::to_string` of the acknowledgement struct: fields in
      declaration order, no whitespace, and the `payload` field left out
      entirely when it is `None`. The wire form is {"envelope_id":"<id>"} or
      {"envelope_id":"<id>","payload":"<p>"}; the grouping of the
      concatenations only follows the order in which the form is read back. */
  function Serialize(a: AckMessage): string {
    EnvelopeKey + (EscapeString(a.envelopeId) + ("\"" + PayloadTail(a.payload)))
  }

  /** What Serialize writes after the envelope identifier's closing quote:
      the payload member when there is a payload, then the closing brace. */
  function PayloadTail(payload: Option<string>): string {
    match payload
    case None => "}"
    case Some(p) => PayloadKey + (EscapeString(p) + ("\"" + "}"))
  }

  // ---------------------------------------------------------------------
  // Reading the serialised form back (the partner of Serialize)
  // ---------------------------------------------------------------------

  function HexValue(c: char): (r: Option<nat>)
    ensures r.Some? ==> r.value < 16
  {
    if '0' <= c <= '9' then Some(c as int - '0' as int)
    else if 'a' <= c <= 'f' then Some(c as int - 'a' as int + 10)
    else None
  }

  /** Reads one escape sequence from `s`, the text right after a backslash:
      the character it stands for and how many characters of `s` it used. */
  function UnescapeOne(s: string): (r: Option<(char, nat)>)
    ensures r.Some? ==> 1 <= r.value.1 <= |s|
  {
    if |s| == 0 then None
    else if s[0] == '"' then Some(('"', 1))
    else if s[0] == '\\' then Some(('\\', 1))
    else if s[0] == 'b' then Some((8 as char, 1))
    else if s[0] == 't' then Some(('\t', 1))
    else if s[0] == 'n' then Some(('\n', 1))
    else if s[0] == 'f' then Some((12 as char, 1))
    else if s[0] == 'r' then Some(('\r', 1))
    else if s[0] == 'u' && |s| >= 5 && s[1] == '0' && s[2] == '0' then
      match (HexValue(s[3]), HexValue(s[4]))
      case (Some(hi), Some(lo)) =>
        if hi * 16 + lo < 32 then Some(((hi * 16 + lo) as char, 5)) else None
      case _ => None
    else None
  }

  /** Reads the body of a JSON string literal up to its closing quote: the
      decoded text and what follows the closing quote. */
  function ReadString(s: string): Option<(string, string)>
    decreases |s|
  {
    if |s| == 0 then None
    else if s[0] == '"' then Some(([], s[1..]))
    else if s[0] == '\\' then
      match UnescapeOne(s[1..])
      case None => None
      case Some((c, n)) =>
        match ReadString(s[1 + n..])
        case None => None
        case Some((body, rest)) => Some(([c] + body, rest))
    else
      match ReadString(s[1..])
      case None => None
      case Some((body, rest)) => Some(([s[0]] + body, rest))
  }

  /** Reads an acknowledgement in the form Serialize writes. */
  function ParseAck(s: string): Option<AckMessage> {
    if |s| < |EnvelopeKey| || s[..|EnvelopeKey|] != EnvelopeKey then None
    else
      match ReadString(s[|EnvelopeKey|..])
      case None => None
      case Some((id, rest)) =>
        if rest == "}" then Some(AckMessage(id, None))
        else if |rest| < |PayloadKey| || rest[..|PayloadKey|] != PayloadKey then None
        else
          match ReadString(rest[|PayloadKey|..])
          case Some((p, tail)) => if tail == "}" then Some(AckMessage(id, Some(p))) else None
          case None => None
  }

  // ---------------------------------------------------------------------
  // Properties of the serialised form
  // ---------------------------------------------------------------------

  lemma HexDigitRoundTrip(d: nat)
    requires d < 16
    ensures HexValue(HexDigits[d]) == Some(d)
  {
  }

  /** Reading an escape sequence written by Escape gives back the character. */
  lemma UnescapeEscaped(c: char, t: string)
    requires !IsPlain(c)
    ensures UnescapeOne(Escape(c)[1..] + t) == Some((c, |Escape(c)| - 1))
  {
    var e := Escape(c)[1..] + t;
    if c == '"' || c == '\\' || c == 8 as char || c == '\t' || c == '\n' || c == 12 as char || c == '\r' {
      assert e[0] == Escape(c)[1];
    } else {
      var hi, lo := c as int / 16, c as int % 16;
      HexDigitRoundTrip(hi);
      HexDigitRoundTrip(lo);
      assert e[..5] == ['u', '0', '0', HexDigits[hi], HexDigits[lo]];
      assert e[0] == 'u' && e[1] == '0' && e[2] == '0' && e[3] == HexDigits[hi] && e[4] == HexDigits[lo];
      assert (hi * 16 + lo) as char == c;
    }
  }

  /** Reading one escaped character in front of a readable string. */
  lemma ReadEscapedChar(c: char, t: string, body: string, rest: string)
    requires ReadString(t) == Some((body, rest))
    ensures ReadString(Escape(c) + t) == Some(([c] + body, rest))
  {
    var s := Escape(c) + t;
    if IsPlain(c) {
      assert s[0] == c && s[1..] == t;
    } else {
      UnescapeEscaped(c, t);
      assert s[0] == '\\';
      assert s[1..] == Escape(c)[1..] + t;
      assert s[1 + (|Escape(c)| - 1)..] == t;
    }
  }

  /** Reading the closing quote ends the string. */
  lemma ReadClosingQuote(rest: string)
    ensures ReadString("\"" + rest) == Some(([], rest))
  {
    var q := "\"" + rest;
    assert q[0] == '"' && q[1..] == rest;
  }

  lemma EscapeStringCons(x: string, q: string)
    requires x != []
    ensures EscapeString(x) + q == Escape(x[0]) + (EscapeString(x[1..]) + q)
  {
  }

  /** The string reader inverts the escaper: reading an escaped string
      followed by a closing quote gives back the string and the rest. */
  lemma {:induction false} ReadEscapedString(x: string, rest: string)
    ensures ReadString(EscapeString(x) + ("\"" + rest)) == Some((x, rest))
  {
    var q := "\"" + rest;
    if x == [] {
      assert EscapeString(x) + q == q;
      ReadClosingQuote(rest);
    } else {
      var t := EscapeString(x[1..]) + q;
      ReadEscapedString(x[1..], rest);
      ReadEscapedChar(x[0], t, x[1..], rest);
      EscapeStringCons(x, q);
      assert [x[0]] + x[1..] == x;
    }
  }

  lemma SplitAt(k: string, u: string)
    ensures (k + u)[..|k|] == k && (k + u)[|k|..] == u
  {
  }

  lemma ReadPayloadTail(p: string)
    ensures var tail := PayloadTail(Some(p));
      tail != "}" && |tail| >= |PayloadKey| && tail[..|PayloadKey|] == PayloadKey
      && ReadString(tail[|PayloadKey|..]) == Some((p, "}"))
  {
    var tail := PayloadTail(Some(p));
    SplitAt(PayloadKey, EscapeString(p) + ("\"" + "}"));
    assert tail[0] == ',';
    ReadEscapedString(p, "}");
  }

  /** Every acknowledgement is read back exactly from its serialised form;
      in particular an absent payload is told apart from any present one,
      including an empty or "null" string. */
  lemma AckRoundTrip(a: AckMessage)
    ensures ParseAck(Serialize(a)) == Some(a)
  {
    var tail := PayloadTail(a.payload);
    SplitAt(EnvelopeKey, EscapeString(a.envelopeId) + ("\"" + tail));
    ReadEscapedString(a.envelopeId, tail);
    if a.payload.Some? {
      ReadPayloadTail(a.payload.value);
    }
  }

  /** A string of plain characters is written verbatim. */
  lemma {:induction false} PlainVerbatim(s: string)
    requires forall i :: 0 <= i < |s| ==> IsPlain(s[i])
    ensures EscapeString(s) == s
  {
    if s != [] {
      PlainVerbatim(s[1..]);
      assert [s[0]] + s[1..] == s;
    }
  }

  /** With no payload only the envelope_id member is written: the payload key
      is omitted rather than written as null. The id is taken free of escapes,
      as every id the dispatch loop acknowledges is: it is borrowed from the
      frame text, which serde_json can do only for a string without escapes. */
  lemma AckWithoutPayload(id: string)
    requires forall i :: 0 <= i < |id| ==> IsPlain(id[i])
    ensures Serialize(AckFor(id)) == EnvelopeKey + id + "\"}"
  {
    PlainVerbatim(id);
    assert "\"" + "}" == "\"}";
  }

  /** The acknowledgement for envelope "abc123" serialises as
      {"envelope_id":"abc123"}. */
  lemma AckExample()
    ensures Serialize(AckFor("abc123")) == "{\"envelope_id\":\"abc123\"}"
  {
    var id := "abc123";
    assert forall i :: 0 <= i < |id| ==> IsPlain(id[i]);
    AckWithoutPayload(id);
    assert EnvelopeKey + id + "\"}" == "{\"envelope_id\":\"abc123\"}";
  }
}
