/** One log record and its one-line JSON form, as json.Marshal writes it for the
    ShortToFullURL struct and as json.Unmarshal reads it back. */
module RecordCodec {
  import opened Common
  import opened Decimal

  /** A persisted pair: the short id and the URL stored under it. */
  datatype ShortToFullURL = ShortToFullURL(index: int, fullURL: string)

  const HexDigits: string := "0123456789abcdef"

  /*** Writing ***/

  /** True for the characters json.Marshal writes as a \u escape: control characters,
      the HTML-sensitive < > &, and the line and paragraph separators U+2028 and U+2029. */
  predicate NeedsUnicodeEscape(c: char) {
    c < ' ' || c == '<' || c == '>' || c == '&' || c == '\U{2028}' || c == '\U{2029}'
  }

  function Hex2(b: nat): (s: string)
    requires b < 0x100
    ensures |s| == 2 && '0' <= s[0] && '0' <= s[1]
  {
    [HexDigits[b / 16], HexDigits[b % 16]]
  }

  /** Four lower-case hex digits, as json.Marshal writes them after \u. */
  function Hex4(v: nat): (s: string)
    requires v < 0x10000
    ensures |s| == 4 && '\n' !in s
  {
    Hex2(v / 0x100) + Hex2(v % 0x100)
  }

  /** How json.Marshal writes one character inside a JSON string: the two-character escapes
      for quote, backslash, newline, carriage return and tab, \u00XX for the other control
      characters (the form Go used for backspace and form feed before release 1.22), \u for
      the HTML-sensitive and separator characters, and the character itself otherwise. */
  function EscapeChar(c: char): (s: string)
    ensures |s| > 0 && '\n' !in s
  {
    if c == '"' then "\\\""
    else if c == '\\' then "\\\\"
    else if c == '\n' then "\\n"
    else if c == '\r' then "\\r"
    else if c == '\t' then "\\t"
    else if NeedsUnicodeEscape(c) then "\\u" + Hex4(c as int)
    else [c]
  }

  /** The body of the JSON string literal json.Marshal writes for s. */
  function Escape(s: string): (e: string)
    ensures '\n' !in e
    decreases |s|
  {
    if s == [] then [] else EscapeChar(s[0]) + Escape(s[1..])
  }

  const IndexKey: string := "{\"Index\":"
  const URLKey: string := ",\"FullURL\":\""
  const RecordEnd: string := "\"}"

  /** json.Marshal(ShortToFullURL{Index, FullURL}): the fields in declaration order,
      no spaces. The log line is this followed by a newline. */
  function Marshal(r: ShortToFullURL): (line: string)
    ensures '\n' !in line
    ensures IndexKey <= line
  {
    var num, e := Itoa(r.index), Escape(r.fullURL);
    NoNewlineJoined(IndexKey, num, URLKey, e, RecordEnd);
    IndexKey + num + URLKey + e + RecordEnd
  }

  /** The line Save appends for a record: its JSON form and a newline. */
  function RecordLine(rec: ShortToFullURL): string {
    Marshal(rec) + "\n"
  }

  lemma {:induction false} NoNewlineJoined(a: string, b: string, c: string, d: string, e: string)
    requires '\n' !in a && '\n' !in b && '\n' !in c && '\n' !in d && '\n' !in e
    ensures '\n' !in a + b + c + d + e
  {
    assert a + b + c + d + e == a + (b + (c + (d + e)));
  }

  /*** Reading ***/

  predicate IsSpace(c: char) { c == ' ' || c == '\t' || c == '\n' || c == '\r' }

  predicate AllSpace(s: string) { forall i :: 0 <= i < |s| ==> IsSpace(s[i]) }

  /** The number of leading characters of t that are digits. */
  function SpanDigits(t: string): (k: nat)
    ensures k <= |t|
    decreases |t|
  {
    if t != [] && IsDigit(t[0]) then 1 + SpanDigits(t[1..]) else 0
  }

  /** A JSON integer at the start of t, as Unmarshal accepts it for an int field:
      an optional minus sign, then 0 or digits without a leading zero.
      Yields the value and what follows it. */
  function ParseInt(t: string): (r: Option<(int, string)>)
    ensures r.Some? ==> |r.value.1| < |t|
  {
    var neg := t != [] && t[0] == '-';
    var body := if neg then t[1..] else t;
    var k := SpanDigits(body);
    if k == 0 || (body[0] == '0' && k > 1) then None
    else
      var v: int := ValueOf(body[..k]);
      Some((if neg then -v else v, body[k..]))
  }

  function HexValue(c: char): Option<nat> {
    if '0' <= c <= '9' then Some(c as int - '0' as int)
    else if 'a' <= c <= 'f' then Some(c as int - 'a' as int + 10)
    else if 'A' <= c <= 'F' then Some(c as int - 'A' as int + 10)
    else None
  }

  function ParseHex4(t: string): (r: Option<nat>)
    requires |t| == 4
    ensures r.Some? ==> r.value < 0x10000
  {
    match (HexValue(t[0]), HexValue(t[1]), HexValue(t[2]), HexValue(t[3]))
    case (Some(a), Some(b), Some(c), Some(d)) =>
      if a < 16 && b < 16 && c < 16 && d < 16 then Some(((a * 16 + b) * 16 + c) * 16 + d) else None
    case _ => None
  }

  /** The character a \u escape denotes; a lone surrogate half becomes U+FFFD. */
  function CodeUnitChar(v: nat): char
    requires v < 0x10000
  {
    if 0xD800 <= v < 0xE000 then '\U{FFFD}' else v as char
  }

  /** An escape sequence, t being what follows the backslash: the character it denotes
      and the number of characters of t it takes. */
  function ParseEscape(t: string): (r: Option<(char, nat)>)
    ensures r.Some? ==> 1 <= r.value.1 <= |t|
  {
    if t == [] then None
    else if t[0] == '"' then Some(('"', 1))
    else if t[0] == '\\' then Some(('\\', 1))
    else if t[0] == '/' then Some(('/', 1))
    else if t[0] == 'b' then Some(('\U{0008}', 1))
    else if t[0] == 'f' then Some(('\U{000C}', 1))
    else if t[0] == 'n' then Some(('\n', 1))
    else if t[0] == 'r' then Some(('\r', 1))
    else if t[0] == 't' then Some(('\t', 1))
    else if t[0] == 'u' && |t| >= 5 then
      match ParseHex4(t[1..5])
      case Some(v) => Some((CodeUnitChar(v), 5))
      case None => None
    else None
  }

  function Prepend(c: char, r: Option<(string, string)>): Option<(string, string)> {
    match r
    case Some((s, rest)) => Some(([c] + s, rest))
    case None => None
  }

  /** The rest of a JSON string literal, t being what follows the opening quote:
      the decoded text and what follows the closing quote. A raw control character
      or a bad escape is an error. */
  function ParseString(t: string): (r: Option<(string, string)>)
    ensures r.Some? ==> |r.value.1| < |t|
    decreases |t|
  {
    if t == [] then None
    else if t[0] == '"' then Some(([], t[1..]))
    else if t[0] == '\\' then
      match ParseEscape(t[1..])
      case Some((c, k)) => Prepend(c, ParseString(t[1 + k..]))
      case None => None
    else if t[0] < ' ' then None
    else Prepend(t[0], ParseString(t[1..]))
  }

  /** json.Unmarshal of one line read from the log into a ShortToFullURL, restricted to
      the layout Marshal writes; surrounding JSON whitespace (the line's own newline
      among it) is skipped. */
  function Unmarshal(line: string): Option<ShortToFullURL>
    decreases |line|
  {
    if line != [] && IsSpace(line[0]) then Unmarshal(line[1..])
    else if IndexKey <= line then ParseFields(line[|IndexKey|..]) else None
  }

  /** The record after its opening brace and Index key: the index, then the FullURL field. */
  function ParseFields(t: string): Option<ShortToFullURL> {
    match ParseInt(t)
    case Some((n, t1)) =>
      if URLKey <= t1 then
        match ParseURL(t1[|URLKey|..])
        case Some(u) => Some(ShortToFullURL(n, u))
        case None => None
      else None
    case None => None
  }

  /** The URL string after its opening quote, then the closing brace and only whitespace. */
  function ParseURL(t: string): Option<string> {
    match ParseString(t)
    case Some((u, t2)) =>
      if t2 != [] && t2[0] == '}' && AllSpace(t2[1..]) then Some(u) else None
    case None => None
  }

  /*** Round trip ***/

  lemma {:induction false} Hex2RoundTrip(b: nat)
    requires b < 0x100
    ensures HexValue(Hex2(b)[0]) == Some(b / 16)
    ensures HexValue(Hex2(b)[1]) == Some(b % 16)
  {
  }

  lemma {:induction false} Hex4RoundTrip(v: nat)
    requires v < 0x10000
    ensures ParseHex4(Hex4(v)) == Some(v)
  {
    var hi, lo := v / 0x100, v % 0x100;
    Hex2RoundTrip(hi);
    Hex2RoundTrip(lo);
    assert ((hi / 16 * 16 + hi % 16) * 16 + lo / 16) * 16 + lo % 16 == v;
  }

  /** A backslash, a u and four hex digits decode to the code unit they spell. */
  lemma {:induction false} HexEscapeParses(h: string, more: string)
    requires |h| == 4 && ParseHex4(h).Some?
    ensures ParseString("\\u" + h + more) == Prepend(CodeUnitChar(ParseHex4(h).value), ParseString(more))
  {
    var t := "\\u" + h + more;
    var u := t[1..];
    assert u == "u" + h + more;
    assert u[1..5] == h;
    assert u[5..] == more;
  }

  lemma {:induction false} UnicodeEscapeParses(c: char, more: string)
    requires NeedsUnicodeEscape(c) && c != '\n' && c != '\r' && c != '\t'
    ensures ParseString(EscapeChar(c) + more) == Prepend(c, ParseString(more))
  {
    var h := Hex4(c as int);
    assert EscapeChar(c) == "\\u" + h;
    Hex4RoundTrip(c as int);
    HexEscapeParses(h, more);
  }

  /** Each escaped character decodes back to itself, and decoding goes on with what follows. */
  lemma {:induction false} EscapeCharParses(c: char, more: string)
    ensures ParseString(EscapeChar(c) + more) == Prepend(c, ParseString(more))
  {
    if NeedsUnicodeEscape(c) && c != '\n' && c != '\r' && c != '\t' {
      UnicodeEscapeParses(c, more);
    } else if c == '"' || c == '\\' || c == '\n' || c == '\r' || c == '\t' {
      var t := EscapeChar(c) + more;
      assert t[1 + 1..] == more;
    } else {
      var t := EscapeChar(c) + more;
      assert t[1..] == more;
    }
  }

  /** A character json.Marshal writes as itself inside a string. */
  predicate IsPlain(c: char) { !NeedsUnicodeEscape(c) && c != '"' && c != '\\' }

  /** A string of plain characters is written unchanged. */
  lemma {:induction false} EscapePlain(s: string)
    requires forall i :: 0 <= i < |s| ==> IsPlain(s[i])
    ensures Escape(s) == s
    decreases |s|
  {
    if s != [] {
      EscapePlain(s[1..]);
      assert [s[0]] + s[1..] == s;
    }
  }

  lemma {:induction false} EscapeRegroup(c: string, e: string, rest: string)
    ensures c + e + "\"" + rest == c + (e + "\"" + rest)
  {
  }

  /** The string a Marshal'd field decodes to is the original one, and parsing resumes
      right after the closing quote. */
  lemma {:induction false} EscapeParses(s: string, rest: string)
    ensures ParseString(Escape(s) + "\"" + rest) == Some((s, rest))
    decreases |s|
  {
    if s == [] {
      assert Escape(s) + "\"" + rest == "\"" + rest;
    } else {
      EscapeRegroup(EscapeChar(s[0]), Escape(s[1..]), rest);
      EscapeCharParses(s[0], Escape(s[1..]) + "\"" + rest);
      EscapeParses(s[1..], rest);
      assert [s[0]] + s[1..] == s;
    }
  }

  lemma {:induction false} SpanDigitsOfDigits(d: string, rest: string)
    requires AllDigits(d)
    requires rest == [] || !IsDigit(rest[0])
    ensures SpanDigits(d + rest) == |d|
    decreases |d|
  {
    if d != [] {
      assert (d + rest)[1..] == d[1..] + rest;
      SpanDigitsOfDigits(d[1..], rest);
    }
  }

  lemma {:induction false} ParseIntItoa(n: int, rest: string)
    requires rest == [] || !IsDigit(rest[0])
    ensures ParseInt(Itoa(n) + rest) == Some((n, rest))
  {
    var m: nat := if n < 0 then -n else n;
    var d := Digits(m);
    var body := d + rest;
    if n < 0 {
      assert (Itoa(n) + rest)[1..] == body;
    } else {
      assert Itoa(n) + rest == body;
    }
    SpanDigitsOfDigits(d, rest);
    assert body[..|d|] == d;
    assert body[|d|..] == rest;
    ValueOfDigits(m);
  }

  lemma {:induction false} FieldsRegroup(n: string, u: string, e: string, after: string)
    ensures n + u + e + "\"}" + after == n + (u + (e + "\"" + ("}" + after)))
  {
  }

  lemma {:induction false} LineRegroup(k: string, n: string, u: string, e: string, z: string, after: string)
    ensures k + n + u + e + z + after == k + (n + u + e + z + after)
  {
  }

  /** The URL field of a record line: accepted exactly when only whitespace follows
      the closing brace. */
  lemma {:induction false} ParseURLAt(u: string, after: string)
    ensures ParseURL(Escape(u) + "\"" + ("}" + after)) == if AllSpace(after) then Some(u) else None
  {
    EscapeParses(u, "}" + after);
    assert ("}" + after)[1..] == after;
  }

  /** After a record's closing brace the decoder accepts exactly whitespace. */
  lemma {:induction false} ParseFieldsAt(r: ShortToFullURL, after: string)
    ensures ParseFields(Itoa(r.index) + URLKey + Escape(r.fullURL) + RecordEnd + after)
            == if AllSpace(after) then Some(r) else None
  {
    var num, e := Itoa(r.index), Escape(r.fullURL);
    var t2 := e + "\"" + ("}" + after);
    var t1 := URLKey + t2;
    FieldsRegroup(num, URLKey, e, after);
    assert t1[0] == ',';
    ParseIntItoa(r.index, t1);
    assert URLKey <= t1 && t1[|URLKey|..] == t2;
    ParseURLAt(r.fullURL, after);
  }

  /** A line that starts with the Index key is decoded from what follows the key. */
  lemma {:induction false} UnmarshalAtKey(line: string)
    requires IndexKey <= line
    ensures Unmarshal(line) == ParseFields(line[|IndexKey|..])
  {
    assert line[0] == '{';
  }

  /** The line of a record, followed by anything, is decoded from the record's fields on. */
  lemma {:induction false} UnmarshalRecord(r: ShortToFullURL, after: string)
    ensures Unmarshal(Marshal(r) + after)
            == ParseFields(Itoa(r.index) + URLKey + Escape(r.fullURL) + RecordEnd + after)
  {
    var tail := Itoa(r.index) + URLKey + Escape(r.fullURL) + RecordEnd + after;
    LineRegroup(IndexKey, Itoa(r.index), URLKey, Escape(r.fullURL), RecordEnd, after);
    assert IndexKey <= IndexKey + tail && (IndexKey + tail)[|IndexKey|..] == tail;
    UnmarshalAtKey(IndexKey + tail);
  }

  /** Reading back the line Save writes yields the record it was written from. */
  lemma {:induction false} UnmarshalMarshal(r: ShortToFullURL)
    ensures Unmarshal(RecordLine(r)) == Some(r)
  {
    UnmarshalRecord(r, "\n");
    ParseFieldsAt(r, "\n");
    assert AllSpace("\n");
  }

  /** Marshal is injective: two different records never share a log line. */
  lemma {:induction false} MarshalInjective(r1: ShortToFullURL, r2: ShortToFullURL)
    requires Marshal(r1) == Marshal(r2)
    ensures r1 == r2
  {
    UnmarshalMarshal(r1);
    UnmarshalMarshal(r2);
  }

  /** A fraction or an exponent after the Index number is rejected, as json.Unmarshal
      rejects such a number for an int field. */
  lemma {:induction false} FractionalIndexRejected(n: int, c: char, rest: string)
    requires c == '.' || c == 'e' || c == 'E'
    ensures Unmarshal(IndexKey + Itoa(n) + [c] + rest) == None
  {
    var t := Itoa(n) + ([c] + rest);
    assert IndexKey + Itoa(n) + [c] + rest == IndexKey + t;
    assert IndexKey <= IndexKey + t && (IndexKey + t)[|IndexKey|..] == t;
    UnmarshalAtKey(IndexKey + t);
    ParseIntItoa(n, [c] + rest);
    assert !(URLKey <= [c] + rest) by {
      assert URLKey[0] == ',';
    }
  }

  /** Two records on one line, as a write that lost its newline leaves them, do not decode. */
  lemma {:induction false} GluedRecordsDoNotDecode(r1: ShortToFullURL, r2: ShortToFullURL)
    ensures Unmarshal(Marshal(r1) + RecordLine(r2)) == None
  {
    var after := RecordLine(r2);
    UnmarshalRecord(r1, after);
    ParseFieldsAt(r1, after);
    assert after[0] == '{';
  }
}
