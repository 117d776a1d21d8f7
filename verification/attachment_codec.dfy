/** The attachment-list codec of the data service. The database keeps only
    the legacy single `attachmentUrl` column, so before a write the list of
    attachment URLs is stored there as a JSON array of strings; after a read
    the column is decoded back into the list (a legacy plain URL becomes a
    one-element list) and the legacy field is set to the first URL. */
module AttachmentCodec {
  import opened Domain

  // ------------------------------------------------------------ JSON text

  function HexDigit(n: int): char
    requires 0 <= n < 16
  {
    "0123456789abcdef"[n]
  }

  function HexValue(c: char): (r: Option<int>)
    ensures r.Some? ==> 0 <= r.value < 16
  {
    if '0' <= c <= '9' then Some(c as int - '0' as int)
    else if 'a' <= c <= 'f' then Some(c as int - 'a' as int + 10)
    else if 'A' <= c <= 'F' then Some(c as int - 'A' as int + 10)
    else None
  }

  /** The code unit named by four hexadecimal digits. */
  function CodeUnit(a: int, b: int, c: int, d: int): (n: int)
    requires 0 <= a < 16 && 0 <= b < 16 && 0 <= c < 16 && 0 <= d < 16
    ensures 0 <= n < 0x10000
  {
    var ab := a * 16 + b;
    assert 0 <= ab < 0x100;
    var abc := ab * 16 + c;
    assert 0 <= abc < 0x1000;
    abc * 16 + d
  }

  /** How `JSON.stringify` writes one character inside a string literal:
      quote and backslash are escaped, the five common control characters
      get their short escapes, the other control characters a \u00XX
      escape, and everything else is copied. */
  function EscapeChar(c: char): (e: string)
    ensures |e| >= 1
  {
    if c == '\"' then "\\\""
    else if c == '\\' then "\\\\"
    else if c == '\n' then "\\n"
    else if c == '\r' then "\\r"
    else if c == '\t' then "\\t"
    else if c == '\U{8}' then "\\b"
    else if c == '\U{C}' then "\\f"
    else if (c as int) < 0x20 then ['\\', 'u', '0', '0', HexDigit(c as int / 16), HexDigit(c as int % 16)]
    else [c]
  }

  function Escape(s: string): string
  {
    if s == [] then "" else EscapeChar(s[0]) + Escape(s[1..])
  }

  function Quote(s: string): string
  {
    "\"" + Escape(s) + "\""
  }

  function JoinQuoted(xs: seq<string>): string
  {
    if xs == [] then ""
    else if |xs| == 1 then Quote(xs[0])
    else Quote(xs[0]) + "," + JoinQuoted(xs[1..])
  }

  /** `JSON.stringify` of a list of strings. */
  function EncodeList(xs: seq<string>): (text: string)
    ensures |text| >= 2 && text[0] == '['
  {
    "[" + JoinQuoted(xs) + "]"
  }

  predicate IsJsonSpace(c: char)
  {
    c == ' ' || c == '\t' || c == '\n' || c == '\r'
  }

  function SkipSpace(s: string): (r: string)
    ensures |r| <= |s|
    ensures s != [] && !IsJsonSpace(s[0]) ==> r == s
  {
    if s != [] && IsJsonSpace(s[0]) then SkipSpace(s[1..]) else s
  }

  /** The character named by the escape after a backslash, and the rest. */
  function Unescape(s: string): (r: Option<(char, string)>)
    ensures r.Some? ==> |r.value.1| < |s|
  {
    if s == [] then None
    else if s[0] == '\"' then Some(('\"', s[1..]))
    else if s[0] == '\\' then Some(('\\', s[1..]))
    else if s[0] == '/' then Some(('/', s[1..]))
    else if s[0] == 'n' then Some(('\n', s[1..]))
    else if s[0] == 'r' then Some(('\r', s[1..]))
    else if s[0] == 't' then Some(('\t', s[1..]))
    else if s[0] == 'b' then Some(('\U{8}', s[1..]))
    else if s[0] == 'f' then Some(('\U{C}', s[1..]))
    else if s[0] == 'u' && |s| >= 5 then
      match (HexValue(s[1]), HexValue(s[2]), HexValue(s[3]), HexValue(s[4]))
      case (Some(a), Some(b), Some(c), Some(d)) =>
        var code := CodeUnit(a, b, c, d);
        if 0xD800 <= code <= 0xDFFF then None else Some((code as char, s[5..]))
      case _ => None
    else None
  }

  /** The body of a string literal after its opening quote: the decoded
      text and what follows the closing quote. */
  function StringBody(s: string): (r: Option<(string, string)>)
    ensures r.Some? ==> |r.value.1| < |s|
    decreases |s|
  {
    if s == [] then None
    else if s[0] == '\"' then Some(([], s[1..]))
    else if s[0] == '\\' then
      match Unescape(s[1..])
      case None => None
      case Some((c, rest)) =>
        match StringBody(rest)
        case None => None
        case Some((t, after)) => Some(([c] + t, after))
    else if (s[0] as int) < 0x20 then None
    else
      match StringBody(s[1..])
      case None => None
      case Some((t, after)) => Some(([s[0]] + t, after))
  }

  /** The elements of a list after its opening bracket and the first
      element's leading space. */
  function Elements(s: string): Option<seq<string>>
    decreases |s|
  {
    if s == [] || s[0] != '\"' then None
    else
      match StringBody(s[1..])
      case None => None
      case Some((x, rest)) =>
        var r := SkipSpace(rest);
        if r == [] then None
        else if r[0] == ',' then
          match Elements(SkipSpace(r[1..]))
          case None => None
          case Some(more) => Some([x] + more)
        else if r[0] == ']' && SkipSpace(r[1..]) == [] then Some([x])
        else None
  }

  /** `JSON.parse` restricted to JSON arrays of strings; any other text
      counts as a parse failure. */
  function DecodeList(text: string): (r: Option<seq<string>>)
    ensures r.Some? ==> SkipSpace(text) != [] && SkipSpace(text)[0] == '['
  {
    var t := SkipSpace(text);
    if t == [] || t[0] != '[' then None
    else
      var u := SkipSpace(t[1..]);
      if u != [] && u[0] == ']' then
        if SkipSpace(u[1..]) == [] then Some([]) else None
      else Elements(u)
  }

  lemma EscapeCharParses(c: char, t: string)
    ensures StringBody(EscapeChar(c) + t) == match StringBody(t)
                                             case None => None
                                             case Some((x, after)) => Some(([c] + x, after))
  {
    var e := EscapeChar(c);
    if (c as int) < 0x20 && c != '\n' && c != '\r' && c != '\t' && c != '\U{8}' && c != '\U{C}' {
      var s := e + t;
      assert s[0] == '\\' && s[1..] == ['u', '0', '0', HexDigit(c as int / 16), HexDigit(c as int % 16)] + t;
      assert HexValue(HexDigit(c as int / 16)) == Some(c as int / 16);
      assert HexValue(HexDigit(c as int % 16)) == Some(c as int % 16);
      assert Unescape(s[1..]) == Some((c, t));
    } else if c == '\"' || c == '\\' || c == '\n' || c == '\r' || c == '\t' || c == '\U{8}' || c == '\U{C}' {
      var s := e + t;
      assert s[0] == '\\' && s[1..] == [e[1]] + t;
    } else {
      assert (e + t)[1..] == t;
    }
  }

  /** Decoding a string literal undoes the escaping. */
  lemma {:induction false} EscapeParses(x: string, t: string)
    ensures StringBody(Escape(x) + "\"" + t) == Some((x, t))
    decreases |x|
  {
    if x == [] {
      assert Escape(x) + "\"" + t == "\"" + t;
    } else {
      assert Escape(x) + "\"" + t == EscapeChar(x[0]) + (Escape(x[1..]) + "\"" + t);
      EscapeParses(x[1..], t);
      EscapeCharParses(x[0], Escape(x[1..]) + "\"" + t);
      assert [x[0]] + x[1..] == x;
    }
  }

  lemma ElementsLast(x: string)
    ensures Elements(Quote(x) + "]") == Some([x])
  {
    var s := Quote(x) + "]";
    assert s[0] == '\"';
    assert s[1..] == Escape(x) + "\"" + "]";
    EscapeParses(x, "]");
    assert SkipSpace("]") == "]";
    assert "]"[1..] == [];
  }

  /** One unfolding of `Elements` at a string literal followed by a comma
      and the next string literal. */
  lemma ElementsAfterComma(s: string, x: string, u: string)
    requires s != [] && s[0] == '\"' && StringBody(s[1..]) == Some((x, "," + u))
    requires u != [] && u[0] == '\"'
    ensures Elements(s) == match Elements(u)
                           case None => None
                           case Some(more) => Some([x] + more)
  {
    assert ("," + u)[1..] == u;
  }

  /** The string literal of `x` at the head of `Quote(x) + t` decodes to `x`
      and leaves `t`. */
  lemma QuotedBody(x: string, t: string)
    ensures (Quote(x) + t)[0] == '\"'
    ensures StringBody((Quote(x) + t)[1..]) == Some((x, t))
  {
    assert (Quote(x) + t)[1..] == Escape(x) + "\"" + t;
    EscapeParses(x, t);
  }

  lemma ElementsCons(x: string, u: string)
    requires u != [] && u[0] == '\"'
    ensures Elements(Quote(x) + "," + u) == match Elements(u)
                                            case None => None
                                            case Some(more) => Some([x] + more)
  {
    QuotedBody(x, "," + u);
    assert Quote(x) + "," + u == Quote(x) + ("," + u);
    ElementsAfterComma(Quote(x) + "," + u, x, u);
  }

  lemma {:induction false} ElementsRoundTrip(xs: seq<string>)
    requires xs != []
    ensures Elements(JoinQuoted(xs) + "]") == Some(xs)
    decreases |xs|
  {
    if |xs| == 1 {
      ElementsLast(xs[0]);
      assert xs == [xs[0]];
    } else {
      var u := JoinQuoted(xs[1..]) + "]";
      assert JoinQuoted(xs) + "]" == Quote(xs[0]) + "," + u;
      assert u[0] == '\"';
      ElementsRoundTrip(xs[1..]);
      ElementsCons(xs[0], u);
      assert [xs[0]] + xs[1..] == xs;
    }
  }

  /** A text that starts with neither JSON whitespace nor end of text is
      left alone by `SkipSpace`. */
  lemma SkipSpaceStops(s: string)
    requires s != [] && !IsJsonSpace(s[0])
    ensures SkipSpace(s) == s
  {
  }

  /** One unfolding of `DecodeList` at a bracket followed by a list body
      that starts without whitespace. */
  lemma DecodeBracketed(body: string)
    requires body != [] && !IsJsonSpace(body[0])
    ensures DecodeList("[" + body) == if body[0] == ']' then (if SkipSpace(body[1..]) == [] then Some([]) else None)
                                     else Elements(body)
  {
    var text := "[" + body;
    SkipSpaceStops(text);
    assert text[1..] == body;
    SkipSpaceStops(body);
  }

  /** Decoding the JSON text of a list of strings gives back the list. */
  lemma ListRoundTrip(xs: seq<string>)
    ensures DecodeList(EncodeList(xs)) == Some(xs)
  {
    var body := JoinQuoted(xs) + "]";
    assert EncodeList(xs) == "[" + body;
    if xs == [] {
      assert body == "]";
      DecodeBracketed(body);
      assert body[1..] == [];
    } else {
      assert JoinQuoted(xs)[0] == '\"';
      assert body[0] == '\"';
      DecodeBracketed(body);
      ElementsRoundTrip(xs);
    }
  }

  // ------------------------------------------------------------ rows

  /** The legacy field after a read: the first URL, or empty. */
  function FirstOrEmpty(urls: seq<string>): string
  {
    if urls == [] then "" else urls[0]
  }

  /** `sanitizeForDB`: a present list (even an empty one) is written into
      the legacy field as JSON text, and the list field is removed. */
  function SanitizeForDb(r: LeaveRequest): (row: LeaveRequest)
    ensures row.attachmentUrls.None?
    ensures r.attachmentUrls.Some? ==> row.attachmentUrl == EncodeList(r.attachmentUrls.value)
    ensures r.attachmentUrls.None? ==> row == r
    ensures row == r.(attachmentUrl := row.attachmentUrl, attachmentUrls := None)
  {
    var payload := if r.attachmentUrls.Some? then r.(attachmentUrl := EncodeList(r.attachmentUrls.value)) else r;
    payload.(attachmentUrls := None)
  }

  /** The attachment list recovered from the legacy field: text starting
      with '[' or '{' is decoded (falling back to the text itself as the one
      URL when decoding fails), other non-empty text is one URL, empty text
      is no URL. */
  function StoredUrls(url: string): (urls: seq<string>)
    ensures url == [] ==> urls == []
    ensures url != [] && url[0] != '[' && url[0] != '{' ==> urls == [url]
    ensures url != [] && (url[0] == '[' || url[0] == '{') ==>
      urls == match DecodeList(url) case Some(xs) => xs case None => [url]
  {
    if url != [] && (url[0] == '[' || url[0] == '{') then
      match DecodeList(url)
      case Some(xs) => xs
      case None => [url]
    else if url != [] then [url]
    else []
  }

  /** `processFromDB`. */
  function ProcessFromDb(row: LeaveRequest): (r: LeaveRequest)
    ensures r.attachmentUrls == Some(StoredUrls(row.attachmentUrl))
    ensures r.attachmentUrl == FirstOrEmpty(StoredUrls(row.attachmentUrl))
    ensures r == row.(attachmentUrl := r.attachmentUrl, attachmentUrls := r.attachmentUrls)
  {
    var urls := StoredUrls(row.attachmentUrl);
    row.(attachmentUrls := Some(urls), attachmentUrl := FirstOrEmpty(urls))
  }

  /** A write followed by a read gives back the attachment list (an empty
      list included) and nothing else of the request changes; the legacy
      field then holds the first URL. A request with only a legacy plain URL
      reads back as a one-element list. */
  lemma SanitizeProcessRoundTrip(r: LeaveRequest)
    ensures r.attachmentUrls.Some? ==>
      ProcessFromDb(SanitizeForDb(r)) == r.(attachmentUrl := FirstOrEmpty(r.attachmentUrls.value))
    ensures r.attachmentUrls.None? && r.attachmentUrl != [] && r.attachmentUrl[0] != '[' && r.attachmentUrl[0] != '{' ==>
      ProcessFromDb(SanitizeForDb(r)) == r.(attachmentUrls := Some([r.attachmentUrl]))
  {
    if r.attachmentUrls.Some? {
      ListRoundTrip(r.attachmentUrls.value);
    }
  }
}
