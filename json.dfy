/** The JSON side of the converter: `json.dumps({'Title': entry},
    ensure_ascii=False)` for one record, and the part of `json.loads` that
    reads such records back.

    Strings are encoded as section 7 of RFC 8259 describes, with the choices
    Python's encoder makes: '"' and '\' are escaped with a backslash, the
    control characters backspace, form feed, newline, carriage return and tab
    get their two-character escapes, every other character below U+0020 is
    written `\u00xx` with lower-case hex digits, and every other character,
    non-ASCII included, is written as itself. */
module Json {
  import opened Text

  /** The JSON values this model decodes: strings, and objects whose member
      values are strings (in Python, a dict from str to str). */
  datatype Value = JString(str: string) | JObject(fields: map<string, string>)

  datatype DecodeError =
    | Malformed      // the text is not JSON (Python raises JSONDecodeError)
    | Unsupported    // a number, array, literal or nested object, which this model does not decode
    | LoneSurrogate  // a \u escape for an unpaired surrogate, which no Dafny char can hold

  const Backspace: char := '\U{8}'
  const FormFeed: char := '\U{C}'

  /** A lower-case hexadecimal digit. */
  function HexDigit(n: nat): (c: char)
    requires n < 16
    ensures '0' <= c <= '9' || 'a' <= c <= 'f'
  {
    if n < 10 then ('0' as int + n) as char else ('a' as int + n - 10) as char
  }

  /** The encoding of one character inside a JSON string. */
  function EscapeChar(c: char): (r: string)
    ensures |r| >= 1 && forall i :: 0 <= i < |r| ==> r[i] >= ' '
    ensures r[0] != '"'
    ensures r[0] != '\\' ==> r == [c]
    ensures c >= ' ' && c != '"' && c != '\\' ==> r == [c]
  {
    if c == '"' then "\\\""
    else if c == '\\' then "\\\\"
    else if c == '\n' then "\\n"
    else if c == '\r' then "\\r"
    else if c == '\t' then "\\t"
    else if c == Backspace then "\\b"
    else if c == FormFeed then "\\f"
    else if c < ' ' then "\\u00" + [HexDigit(c as int / 16), HexDigit(c as int % 16)]
    else [c]
  }

  /** The body of a JSON string literal. */
  function Escape(s: string): (r: string)
    ensures |r| >= |s|
  {
    if s == [] then [] else EscapeChar(s[0]) + Escape(s[1..])
  }

  /** With `ensure_ascii=False` a string with no quote, no backslash and no
      control character, non-ASCII characters included, is written as it is. */
  lemma {:induction false} EscapeLiteral(s: string)
    requires forall i :: 0 <= i < |s| ==> s[i] >= ' ' && s[i] != '"' && s[i] != '\\'
    ensures Escape(s) == s
  {
    if s != [] {
      EscapeLiteral(s[1..]);
      assert [s[0]] + s[1..] == s;
    }
  }

  /** Text with no control character, hence no line break. */
  predicate Printable(s: string)
  {
    forall i :: 0 <= i < |s| ==> s[i] >= ' '
  }

  lemma PrintableConcat(a: string, b: string)
    requires Printable(a) && Printable(b)
    ensures Printable(a + b)
  {
    assert forall i :: |a| <= i < |a| + |b| ==> (a + b)[i] == b[i - |a|];
  }

  /** No raw control character is left in an escaped string. */
  lemma {:induction false} EscapePrintable(s: string)
    ensures Printable(Escape(s))
  {
    if s != [] {
      EscapePrintable(s[1..]);
      PrintableConcat(EscapeChar(s[0]), Escape(s[1..]));
    }
  }

  /** A JSON string literal. */
  function Quote(s: string): string
  {
    "\"" + Escape(s) + "\""
  }

  /** `json.dumps({'Title': entry}, ensure_ascii=False)`, with the default
      separators ", " and ": ". */
  function TitleRecord(entry: string): string
  {
    "{\"Title\": " + Quote(entry) + "}"
  }

  /** A record holds no control character, so no line break. */
  lemma TitleRecordPrintable(entry: string)
    ensures Printable(TitleRecord(entry))
  {
    var body := Escape(entry);
    EscapePrintable(entry);
    PrintableConcat("\"", body);
    PrintableConcat("\"" + body, "\"");
    PrintableConcat("{\"Title\": ", Quote(entry));
    PrintableConcat("{\"Title\": " + Quote(entry), "}");
  }

  /** JSON whitespace. */
  predicate IsJsonSpace(c: char)
  {
    c == ' ' || c == '\t' || c == '\n' || c == '\r'
  }

  /** What follows the leading JSON whitespace of s. */
  function SkipSpace(s: string): (r: string)
    ensures |r| <= |s| && r == s[|s| - |r|..]
    ensures r != [] ==> !IsJsonSpace(r[0])
    ensures forall i :: 0 <= i < |s| - |r| ==> IsJsonSpace(s[i])
  {
    if s != [] && IsJsonSpace(s[0]) then
      var r := SkipSpace(s[1..]);
      assert forall i :: 1 <= i < |s| - |r| ==> s[i] == s[1..][i - 1];
      r
    else s
  }

  /** The value of a hexadecimal digit of either case. */
  function HexValue(c: char): (r: Option<nat>)
    ensures r.Some? ==> r.value < 16
  {
    if '0' <= c <= '9' then Some(c as int - '0' as int)
    else if 'a' <= c <= 'f' then Some(c as int - 'a' as int + 10)
    else if 'A' <= c <= 'F' then Some(c as int - 'A' as int + 10)
    else None
  }

  /** The value of four hexadecimal digits. */
  function Hex4(s: string): (r: Option<nat>)
    requires |s| == 4
    ensures r.Some? ==> r.value < 0x10000
  {
    match (HexValue(s[0]), HexValue(s[1]), HexValue(s[2]), HexValue(s[3]))
    case (Some(a), Some(b), Some(c), Some(d)) => Some(((a * 16 + b) * 16 + c) * 16 + d)
    case _ => None
  }

  /** The character of a `\uXXXX` escape with value u, followed in the input
      by `rest`: a high surrogate followed by a `\u` escape of a low surrogate
      combines with it into one character; any other surrogate is left
      unpaired. */
  function CodePoint(u: nat, rest: string): (r: Result<(char, string), DecodeError>)
    requires u < 0x10000
    ensures r.Ok? ==> |r.value.1| <= |rest|
  {
    if 0xD800 <= u <= 0xDBFF && |rest| > 6 && rest[0] == '\\' && rest[1] == 'u' then
      match Hex4(rest[2..6])
      case None => Err(Malformed)
      case Some(v) =>
        if 0xDC00 <= v <= 0xDFFF then Ok(((0x10000 + (u - 0xD800) * 0x400 + (v - 0xDC00)) as char, rest[6..]))
        else Err(LoneSurrogate)
    else if 0xD800 <= u <= 0xDFFF then Err(LoneSurrogate)
    else Ok((u as char, rest))
  }

  /** The character an escape stands for; s is what follows the backslash. */
  function Unescape(s: string): (r: Result<(char, string), DecodeError>)
    ensures r.Ok? ==> |r.value.1| < |s|
  {
    if s == [] then Err(Malformed)
    else if s[0] == '"' then Ok(('"', s[1..]))
    else if s[0] == '\\' then Ok(('\\', s[1..]))
    else if s[0] == '/' then Ok(('/', s[1..]))
    else if s[0] == 'b' then Ok((Backspace, s[1..]))
    else if s[0] == 'f' then Ok((FormFeed, s[1..]))
    else if s[0] == 'n' then Ok(('\n', s[1..]))
    else if s[0] == 'r' then Ok(('\r', s[1..]))
    else if s[0] == 't' then Ok(('\t', s[1..]))
    else if s[0] != 'u' || |s| < 6 then Err(Malformed)
    else
      match Hex4(s[1..5])
      case None => Err(Malformed)
      case Some(u) => CodePoint(u, s[5..])
  }

  /** The string literal whose body starts at s (just after the opening
      quote): its text and what follows the closing quote. A raw control
      character in the body is an error (strict mode). */
  function ScanString(s: string): (r: Result<(string, string), DecodeError>)
    ensures r.Ok? ==> |r.value.1| < |s|
    decreases |s|
  {
    if s == [] then Err(Malformed)
    else if s[0] == '"' then Ok(("", s[1..]))
    else if s[0] < ' ' then Err(Malformed)
    else if s[0] == '\\' then
      match Unescape(s[1..])
      case Err(e) => Err(e)
      case Ok((c, rest)) =>
        match ScanString(rest)
        case Err(e) => Err(e)
        case Ok((t, after)) => Ok(([c] + t, after))
    else
      match ScanString(s[1..])
      case Err(e) => Err(e)
      case Ok((t, after)) => Ok(([s[0]] + t, after))
  }

  /** A character that starts a JSON value other than a string or an object. */
  predicate StartsOtherValue(c: char)
  {
    c == '[' || c == '-' || '0' <= c <= '9' || c == 'n' || c == 't' || c == 'f' || c == 'N' || c == 'I'
  }

  /** A member value, which this model decodes only when it is a string. */
  function ParseMemberValue(s: string): (r: Result<(string, string), DecodeError>)
    ensures r.Ok? ==> |r.value.1| < |s|
  {
    if s != [] && s[0] == '"' then ScanString(s[1..])
    else if s != [] && (s[0] == '{' || StartsOtherValue(s[0])) then Err(Unsupported)
    else Err(Malformed)
  }

  /** The members of an object, from a key on; a repeated key keeps its last
      value. Returns the fields and what follows the closing brace. */
  function ParseMembers(s: string, acc: map<string, string>): (r: Result<(map<string, string>, string), DecodeError>)
    ensures r.Ok? ==> |r.value.1| < |s|
    decreases |s|
  {
    if s == [] || s[0] != '"' then Err(Malformed)
    else
      match ScanString(s[1..])
      case Err(e) => Err(e)
      case Ok((key, r1)) =>
        var r2 := SkipSpace(r1);
        if r2 == [] || r2[0] != ':' then Err(Malformed)
        else
          match ParseMemberValue(SkipSpace(r2[1..]))
          case Err(e) => Err(e)
          case Ok((v, r3)) =>
            var r4 := SkipSpace(r3);
            var fields := acc[key := v];
            if r4 != [] && r4[0] == '}' then Ok((fields, r4[1..]))
            else if r4 == [] || r4[0] != ',' then Err(Malformed)
            else ParseMembers(SkipSpace(r4[1..]), fields)
  }

  /** An object whose body starts at s (just after the opening brace). */
  function ParseObject(s: string): (r: Result<(Value, string), DecodeError>)
  {
    var t := SkipSpace(s);
    if t != [] && t[0] == '}' then Ok((JObject(map[]), t[1..]))
    else
      match ParseMembers(t, map[])
      case Err(e) => Err(e)
      case Ok((fields, rest)) => Ok((JObject(fields), rest))
  }

  /** `json.loads`: a byte-order mark first is an error; then one value
      between optional whitespace, and nothing else. */
  function Decode(text: string): (r: Result<Value, DecodeError>)
    ensures r.Ok? ==> SkipSpace(text) != [] && (SkipSpace(text)[0] == '"' || SkipSpace(text)[0] == '{')
    ensures r.Ok? && r.value.JObject? ==> SkipSpace(text)[0] == '{'
  {
    if text != [] && text[0] == '\U{FEFF}' then Err(Malformed)
    else
      var s := SkipSpace(text);
      var parsed: Result<(Value, string), DecodeError> :=
        if s != [] && s[0] == '"' then
          match ScanString(s[1..])
          case Err(e) => Err(e)
          case Ok((t, rest)) => Ok((JString(t), rest))
        else if s != [] && s[0] == '{' then ParseObject(s[1..])
        else if s != [] && StartsOtherValue(s[0]) then Err(Unsupported)
        else Err(Malformed);
      match parsed
      case Err(e) => Err(e)
      case Ok((v, rest)) => if SkipSpace(rest) == [] then Ok(v) else Err(Malformed)
  }

  lemma HexDigitValue(n: nat)
    requires n < 16
    ensures HexValue(HexDigit(n)) == Some(n)
  {
  }

  /** Reading an escape back gives the character it was made from. */
  lemma {:induction false} UnescapeOfEscape(c: char, tail: string)
    requires EscapeChar(c)[0] == '\\' && |tail| > 0
    ensures Unescape(EscapeChar(c)[1..] + tail) == Ok((c, tail))
  {
    var x := EscapeChar(c)[1..] + tail;
    if c < ' ' && c != '\n' && c != '\r' && c != '\t' && c != Backspace && c != FormFeed {
      var hi, lo := c as int / 16, c as int % 16;
      HexDigitValue(hi);
      HexDigitValue(lo);
      assert x[1..5] == ['0', '0', HexDigit(hi), HexDigit(lo)];
      assert Hex4(x[1..5]) == Some(c as int);
      assert x[5..] == tail;
    }
  }

  /** One plain character of a string body is read as itself. */
  lemma ScanPlainStep(c: char, tail: string, t: string, rest: string)
    requires c >= ' ' && c != '"' && c != '\\'
    requires ScanString(tail) == Ok((t, rest))
    ensures ScanString([c] + tail) == Ok(([c] + t, rest))
  {
    assert ([c] + tail)[1..] == tail;
  }

  /** One escape of a string body is read as the character it encodes. */
  lemma ScanEscapeStep(c: char, tail: string, t: string, rest: string)
    requires EscapeChar(c)[0] == '\\'
    requires ScanString(tail) == Ok((t, rest))
    ensures ScanString(EscapeChar(c) + tail) == Ok(([c] + t, rest))
  {
    var h := EscapeChar(c);
    assert |tail| > 0;
    UnescapeOfEscape(c, tail);
    assert (h + tail)[1..] == h[1..] + tail;
  }

  /** One encoded character in front of a scannable body. */
  lemma ScanCharStep(c: char, tail: string, t: string, rest: string)
    requires ScanString(tail) == Ok((t, rest))
    ensures ScanString(EscapeChar(c) + tail) == Ok(([c] + t, rest))
  {
    if EscapeChar(c)[0] == '\\' {
      ScanEscapeStep(c, tail, t, rest);
    } else {
      ScanPlainStep(c, tail, t, rest);
    }
  }

  /** An encoded string body followed by x, split after its first
      character's encoding. */
  lemma EscapeCons(t: string, x: string)
    requires t != []
    ensures Escape(t) + x == EscapeChar(t[0]) + (Escape(t[1..]) + x)
  {
    Regroup(EscapeChar(t[0]), Escape(t[1..]), x);
  }

  lemma Regroup(a: string, b: string, c: string)
    ensures a + b + c == a + (b + c)
  {
  }

  /** Scanning the body of a quoted string gives back the string and leaves
      what follows the closing quote. */
  lemma {:induction false} ScanEscaped(t: string, rest: string)
    ensures ScanString(Escape(t) + ("\"" + rest)) == Ok((t, rest))
  {
    if t == [] {
      assert Escape(t) + ("\"" + rest) == "\"" + rest;
    } else {
      var tail := Escape(t[1..]) + ("\"" + rest);
      ScanEscaped(t[1..], rest);
      EscapeCons(t, "\"" + rest);
      ScanCharStep(t[0], tail, t[1..], rest);
      assert [t[0]] + t[1..] == t;
    }
  }

  /** A body made only of characters that need no escape is read as itself. */
  lemma {:induction false} ScanPlain(p: string, rest: string)
    requires forall i :: 0 <= i < |p| ==> p[i] >= ' ' && p[i] != '"' && p[i] != '\\'
    ensures ScanString(p + "\"" + rest) == Ok((p, rest))
  {
    if p == [] {
      assert p + "\"" + rest == "\"" + rest;
    } else {
      ScanPlain(p[1..], rest);
      assert p + "\"" + rest == [p[0]] + (p[1..] + "\"" + rest);
      ScanPlainStep(p[0], p[1..] + "\"" + rest, p[1..], rest);
      assert [p[0]] + p[1..] == p;
    }
  }

  lemma SkipNoSpace(s: string)
    requires s != [] && !IsJsonSpace(s[0])
    ensures SkipSpace(s) == s
  {
  }

  lemma SkipOneSpace(s: string)
    requires s != [] && !IsJsonSpace(s[0])
    ensures SkipSpace(" " + s) == s
  {
    assert (" " + s)[1..] == s;
  }

  /** The value of a record's only member reads back as the entry. */
  lemma RecordValueScans(entry: string, tail: string)
    ensures ParseMemberValue(SkipSpace(" " + (Quote(entry) + ("}" + tail)))) == Ok((entry, "}" + tail))
  {
    var q := Quote(entry) + ("}" + tail);
    var body := Escape(entry) + ("\"" + ("}" + tail));
    assert q == "\"" + body;
    SkipOneSpace(q);
    assert q[1..] == body;
    ScanEscaped(entry, "}" + tail);
  }

  lemma TitleKeyScans(rest: string)
    ensures ScanString(("\"Title\"" + rest)[1..]) == Ok(("Title", rest))
  {
    ScanPlain("Title", rest);
    assert ("\"Title\"" + rest)[1..] == "Title" + "\"" + rest;
  }

  /** One member, a string value and the closing brace make an object body
      with that single field. */
  lemma LastMember(s: string, key: string, r1: string, v: string, r3: string)
    requires s != [] && s[0] == '"' && ScanString(s[1..]) == Ok((key, r1))
    requires r1 != [] && r1[0] == ':' && ParseMemberValue(SkipSpace(r1[1..])) == Ok((v, r3))
    requires r3 != [] && r3[0] == '}'
    ensures ParseMembers(s, map[]) == Ok((map[key := v], r3[1..]))
  {
    SkipNoSpace(r1);
    SkipNoSpace(r3);
  }

  /** The members of a record read back as the one field "Title". */
  lemma RecordMembersParse(entry: string, tail: string)
    ensures ParseMembers("\"Title\"" + (": " + (Quote(entry) + ("}" + tail))), map[]) == Ok((map["Title" := entry], tail))
  {
    var r1 := ": " + (Quote(entry) + ("}" + tail));
    TitleKeyScans(r1);
    assert r1[1..] == " " + (Quote(entry) + ("}" + tail));
    RecordValueScans(entry, tail);
    assert ("}" + tail)[1..] == tail;
    LastMember("\"Title\"" + r1, "Title", r1, entry, "}" + tail);
  }

  /** An object followed only by whitespace is what `json.loads` returns. */
  lemma DecodeObject(s: string, v: Value, rest: string)
    requires s != [] && s[0] == '{' && ParseObject(s[1..]) == Ok((v, rest))
    requires SkipSpace(rest) == []
    ensures Decode(s) == Ok(v)
  {
    SkipNoSpace(s);
  }

  /** A record, as the object parser sees it after its opening brace. */
  lemma RecordText(entry: string, tail: string)
    ensures TitleRecord(entry) + tail == "{" + ("\"Title\"" + (": " + (Quote(entry) + ("}" + tail))))
  {
  }

  /** A record reads back as the object {"Title": entry}, also with the
      newline that ends its line still attached. */
  lemma TitleRecordDecodes(entry: string, tail: string)
    requires tail == "" || tail == "\n"
    ensures Decode(TitleRecord(entry) + tail) == Ok(JObject(map["Title" := entry]))
  {
    var t := "\"Title\"" + (": " + (Quote(entry) + ("}" + tail)));
    RecordText(entry, tail);
    assert ("{" + t)[1..] == t;
    SkipNoSpace(t);
    RecordMembersParse(entry, tail);
    assert SkipSpace(tail) == [];
    DecodeObject("{" + t, JObject(map["Title" := entry]), tail);
  }
}
