/** JSON Lines: turning the extracted entries into one `{"Title": entry}`
    record per line, and reading such a file back line by line. */
module Jsonl {
  import opened Text
  import opened Json

  /** One line of the output: a record and the newline that ends it. */
  function RecordLine(entry: string): string
  {
    TitleRecord(entry) + "\n"
  }

  /** The record lines of a list of entries. */
  function RecordLines(entries: seq<string>): (r: seq<string>)
    ensures |r| == |entries|
    ensures forall k :: 0 <= k < |r| ==> r[k] == RecordLine(entries[k])
  {
    seq(|entries|, k requires 0 <= k < |entries| => RecordLine(entries[k]))
  }

  /** The concatenation of a list of strings. */
  function Concat(parts: seq<string>): string
  {
    if parts == [] then "" else parts[0] + Concat(parts[1..])
  }

  lemma {:induction false} ConcatSnoc(parts: seq<string>, last: string)
    ensures Concat(parts + [last]) == Concat(parts) + last
    decreases |parts|
  {
    if parts == [] {
      assert parts + [last] == [last];
      assert Concat([last]) == last + Concat([]);
    } else {
      assert (parts + [last])[1..] == parts[1..] + [last];
      ConcatSnoc(parts[1..], last);
    }
  }

  /** The JSONL text of a list of entries: their record lines in order. */
  function Render(entries: seq<string>): (r: string)
    ensures r == [] <==> entries == []
  {
    var lines := RecordLines(entries);
    assert entries != [] ==> |lines[0]| > 0;
    Concat(lines)
  }

  /** `convert_beancount_entries_to_jsonl`: appends each entry's record line
      to the text built so far. */
  method ToJsonl(entries: seq<string>) returns (jsonl: string)
    ensures jsonl == Render(entries)
  {
    jsonl := "";
    for i := 0 to |entries|
      invariant jsonl == Render(entries[..i])
    {
      var line := RecordLine(entries[i]);
      assert RecordLines(entries[..i + 1]) == RecordLines(entries[..i]) + [line];
      ConcatSnoc(RecordLines(entries[..i]), line);
      jsonl := jsonl + line;
    }
    assert entries[..|entries|] == entries;
  }

  /** The number of occurrences of c in s. */
  function CountChar(s: string, c: char): (n: nat)
    ensures n <= |s|
  {
    if s == [] then 0 else (if s[0] == c then 1 else 0) + CountChar(s[1..], c)
  }

  lemma {:induction false} CountAppend(a: string, b: string, c: char)
    ensures CountChar(a + b, c) == CountChar(a, c) + CountChar(b, c)
  {
    if a != [] {
      assert (a + b)[1..] == a[1..] + b;
      CountAppend(a[1..], b, c);
    } else {
      assert a + b == b;
    }
  }

  lemma {:induction false} CountAbsent(s: string, c: char)
    requires forall i :: 0 <= i < |s| ==> s[i] != c
    ensures CountChar(s, c) == 0
  {
    if s != [] {
      CountAbsent(s[1..], c);
    }
  }

  lemma {:induction false} CountConcat(parts: seq<string>, c: char)
    requires forall k :: 0 <= k < |parts| ==> CountChar(parts[k], c) == 1
    ensures CountChar(Concat(parts), c) == |parts|
    decreases |parts|
  {
    if parts != [] {
      CountConcat(parts[1..], c);
      CountAppend(parts[0], Concat(parts[1..]), c);
    }
  }

  /** A record line holds no control character but its final newline. */
  lemma RecordLinePrintable(entry: string)
    ensures RecordLine(entry)[|RecordLine(entry)| - 1] == '\n'
    ensures forall i :: 0 <= i < |RecordLine(entry)| - 1 ==> RecordLine(entry)[i] >= ' '
  {
    var t := TitleRecord(entry);
    TitleRecordPrintable(entry);
    assert forall i :: 0 <= i < |t| ==> (t + "\n")[i] == t[i];
  }

  /** A record line holds one newline, the one that ends it. */
  lemma RecordLineNewlines(entry: string)
    ensures CountChar(RecordLine(entry), '\n') == 1
  {
    var line := RecordLine(entry);
    RecordLinePrintable(entry);
    assert line == line[..|line| - 1] + "\n";
    CountAppend(line[..|line| - 1], "\n", '\n');
    CountAbsent(line[..|line| - 1], '\n');
  }

  /** The output has exactly one newline per entry: escaping keeps every
      newline inside an entry out of the text. */
  lemma RenderNewlines(entries: seq<string>)
    ensures CountChar(Render(entries), '\n') == |entries|
  {
    var lines := RecordLines(entries);
    forall k | 0 <= k < |lines| ensures CountChar(lines[k], '\n') == 1 {
      RecordLineNewlines(entries[k]);
    }
    CountConcat(lines, '\n');
  }

  /** A line as Python's file iteration yields it: not empty, with no newline
      before its last character. */
  predicate LineShaped(line: string)
  {
    line != [] && forall i :: 0 <= i < |line| - 1 ==> line[i] != '\n'
  }

  /** A line that a newline ends. */
  predicate EndsLine(line: string)
  {
    line != [] && line[|line| - 1] == '\n'
  }

  /** The lines of a text as iterating over a file yields them: each keeps
      its newline, and a last line without one is yielded too. The lines
      concatenate back to the text, and every line but the last ends in a
      newline. */
  function Lines(s: string): (lines: seq<string>)
    ensures Concat(lines) == s
    ensures forall k :: 0 <= k < |lines| ==> LineShaped(lines[k])
    ensures forall k :: 0 <= k < |lines| - 1 ==> EndsLine(lines[k])
    decreases |s|
  {
    if s == [] then []
    else
      match IndexOf(s, '\n')
      case None => [s]
      case Some(i) =>
        var rest := Lines(s[i + 1..]);
        var head := s[..i + 1];
        FirstLineShaped(s, i);
        ConsLine(head, rest);
        assert head + s[i + 1..] == s;
        [head] + rest
  }

  /** A complete line in front of the lines of a text. */
  lemma ConsLine(head: string, rest: seq<string>)
    requires LineShaped(head) && head[|head| - 1] == '\n'
    requires forall k :: 0 <= k < |rest| ==> LineShaped(rest[k])
    requires forall k :: 0 <= k < |rest| - 1 ==> EndsLine(rest[k])
    ensures Concat([head] + rest) == head + Concat(rest)
    ensures forall k :: 0 <= k < |rest| + 1 ==> LineShaped(([head] + rest)[k])
    ensures forall k :: 0 <= k < |rest| ==> EndsLine(([head] + rest)[k])
  {
    var lines := [head] + rest;
    assert lines[0] == head && lines[1..] == rest;
    assert Concat(lines) == lines[0] + Concat(lines[1..]);
    forall k | 0 <= k < |lines| ensures LineShaped(lines[k]) {
      if k == 0 {
        assert lines[k] == head;
      } else {
        assert lines[k] == rest[k - 1];
      }
    }
    forall k | 0 <= k < |rest| ensures EndsLine(lines[k]) {
      if k == 0 {
        assert lines[k] == head;
      } else {
        assert lines[k] == rest[k - 1];
      }
    }
  }

  /** The text up to its first newline, included, is a complete line. */
  lemma FirstLineShaped(s: string, i: nat)
    requires IndexOf(s, '\n') == Some(i)
    ensures i < |s| && LineShaped(s[..i + 1]) && s[..i + 1][i] == '\n'
  {
  }

  /** A complete first line is split off by itself. */
  lemma LinesCons(line: string, rest: string)
    requires LineShaped(line) && line[|line| - 1] == '\n'
    ensures Lines(line + rest) == [line] + Lines(rest)
  {
    var s := line + rest;
    var i := |line| - 1;
    assert s[i] == '\n';
    assert forall j :: 0 <= j < i ==> s[j] == line[j];
    assert IndexOf(s, '\n') == Some(i);
    assert s[..i + 1] == line;
    assert s[i + 1..] == rest;
  }

  /** Complete lines, concatenated, are read back as themselves. */
  lemma {:induction false} LinesOfConcat(parts: seq<string>)
    requires forall k :: 0 <= k < |parts| ==> LineShaped(parts[k]) && parts[k][|parts[k]| - 1] == '\n'
    ensures Lines(Concat(parts)) == parts
    decreases |parts|
  {
    if parts != [] {
      LinesOfConcat(parts[1..]);
      LinesCons(parts[0], Concat(parts[1..]));
    }
  }

  /** Reading the output line by line gives back the record lines, one per
      entry, in order. */
  lemma RenderLines(entries: seq<string>)
    ensures Lines(Render(entries)) == RecordLines(entries)
  {
    var lines := RecordLines(entries);
    forall k | 0 <= k < |lines| ensures LineShaped(lines[k]) && lines[k][|lines[k]| - 1] == '\n' {
      RecordLinePrintable(entries[k]);
    }
    LinesOfConcat(lines);
  }

  /** No carriage return occurs in s. */
  predicate NoReturn(s: string)
  {
    forall i :: 0 <= i < |s| ==> s[i] != '\r'
  }

  lemma NoReturnAppend(a: string, b: string)
    requires NoReturn(a) && NoReturn(b)
    ensures NoReturn(a + b)
  {
    assert forall i :: |a| <= i < |a| + |b| ==> (a + b)[i] == b[i - |a|];
  }

  lemma {:induction false} NoReturnConcat(parts: seq<string>)
    requires forall k :: 0 <= k < |parts| ==> NoReturn(parts[k])
    ensures NoReturn(Concat(parts))
    decreases |parts|
  {
    if parts != [] {
      NoReturnConcat(parts[1..]);
      NoReturnAppend(parts[0], Concat(parts[1..]));
    }
  }

  /** Universal-newline reading: "\r\n" and a lone "\r" both become "\n". */
  function TranslateNewlines(s: string): (r: string)
    ensures NoReturn(r)
    ensures NoReturn(s) ==> r == s
  {
    if s == [] then []
    else if s[0] == '\r' then "\n" + TranslateNewlines(if |s| > 1 && s[1] == '\n' then s[2..] else s[1..])
    else
      var t := TranslateNewlines(s[1..]);
      assert forall i :: 1 <= i < |s| ==> s[i] == s[1..][i - 1];
      [s[0]] + t
  }

  /** The translation is Python's documented universal-newline rule, written
      as two replacements: every "\r\n" and then every remaining "\r"
      becomes "\n". */
  lemma {:induction false} TranslateIsReplace(s: string)
    ensures TranslateNewlines(s) == Replace(Replace(s, "\r\n", "\n"), "\r", "\n")
    decreases |s|
  {
    if s != [] {
      if s[0] == '\r' && |s| > 1 && s[1] == '\n' {
        TranslateIsReplace(s[2..]);
        assert s[..2] == "\r\n";
        ReplaceKeeps('\n', Replace(s[2..], "\r\n", "\n"), "\r", "\n");
      } else if s[0] == '\r' {
        TranslateIsReplace(s[1..]);
        var a := Replace(s[1..], "\r\n", "\n");
        assert Replace(s, "\r\n", "\n") == "\r" + a by {
          assert [s[0]] + s[1..] == s;
          if |s| >= 2 {
            assert s[..2] != "\r\n" by { assert s[..2][1] == s[1]; }
          }
        }
        assert ("\r" + a)[..1] == "\r" && ("\r" + a)[1..] == a;
      } else {
        TranslateIsReplace(s[1..]);
        assert [s[0]] + s[1..] == s;
        ReplaceKeeps(s[0], s[1..], "\r\n", "\n");
        ReplaceKeeps(s[0], Replace(s[1..], "\r\n", "\n"), "\r", "\n");
      }
    }
  }

  /** Why `load_jsonl` gives no data. */
  datatype LoadError =
    | NotJsonl                                // the path ends in neither ".gz" nor ".jsonl", so no file is opened
    | BadLine(index: nat, error: DecodeError) // the first line, counted from 0, that does not decode

  /** The values `decode` gives the lines, or the first line it rejects. */
  function DecodeAll(lines: seq<string>, decode: string -> Result<Value, DecodeError>): (r: Result<seq<Value>, LoadError>)
    ensures r.Ok? ==> |r.value| == |lines|
    ensures r.Err? ==> r.error.BadLine? && r.error.index < |lines|
  {
    if lines == [] then Ok([])
    else
      var n := |lines|;
      match DecodeAll(lines[..n - 1], decode)
      case Err(e) => Err(e)
      case Ok(data) =>
        match decode(lines[n - 1])
        case Err(e) => Err(BadLine(n - 1, e))
        case Ok(v) => Ok(data + [v])
  }

  /** A line that does not decode stops the reading for good. */
  lemma {:induction false} DecodeAllStops(lines: seq<string>, j: nat, decode: string -> Result<Value, DecodeError>)
    requires j <= |lines| && DecodeAll(lines[..j], decode).Err?
    ensures DecodeAll(lines, decode) == DecodeAll(lines[..j], decode)
    decreases |lines|
  {
    if j < |lines| {
      var front := lines[..|lines| - 1];
      assert front[..j] == lines[..j];
      DecodeAllStops(front, j, decode);
    } else {
      assert lines[..j] == lines;
    }
  }

  /** A successful read holds each line's own value; a failed one names the
      first line that does not decode, with that line's error. */
  lemma {:induction false} DecodeAllFirstBad(lines: seq<string>, decode: string -> Result<Value, DecodeError>)
    ensures var r := DecodeAll(lines, decode);
      r.Ok? ==> forall k :: 0 <= k < |lines| ==> decode(lines[k]) == Ok(r.value[k])
    ensures var r := DecodeAll(lines, decode);
      r.Err? ==> decode(lines[r.error.index]) == Err(r.error.error)
                 && forall k :: 0 <= k < r.error.index ==> decode(lines[k]).Ok?
    decreases |lines|
  {
    if lines != [] {
      var n := |lines|;
      var front := lines[..n - 1];
      DecodeAllFirstBad(front, decode);
      assert forall k :: 0 <= k < n - 1 ==> front[k] == lines[k];
    }
  }

  /** When every line decodes, the result is their values in order. */
  lemma {:induction false} DecodeAllOk(lines: seq<string>, decode: string -> Result<Value, DecodeError>, values: seq<Value>)
    requires |values| == |lines|
    requires forall k :: 0 <= k < |lines| ==> decode(lines[k]) == Ok(values[k])
    ensures DecodeAll(lines, decode) == Ok(values)
    decreases |lines|
  {
    if lines != [] {
      var n := |lines|;
      DecodeAllOk(lines[..n - 1], decode, values[..n - 1]);
      assert values[..n - 1] + [values[n - 1]] == values;
    }
  }

  /** `json.loads(line.strip(empty_escape_sequences))`. */
  function DecodeLine(cs: set<char>): string -> Result<Value, DecodeError>
  {
    line => Decode(Strip(line, cs))
  }

  /** Whether a path names a file `load_jsonl` opens. */
  predicate IsJsonlPath(path: string)
  {
    Suffix(path) == ".gz" || Suffix(path) == ".jsonl"
  }

  /** What `load_jsonl` returns for a file with the given text. */
  function LoadSpec(path: string, text: string, cs: set<char>): (r: Result<seq<Value>, LoadError>)
    ensures r == Err(NotJsonl) <==> !IsJsonlPath(path)
  {
    if !IsJsonlPath(path) then Err(NotJsonl)
    else
      var lines := Lines(TranslateNewlines(text));
      DecodeAll(lines, DecodeLine(cs))
  }

  /** The loop of `load_jsonl`: decodes the lines one by one, appending
      each value, and stops at the first line that does not decode. */
  method DecodeEach(lines: seq<string>, decode: string -> Result<Value, DecodeError>)
    returns (r: Result<seq<Value>, LoadError>)
    ensures r == DecodeAll(lines, decode)
  {
    var data: seq<Value> := [];
    for i := 0 to |lines|
      invariant DecodeAll(lines[..i], decode) == Ok(data)
    {
      assert lines[..i + 1][..i] == lines[..i];
      match decode(lines[i]) {
        case Err(e) =>
          DecodeAllStops(lines, i + 1, decode);
          return Err(BadLine(i, e));
        case Ok(v) =>
          data := data + [v];
      }
    }
    assert lines[..|lines|] == lines;
    return Ok(data);
  }

  /** `load_jsonl`: opens a ".gz" or ".jsonl" file and decodes its lines. */
  method LoadJsonl(path: string, text: string, cs: set<char>) returns (r: Result<seq<Value>, LoadError>)
    ensures r == LoadSpec(path, text, cs)
  {
    if !IsJsonlPath(path) {
      return Err(NotJsonl);
    }
    r := DecodeEach(Lines(TranslateNewlines(text)), DecodeLine(cs));
  }

  /** Stripping a record line leaves the record, with its newline exactly
      when the newline is not one of the stripped characters. */
  lemma StripRecordLine(entry: string, cs: set<char>)
    requires '{' !in cs && '}' !in cs
    ensures Strip(RecordLine(entry), cs) == if '\n' in cs then TitleRecord(entry) else RecordLine(entry)
  {
    var s := RecordLine(entry);
    var t := TitleRecord(entry);
    var r := Strip(s, cs);
    assert s[0] == '{' && s[|t| - 1] == '}' && s[|s| - 1] == '\n';
    assert LeadLen(s, cs) == 0;
    assert |r| >= |t|;
    if '\n' in cs {
      assert |r| == |t|;
      assert r == s[..|t|] == t;
    } else {
      assert r == s;
    }
  }

  /** A record without its newline decodes to its object. */
  lemma DecodeRecord(entry: string)
    ensures Decode(TitleRecord(entry)) == Ok(JObject(map["Title" := entry]))
  {
    TitleRecordDecodes(entry, "");
    assert TitleRecord(entry) + "" == TitleRecord(entry);
  }

  /** A record line, newline included, decodes to its object. */
  lemma DecodeWholeLine(entry: string)
    ensures Decode(RecordLine(entry)) == Ok(JObject(map["Title" := entry]))
  {
    TitleRecordDecodes(entry, "\n");
  }

  /** One record line, stripped, decodes to its object. */
  lemma DecodeRecordLine(entry: string, cs: set<char>)
    requires '{' !in cs && '}' !in cs
    ensures Decode(Strip(RecordLine(entry), cs)) == Ok(JObject(map["Title" := entry]))
  {
    StripRecordLine(entry, cs);
    if '\n' in cs {
      DecodeRecord(entry);
    } else {
      DecodeWholeLine(entry);
    }
  }

  lemma RecordLineDecodes(entry: string, cs: set<char>)
    requires '{' !in cs && '}' !in cs
    ensures DecodeLine(cs)(RecordLine(entry)) == Ok(JObject(map["Title" := entry]))
  {
    DecodeRecordLine(entry, cs);
  }

  /** The decoded records of the output, one per entry. */
  function TitleObjects(entries: seq<string>): (r: seq<Value>)
    ensures |r| == |entries|
    ensures forall k :: 0 <= k < |r| ==> r[k] == JObject(map["Title" := entries[k]])
  {
    seq(|entries|, k requires 0 <= k < |entries| => JObject(map["Title" := entries[k]]))
  }

  /** The record lines decode, in order, to the objects of their entries. */
  lemma RecordLinesDecode(entries: seq<string>, cs: set<char>)
    requires '{' !in cs && '}' !in cs
    ensures DecodeAll(RecordLines(entries), DecodeLine(cs)) == Ok(TitleObjects(entries))
  {
    var lines := RecordLines(entries);
    var objects := TitleObjects(entries);
    forall k | 0 <= k < |lines| ensures DecodeLine(cs)(lines[k]) == Ok(objects[k]) {
      RecordLineDecodes(entries[k], cs);
    }
    DecodeAllOk(lines, DecodeLine(cs), objects);
  }

  /** Reading the output as a text file gives back the record lines: there
      is no carriage return to translate. */
  lemma ReadRecordLines(entries: seq<string>)
    ensures Lines(TranslateNewlines(Render(entries))) == RecordLines(entries)
  {
    var lines := RecordLines(entries);
    forall k | 0 <= k < |lines| ensures NoReturn(lines[k]) {
      RecordLinePrintable(entries[k]);
    }
    NoReturnConcat(lines);
    RenderLines(entries);
  }

  /** Loading what the converter writes gives back, line for line, an
      object whose "Title" is the original entry. */
  lemma RoundTrip(path: string, entries: seq<string>, cs: set<char>)
    requires IsJsonlPath(path)
    requires '{' !in cs && '}' !in cs
    ensures LoadSpec(path, Render(entries), cs) == Ok(TitleObjects(entries))
  {
    ReadRecordLines(entries);
    RecordLinesDecode(entries, cs);
  }
}
