/** `beancount_to_jsonl`: checks that some input was named, locates the
    files, extracts their entries, renders them as JSON Lines and picks the
    writer from the output path's suffix. The file system is a map from path
    to text; a path missing from it is a file that cannot be read. */
module Converter {
  import opened Text
  import opened Extraction
  import opened Jsonl
  import opened Locator

  /** What the run writes. */
  datatype Written =
    | Compressed(path: Path, data: string)  // gzip-compressed, for a ".gz" output path
    | Plain(path: Path, data: string)       // as text, for a ".jsonl" output path
    | Nothing                               // for any other output path

  datatype RunError =
    | MissingInput         // neither input files nor a filter: the process exits with status 1
    | Unreadable(path: Path)

  /** The returned entries and what is written. */
  datatype Outcome = Outcome(entries: seq<string>, written: Written)

  /** The writer the output path's suffix selects. */
  function WriteFor(output: Path, jsonl: string): (w: Written)
    ensures w.Compressed? <==> Suffix(output) == ".gz"
    ensures w.Plain? <==> Suffix(output) == ".jsonl"
    ensures !w.Nothing? ==> w.path == output && w.data == jsonl
  {
    if Suffix(output) == ".gz" then Compressed(output, jsonl)
    else if Suffix(output) == ".jsonl" then Plain(output, jsonl)
    else Nothing
  }

  /** The result of a run that reads the files in the given order. */
  function RunWith(order: seq<Path>, fs: map<Path, string>, cs: set<char>, output: Path): (r: Result<Outcome, RunError>)
    ensures r.Ok? <==> forall i :: 0 <= i < |order| ==> order[i] in fs
    ensures r.Err? ==> r.error.Unreadable? && r.error.path in order && r.error.path !in fs
  {
    GatherOkIff(order, fs, text => FileEntries(text, cs));
    match ReadAll(order, fs, cs)
    case Err(p) => Err(Unreadable(p))
    case Ok(entries) => Ok(Outcome(entries, WriteFor(output, Render(entries))))
  }

  /** A run. Without any input it stops before any file is located or read.
      Otherwise it reads every located file once, in some order, and its
      result is that of reading them in that order; it fails exactly when
      some located file cannot be read. */
  method Convert(explicit: Option<seq<Path>>, filter: Option<string>, output: Path,
                 fs: map<Path, string>, cs: set<char>,
                 absolute: Path -> Path, glob: string -> set<Path>)
    returns (r: Result<Outcome, RunError>, order: seq<Path>)
    ensures NoneOrEmpty(explicit) && NoneOrEmpty(filter) ==> r == Err(MissingInput) && order == []
    ensures !(NoneOrEmpty(explicit) && NoneOrEmpty(filter)) ==>
      var files := LocateFiles(explicit, filter, absolute, glob).files;
      && Distinct(order)
      && (forall i :: 0 <= i < |order| ==> order[i] in files)
      && r == RunWith(order, fs, cs, output)
      && (r.Ok? ==> forall p :: p in files ==> p in order)
      && (r.Err? <==> exists p :: p in files && p !in fs)
  {
    if NoneOrEmpty(explicit) && NoneOrEmpty(filter) {
      return Err(MissingInput), [];
    }
    var located := LocateFiles(explicit, filter, absolute, glob);
    var extracted;
    extracted, order := ExtractEntries(located.files, fs, cs);
    match extracted {
      case Err(p) =>
        r := Err(Unreadable(p));
      case Ok(entries) =>
        var jsonl := ToJsonl(entries);
        r := Ok(Outcome(entries, WriteFor(output, jsonl)));
    }
  }

  /** Whatever a run writes reads back, line for line, as objects whose
      "Title" is each returned entry, as long as the stripped characters do
      not include the braces. */
  lemma WrittenReadsBack(order: seq<Path>, fs: map<Path, string>, cs: set<char>, output: Path)
    requires RunWith(order, fs, cs, output).Ok?
    requires !RunWith(order, fs, cs, output).value.written.Nothing?
    requires '{' !in cs && '}' !in cs
    ensures var o := RunWith(order, fs, cs, output).value;
      LoadSpec(o.written.path, o.written.data, cs) == Ok(TitleObjects(o.entries))
  {
    var o := RunWith(order, fs, cs, output).value;
    RoundTrip(output, o.entries, cs);
  }

  /** Every written title is a ledger transaction: it opens with a date,
      and with the whole transaction header when it is long enough. */
  lemma WrittenTitlesAreTransactions(order: seq<Path>, fs: map<Path, string>, cs: set<char>, output: Path)
    requires RunWith(order, fs, cs, output).Ok?
    requires NoDigits(cs) && '\n' in cs
    ensures forall e :: e in RunWith(order, fs, cs, output).value.entries ==>
      IsDate(e) && (|e| >= 13 ==> TransactionHead(e))
  {
    ReadAllOpenWithDate(order, fs, cs);
  }
}
