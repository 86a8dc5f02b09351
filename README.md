# Ledger to JSONL converter, modelled in Dafny

This project models the converter in `src/processor/ledger/beancount_to_jsonl.py`.
The converter turns Beancount ledger files into JSON Lines records and reads such records back.
It works in five steps:

- **Locating the input** (`get_beancount_files`). The input set is the union of the explicit paths, resolved to absolute paths, and the files a glob filter matches. A warning set holds the files without a `.bean` or `.beancount` extension. Module `Locator`, file `locator.dfy`.
- **Extracting entries** (`extract_beancount_entries`). Each file's text is split at lines made only of "empty" characters. This uses `re.split('^[WS]*$', text, flags=re.MULTILINE)`, with WS the constant `empty_escape_sequences`. Segments that open with a transaction header (`^\n?\d{4}-\d{2}-\d{2} [\*|\!] `) are kept and stripped of those characters, file after file. Modules `BlankSplit` (the splitter, `blank_split.dfy`) and `Extraction` (the filter and the loop over the files, `extraction.dfy`).
- **Serialising** (`convert_beancount_entries_to_jsonl`). Each entry becomes the line `{"Title": "<entry>"}` plus a newline. The string encoder is that of `json.dumps(..., ensure_ascii=False)`. Modules `Json` (`json.dfy`) and `Jsonl` (`jsonl.dfy`).
- **Reading back** (`load_jsonl`). Each line of a `.gz` or `.jsonl` file is stripped of the empty characters and decoded with `json.loads`. Module `Jsonl`; its decoder is in `Json`.
- **The run** (`beancount_to_jsonl`). It refuses to run without input, then locates, extracts and serialises. The output path's suffix picks the writer: gzip for `.gz`, plain text for `.jsonl`, nothing otherwise. Module `Converter` (`converter.dfy`).

How the surroundings are modelled:

- `empty_escape_sequences` is an abstract character set `cs`. It serves both as the regex character class and as the argument of `str.strip`.
- The file system is a map from path to text. A path missing from the map is a file that cannot be read.
- `get_absolute_path` and `glob.glob` are function parameters.
- Iterating over a Python set visits its members in an order the program does not control. The methods choose each next file with `:|` and return the order they used as an out-parameter, since that order decides the order of the entries.
- Python exceptions and the `exit(1)` become `Result` errors.

The helpers in module `Text` (`text.dfy`) are `str.strip`, `str.endswith`, `str.find`/`rfind`, `str.replace`, and `PurePosixPath.name` and `.suffix`. As pathlib does, the name ignores trailing slashes and `.` components.

The model follows the code, including these details:

- The marker class `[\*|\!]` admits `|` as well as `*` and `!`.
- The header test runs on the raw segment, before stripping. A segment that opens with a space, or with two newlines, is dropped.
- A transaction that follows a comment line without a blank line between them is in the comment's segment. That segment does not open with a header, so the transaction is dropped.
- An entry is proved to open with the date when `cs` contains `\n` and no digit (`Extraction.EntriesOpenWithDate`). When `\n` is not in `cs`, an entry cut after a blank-line boundary keeps its leading newline.

## Model

| member | source | states |
|---|---|---|
| `Text.Strip` | src/processor/ledger/beancount_to_jsonl.py:123 | the result is the slice of the input after its longest leading run of `cs` characters; only `cs` characters follow it; it begins and ends outside `cs`; it is empty exactly when every character is in `cs` |
| `Text.FinalName` | src/processor/ledger/beancount_to_jsonl.py:34-37 | the name has no slash and is never `.`; a path without a slash is its own name (`out.jsonl` names `out.jsonl`), except `.`, whose name is empty; `FinalNameTrailingSlash`, `FinalNameTrailingDot` and `FinalNameOfJoin` show that trailing slashes and `.` components are ignored and that a proper last component is the name |
| `Text.FinalNameTrailingSlash` | src/processor/ledger/beancount_to_jsonl.py:34-37 | a trailing slash does not change a path's name |
| `Text.FinalNameTrailingDot` | src/processor/ledger/beancount_to_jsonl.py:34-37 | a trailing `/.` component does not change a path's name |
| `Text.FinalNameOfJoin` | src/processor/ledger/beancount_to_jsonl.py:34-37 | joining a directory and a component that is neither empty nor `.` and has no slash gives a path whose name is that component |
| `Text.Suffix` | src/processor/ledger/beancount_to_jsonl.py:34-37 | the suffix is non-empty exactly when the last dot of the final name lies strictly inside it (neither first nor last), and it is then the name's tail from that dot; it contains no further dot or slash |
| `Text.SuffixOfName` | src/processor/ledger/beancount_to_jsonl.py:34-37 | a final name `stem.ext` with a non-empty stem and a dot-free extension has suffix `.ext`, so `out.jsonl`, `dir/out.jsonl.gz` and `out.jsonl/` select their writers |
| `BlankSplit.BlankMatch` | src/processor/ledger/beancount_to_jsonl.py:117 | `^[WS]*$` matches at p exactly when p is a line start from which a run of `cs` characters reaches a line end; the match ends at the longest such run |
| `BlankSplit.Search` | src/processor/ledger/beancount_to_jsonl.py:125 | the match found is the leftmost accepted one: no position before it is accepted; an empty match right after an empty match is refused; none is found only when no position is accepted |
| `BlankSplit.SplitFrom` | src/processor/ledger/beancount_to_jsonl.py:125 | the segments from a position on tile the rest of the text; each gap is a match; the search from each segment's start, with the must-advance flag set after an empty match, finds exactly the gap that follows it, and the search from the last one finds nothing |
| `BlankSplit.Split` | src/processor/ledger/beancount_to_jsonl.py:125 | the segments tile the text from 0 to its end in order; consecutive segments are separated by exactly one blank-line match; no match starts strictly inside a segment |
| `BlankSplit.SplitSearches` | src/processor/ledger/beancount_to_jsonl.py:125 | the split is the one `re.split` makes: from each segment's start the leftmost accepted match (refusing an empty match right after an empty one) is exactly the gap to the next segment, and from the last segment's start no match is found |
| `BlankSplit.SplitReassembles` | src/processor/ledger/beancount_to_jsonl.py:125 | the segments interleaved with the separators give back the text, with one more segment than separators |
| `BlankSplit.SeparatorsAreBlank` | src/processor/ledger/beancount_to_jsonl.py:117 | every character of every separator is in `cs` |
| `Extraction.StartsTransaction` | src/processor/ledger/beancount_to_jsonl.py:116 | `re.match` of the header pattern; a segment it accepts has at least the 13 header characters; `SegmentKeepsHead` shows that the date survives stripping |
| `Extraction.Keep` | src/processor/ledger/beancount_to_jsonl.py:123-126 | the comprehension; it never yields more entries than there are segments (what it yields is fixed by `KeepSelects`) |
| `Extraction.SelectedExactly` | src/processor/ledger/beancount_to_jsonl.py:126 | a segment position is selected if and only if the segment opens with the transaction header (optional `\n`, date, space, `*`/`|`/`!`, space) |
| `Extraction.KeepSelects` | src/processor/ledger/beancount_to_jsonl.py:123-126 | the comprehension yields one entry per selected segment, in segment order, each the stripped segment; every header-opening segment is selected and the others are dropped |
| `Extraction.FileEntries` | src/processor/ledger/beancount_to_jsonl.py:121-126 | defined as the comprehension over the split of one file's text; its properties are stated by `FileEntriesInOrder` and `EntriesOpenWithDate` |
| `Extraction.FileEntriesInOrder` | src/processor/ledger/beancount_to_jsonl.py:121-126 | every entry is a contiguous slice of its file's text; the slices follow in text order without overlap; entries begin and end outside `cs`; no entry is empty when no digit is in `cs` |
| `Extraction.SegmentKeepsHead` | src/processor/ledger/beancount_to_jsonl.py:116 | when no digit is a stripped character, stripping a header-opening segment leaves a non-empty entry, and once `\n` is also stripped the entry opens with the date (and the full header when long enough) |
| `Extraction.EntriesOpenWithDate` | src/processor/ledger/beancount_to_jsonl.py:116-126 | every entry of a file opens with `DDDD-DD-DD`, and with the whole header `DDDD-DD-DD M ` when it has at least 13 characters |
| `Extraction.Gather` | src/processor/ledger/beancount_to_jsonl.py:120-126 | the loop over the files in a given order, appending each file's entries; a failure always names a path of the order that is not readable, and `GatherOkIff` and `ReadAllAppend` say when it fails and what it returns |
| `Extraction.ReadAll` | src/processor/ledger/beancount_to_jsonl.py:112-128 | defined as `Gather` with each text split into entries by `FileEntries`; `GatherOkIff`, `ReadAllAppend` and `ReadAllOpenWithDate` state its properties |
| `Extraction.GatherOkIff` | src/processor/ledger/beancount_to_jsonl.py:120-122 | reading the files succeeds exactly when every file in the order can be read |
| `Extraction.ReadAllAppend` | src/processor/ledger/beancount_to_jsonl.py:119-128 | the entries of several files are the concatenation of the per-file entries in iteration order; the first unreadable file stops the run |
| `Extraction.ReadAllOpenWithDate` | src/processor/ledger/beancount_to_jsonl.py:112-128 | every entry collected over all files opens with the date, and with the whole header when it is long enough |
| `Extraction.ExtractEntries` | src/processor/ledger/beancount_to_jsonl.py:112-128 | the loop visits each file at most once; its result is the entries of the files in the visiting order; it succeeds only after visiting all of them, and fails exactly when some file cannot be read |
| `Json.EscapeChar` | src/processor/ledger/beancount_to_jsonl.py:137 | the encoding of one character is non-empty and free of control characters, never starts with a quote, and is the character itself unless it starts with a backslash; a character other than a quote, a backslash or a control character, non-ASCII ones included, is written as itself (`ensure_ascii=False`) |
| `Json.Escape` | src/processor/ledger/beancount_to_jsonl.py:137 | the encoded body is never shorter than the string; `EscapeLiteral` shows that text needing no escape is kept literally, and `ScanEscaped` that the decoder inverts it |
| `Json.EscapeLiteral` | src/processor/ledger/beancount_to_jsonl.py:137 | with `ensure_ascii=False`, a string with no quote, no backslash and no control character, non-ASCII characters included, is its own encoding |
| `Json.TitleRecord` | src/processor/ledger/beancount_to_jsonl.py:135-137 | defined as `json.dumps({'Title': entry}, ensure_ascii=False)`; its properties are stated by `TitleRecordPrintable` (no control character) and `TitleRecordDecodes` (it decodes back to the entry) |
| `Json.EscapePrintable` | src/processor/ledger/beancount_to_jsonl.py:137 | the escaped text contains no control character, so an entry's newlines never reach a record raw |
| `Json.TitleRecordPrintable` | src/processor/ledger/beancount_to_jsonl.py:137 | a whole `{"Title": e}` record contains no control character, so it fits on one line |
| `Json.ScanEscaped` | src/processor/ledger/beancount_to_jsonl.py:75 | scanning the body of an encoded string gives back the original string exactly and stops after its closing quote |
| `Json.CodePoint` | src/processor/ledger/beancount_to_jsonl.py:75 | the character of a `\uXXXX` escape: a high surrogate followed by a `\u` escape of a low surrogate is combined with it, any other surrogate is refused; it consumes nothing beyond its input |
| `Json.Unescape` | src/processor/ledger/beancount_to_jsonl.py:75 | the backslash escapes of `json.loads` (the eight short ones and `\uXXXX`), each consuming at least one character; `UnescapeOfEscape` shows it reads back every escape the encoder writes |
| `Json.UnescapeOfEscape` | src/processor/ledger/beancount_to_jsonl.py:75 | each escape sequence that `json.dumps` writes for a character is read back by `json.loads` as that character |
| `Json.ScanPlain` | src/processor/ledger/beancount_to_jsonl.py:75 | a string body with no quote, backslash or control character is read back as itself |
| `Json.TitleRecordDecodes` | src/processor/ledger/beancount_to_jsonl.py:75 | `json.loads` of a `{"Title": e}` record, with or without its newline, is the object with the single field Title = e |
| `Json.ScanString` | src/processor/ledger/beancount_to_jsonl.py:75 | the strict string scanner of `json.loads`; what it leaves after the closing quote is shorter than its input |
| `Json.ParseMembers` | src/processor/ledger/beancount_to_jsonl.py:75 | the object-member loop of `json.loads`, where a repeated key keeps its last value; what follows the closing brace is shorter than its input |
| `Json.Decode` | src/processor/ledger/beancount_to_jsonl.py:75 | `json.loads` on the decoded subset: it returns a value only when the first non-whitespace character opens a string or an object, and an object only for `{` |
| `Jsonl.RecordLine` | src/processor/ledger/beancount_to_jsonl.py:135-137 | defined as one appended line, the record and a newline; its properties are stated by `RecordLinePrintable`, `StripRecordLine` and `RecordLineDecodes` |
| `Jsonl.Render` | src/processor/ledger/beancount_to_jsonl.py:133-137 | the concatenated record lines; empty exactly when there are no entries |
| `Jsonl.ToJsonl` | src/processor/ledger/beancount_to_jsonl.py:131-142 | the `+=` loop yields the record lines of the entries, in order; no entries give the empty string |
| `Jsonl.RenderNewlines` | src/processor/ledger/beancount_to_jsonl.py:137 | the JSONL text contains exactly as many newline characters as there are entries |
| `Jsonl.RecordLinePrintable` | src/processor/ledger/beancount_to_jsonl.py:137 | a record line ends with its newline and has no control character before it |
| `Jsonl.RecordLineNewlines` | src/processor/ledger/beancount_to_jsonl.py:137 | a record line contains exactly one newline character |
| `Jsonl.RenderLines` | src/processor/ledger/beancount_to_jsonl.py:133-137 | reading the JSONL text line by line gives exactly one `{"Title": e}` line per entry, in order, each ending in a newline |
| `Jsonl.Lines` | src/processor/ledger/beancount_to_jsonl.py:74 | the lines of a file concatenate back to its text; each is non-empty with no newline before its end, and all but the last end in a newline |
| `Jsonl.TranslateNewlines` | src/processor/ledger/beancount_to_jsonl.py:68-71 | universal-newline reading leaves no carriage return, and leaves a text without carriage returns unchanged |
| `Jsonl.TranslateIsReplace` | src/processor/ledger/beancount_to_jsonl.py:68-71 | the translation equals replacing every `\r\n` by `\n` and then every remaining `\r` by `\n`, which is the universal-newline rule of Python's text files |
| `Jsonl.DecodeAllStops` | src/processor/ledger/beancount_to_jsonl.py:74-75 | once a line fails to decode, the lines after it do not change the result: the read fails with that line's error |
| `Jsonl.DecodeAll` | src/processor/ledger/beancount_to_jsonl.py:74-75 | the loop over the lines: on success one value per line; a failure is a bad line of the file, with its index; `DecodeAllFirstBad` pins both cases |
| `Jsonl.DecodeAllFirstBad` | src/processor/ledger/beancount_to_jsonl.py:74-75 | a successful read holds each line's own decoded value; a failed read names the first line that does not decode, with that line's own error, as the exception from `json.loads` ends the loop |
| `Jsonl.DecodeAllOk` | src/processor/ledger/beancount_to_jsonl.py:74-75 | when every line decodes, the result is the decoded values, one per line, in file order |
| `Jsonl.DecodeEach` | src/processor/ledger/beancount_to_jsonl.py:74-75 | the `for line in jsonl_file` loop appends each decoded line in order and stops at the first line that does not decode, reporting its index |
| `Jsonl.DecodeLine` | src/processor/ledger/beancount_to_jsonl.py:75 | `json.loads(line.strip(empty_escape_sequences))` as a function of the line; its behaviour on record lines is stated by `DecodeRecordLine` |
| `Jsonl.LoadSpec` | src/processor/ledger/beancount_to_jsonl.py:61-84 | what `load_jsonl` returns; the error `NotJsonl` comes exactly from a path whose suffix is neither `.gz` nor `.jsonl` |
| `Jsonl.LoadJsonl` | src/processor/ledger/beancount_to_jsonl.py:61-84 | the loop decodes every stripped line in order and fails at the first one that does not decode; a path that is neither `.gz` nor `.jsonl` gives an error |
| `Jsonl.StripRecordLine` | src/processor/ledger/beancount_to_jsonl.py:75 | stripping a record line leaves the record, with its newline exactly when the newline is not a stripped character |
| `Jsonl.DecodeRecordLine` | src/processor/ledger/beancount_to_jsonl.py:75 | a record line, stripped and decoded, is the object whose only field Title is the entry |
| `Jsonl.RecordLineDecodes` | src/processor/ledger/beancount_to_jsonl.py:75 | when neither brace is a stripped character, the per-line decoder of the file reader gives back the object with the single field Title = the entry |
| `Jsonl.RecordLinesDecode` | src/processor/ledger/beancount_to_jsonl.py:74-75 | decoding the record lines of several entries gives one Title object per entry, in order |
| `Jsonl.ReadRecordLines` | src/processor/ledger/beancount_to_jsonl.py:68-74 | reading the serialised text back, newline translation and line splitting give exactly the record lines that were written |
| `Jsonl.RoundTrip` | src/processor/ledger/beancount_to_jsonl.py:61-84 | loading the serialised entries gives one object per entry, in order, whose Title equals the entry exactly |
| `Locator.LocateFiles` | src/processor/ledger/beancount_to_jsonl.py:87-109 | the input set is the union of the resolved explicit paths and the glob matches of a non-empty filter; the warning set is exactly its members without `.bean`/`.beancount` and is a subset of it; the warning fires exactly when one of them is a non-empty string |
| `Converter.WriteFor` | src/processor/ledger/beancount_to_jsonl.py:34-37 | suffix `.gz` selects the compressed writer and `.jsonl` the plain one, both with the same path and data; any other suffix writes nothing |
| `Converter.RunWith` | src/processor/ledger/beancount_to_jsonl.py:25-39 | a run over the files in a given order succeeds exactly when every file in the order can be read, and otherwise names an unreadable file of the order |
| `Converter.Convert` | src/processor/ledger/beancount_to_jsonl.py:18-39 | without any input the run fails before any file is located or read; otherwise it reads each located file once, returns the entries and writes their JSONL text as the suffix selects, and fails exactly when a located file cannot be read |
| `Converter.WrittenReadsBack` | src/processor/ledger/beancount_to_jsonl.py:31-37 | whatever a run writes loads back as one `{"Title": e}` object per returned entry |
| `Converter.WrittenTitlesAreTransactions` | src/processor/ledger/beancount_to_jsonl.py:28-39 | every entry a run returns opens with a date, and with a full transaction header when it is long enough |

## Left out

- File reading, file writing, gzip compression and the encodings of open files are not modelled. A ledger file's text is the text Python's text mode reads, and what is written is given as text.
- `get_absolute_path` and `glob.glob` are parameters. `src/utils/helpers.py` and `src/utils/constants.py` are not part of this model. The contents of `empty_escape_sequences` are an abstract set.
- The model assumes that inserting `empty_escape_sequences` into `^[...]*$` gives a character class of exactly those characters. Characters such as `]`, `\` or `^` in the constant would change the pattern, and that is not modelled.
- `\d` matches only the ASCII digits here. Python also accepts other Unicode decimal digits.
- The splitter follows `re.split` from Python 3.7 on, where empty matches split. Older versions skip them.
- The decoder handles only strings and objects whose member values are strings, which is all a record contains. Numbers, arrays, literals and nested objects give `Unsupported`. It recognises them by their first character only, so a bad literal such as `nul` is also `Unsupported` rather than malformed.
- A `\u` escape of an unpaired surrogate gives `LoneSurrogate`. A Dafny character cannot hold one; Python would return a string that contains it.
- A path that is neither `.gz` nor `.jsonl` makes `load_jsonl` raise a `TypeError` while iterating `None`. Here it is the error `NotJsonl`.
- Verbose logging, including the line counts printed at lines 48 and 57, is not modelled. Neither are the `argparse` block at lines 145-155 and the unused `orgnode` import.
- Failing to write the output file is not modelled.
- `Jsonl.RoundTrip` holds only when `{` and `}` are not among the stripped characters. Otherwise stripping eats the braces of a record.
- `Converter.WrittenReadsBack` holds only when `{` and `}` are not among the stripped characters, for the same reason.
- `Extraction.EntriesOpenWithDate` holds only when no digit is a stripped character and `\n` is one. Otherwise the strip may eat into the date, or leave the leading newline in place.
