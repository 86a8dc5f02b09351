/** The entry extractor (`extract_beancount_entries`): split each file's text
    at blank lines, keep the segments that open with a transaction header,
    strip blank characters from both ends of each kept segment, and collect
    the results file after file. `cs` stands for the module constant
    `empty_escape_sequences`, which is used both as the blank-line character
    class and as the set of characters to strip. */
module Extraction {
  import opened Text
  import opened BlankSplit

  type Path = string

  /** `\d`, restricted to the ASCII digits. */
  predicate IsDigit(c: char)
  {
    '0' <= c <= '9'
  }

  /** `[\*|\!]`: inside a character class `|` is an ordinary character, so
      the class admits '|' as well as '*' and '!'. */
  predicate IsMarker(c: char)
  {
    c == '*' || c == '|' || c == '!'
  }

  /** `\d{4}-\d{2}-\d{2}` on the first ten characters. */
  predicate IsDate(t: string)
  {
    && |t| >= 10
    && IsDigit(t[0]) && IsDigit(t[1]) && IsDigit(t[2]) && IsDigit(t[3])
    && t[4] == '-' && IsDigit(t[5]) && IsDigit(t[6])
    && t[7] == '-' && IsDigit(t[8]) && IsDigit(t[9])
  }

  /** `\d{4}-\d{2}-\d{2} [\*|\!] `: a date, a space, a marker and a space. */
  predicate TransactionHead(t: string)
  {
    |t| >= 13 && IsDate(t) && t[10] == ' ' && IsMarker(t[11]) && t[12] == ' '
  }

  /** `re.match(r'^\n?\d{4}-\d{2}-\d{2} [\*|\!] ', t)`: the header, either at
      the very start or right after one leading newline. */
  predicate StartsTransaction(t: string)
    ensures StartsTransaction(t) ==> |t| >= 13
  {
    TransactionHead(t) || (|t| > 0 && t[0] == '\n' && TransactionHead(t[1..]))
  }

  /** No decimal digit is a blank character. */
  predicate NoDigits(cs: set<char>)
  {
    forall c :: IsDigit(c) ==> c !in cs
  }

  /** The list comprehension over the segments: keep those that open with a
      transaction header, stripped, in their order. */
  function Keep(segs: seq<string>, cs: set<char>): (r: seq<string>)
    ensures |r| <= |segs|
  {
    if segs == [] then []
    else (if StartsTransaction(segs[0]) then [Strip(segs[0], cs)] else []) + Keep(segs[1..], cs)
  }

  /** The positions, from i on, of the segments that open with a transaction
      header, in increasing order. */
  function Selected(segs: seq<string>, i: nat): (r: seq<nat>)
    requires i <= |segs|
    ensures forall j :: 0 <= j < |r| ==> i <= r[j] < |segs|
    ensures forall j, j' :: 0 <= j < j' < |r| ==> r[j] < r[j']
    decreases |segs| - i
  {
    if i == |segs| then []
    else
      var rest := Selected(segs, i + 1);
      if StartsTransaction(segs[i]) then [i] + rest else rest
  }

  /** Selected lists a position exactly when its segment opens with a
      transaction header. */
  lemma {:induction false} SelectedExactly(segs: seq<string>, i: nat)
    requires i <= |segs|
    ensures forall j :: 0 <= j < |Selected(segs, i)| ==> StartsTransaction(segs[Selected(segs, i)[j]])
    ensures forall k :: i <= k < |segs| && StartsTransaction(segs[k]) ==> k in Selected(segs, i)
    decreases |segs| - i
  {
    if i < |segs| {
      SelectedExactly(segs, i + 1);
    }
  }

  /** One step of the comprehension, on a suffix of the segments. */
  lemma KeepStep(segs: seq<string>, cs: set<char>, i: nat)
    requires i < |segs|
    ensures Keep(segs[i..], cs)
              == (if StartsTransaction(segs[i]) then [Strip(segs[i], cs)] else []) + Keep(segs[i + 1..], cs)
  {
    assert segs[i..][1..] == segs[i + 1..];
  }

  lemma {:induction false} KeepFrom(segs: seq<string>, cs: set<char>, i: nat)
    requires i <= |segs|
    ensures |Keep(segs[i..], cs)| == |Selected(segs, i)|
    ensures forall j :: 0 <= j < |Selected(segs, i)| ==>
              Keep(segs[i..], cs)[j] == Strip(segs[Selected(segs, i)[j]], cs)
    decreases |segs| - i
  {
    if i < |segs| {
      KeepFrom(segs, cs, i + 1);
      KeepStep(segs, cs, i);
      var tail, rest := Keep(segs[i + 1..], cs), Selected(segs, i + 1);
      var all, sel := Keep(segs[i..], cs), Selected(segs, i);
      if StartsTransaction(segs[i]) {
        assert all == [Strip(segs[i], cs)] + tail;
        assert sel == [i] + rest;
        forall j | 0 <= j < |sel| ensures all[j] == Strip(segs[sel[j]], cs) {
          if j == 0 {
            assert all[0] == Strip(segs[i], cs) && sel[0] == i;
          } else {
            assert all[j] == tail[j - 1] && sel[j] == rest[j - 1];
          }
        }
      } else {
        assert all == tail;
        assert sel == rest;
      }
    }
  }

  /** The filter keeps exactly the segments that open with a transaction
      header, drops the others silently, strips each kept one and keeps their
      order: entry j is the stripped segment at the j-th selected position. */
  lemma KeepSelects(segs: seq<string>, cs: set<char>)
    ensures |Keep(segs, cs)| == |Selected(segs, 0)|
    ensures forall k :: 0 <= k < |segs| && StartsTransaction(segs[k]) ==> k in Selected(segs, 0)
    ensures forall j :: 0 <= j < |Selected(segs, 0)| ==>
              StartsTransaction(segs[Selected(segs, 0)[j]]) &&
              Keep(segs, cs)[j] == Strip(segs[Selected(segs, 0)[j]], cs)
  {
    KeepFrom(segs, cs, 0);
    SelectedExactly(segs, 0);
    assert segs[0..] == segs;
  }

  /** The entries of one file's text. */
  function FileEntries(text: string, cs: set<char>): seq<string>
  {
    Keep(Segments(text, cs), cs)
  }

  lemma SliceOfSlice(s: string, lo: nat, hi: nat, i: nat, j: nat)
    requires lo <= hi <= |s| && i <= j <= hi - lo
    ensures s[lo..hi][i..j] == s[lo + i..lo + j]
  {
    assert forall k :: 0 <= k < j - i ==> s[lo..hi][i..j][k] == s[lo + i + k];
  }

  /** Where, in its segment's span, a kept segment lies once stripped. */
  function StrippedSpan(text: string, sp: Span, cs: set<char>): (r: Span)
    requires sp.lo <= sp.hi <= |text|
    ensures sp.lo <= r.lo <= r.hi <= sp.hi
    ensures Strip(text[sp.lo..sp.hi], cs) == text[r.lo..r.hi]
  {
    var seg := text[sp.lo..sp.hi];
    var a := LeadLen(seg, cs);
    var n := |Strip(seg, cs)|;
    SliceOfSlice(text, sp.lo, sp.hi, a, a + n);
    Span(sp.lo + a, sp.lo + a + n)
  }

  /** The positions in the text of the entries of one file. */
  function EntrySpans(text: string, cs: set<char>): (r: seq<Span>)
    ensures |r| == |Selected(Segments(text, cs), 0)|
  {
    var sp := Split(text, cs);
    var idx := Selected(Segments(text, cs), 0);
    seq(|idx|, j requires 0 <= j < |idx| => StrippedSpan(text, sp[idx[j]], cs))
  }

  /** Entry j is the slice of the text at its span, inside the span of the
      segment it comes from. */
  lemma EntryAtSpan(text: string, cs: set<char>, j: nat)
    requires j < |EntrySpans(text, cs)|
    ensures var ps, sp, idx := EntrySpans(text, cs), Split(text, cs), Selected(Segments(text, cs), 0);
      && |FileEntries(text, cs)| == |ps|
      && ps[j].lo <= ps[j].hi <= |text| && FileEntries(text, cs)[j] == text[ps[j].lo..ps[j].hi]
      && sp[idx[j]].lo <= ps[j].lo && ps[j].hi <= sp[idx[j]].hi
  {
    var segs := Segments(text, cs);
    var sp := Split(text, cs);
    var idx := Selected(segs, 0);
    KeepSelects(segs, cs);
    assert segs[idx[j]] == text[sp[idx[j]].lo..sp[idx[j]].hi];
  }

  /** The entries' spans follow each other without overlap. */
  lemma EntrySpansOrdered(text: string, cs: set<char>)
    ensures var ps := EntrySpans(text, cs);
      forall j, j' :: 0 <= j < j' < |ps| ==> ps[j].hi <= ps[j'].lo
  {
    var ps := EntrySpans(text, cs);
    var sp := Split(text, cs);
    var idx := Selected(Segments(text, cs), 0);
    forall j, j' | 0 <= j < j' < |ps| ensures ps[j].hi <= ps[j'].lo {
      EntryAtSpan(text, cs, j);
      EntryAtSpan(text, cs, j');
      assert sp[idx[j]].hi <= sp[idx[j']].lo;
    }
  }

  /** The j-th kept segment is the stripped form of a segment that opens
      with a transaction header. */
  lemma KeptAt(segs: seq<string>, cs: set<char>, j: nat)
    requires j < |Keep(segs, cs)|
    ensures j < |Selected(segs, 0)| && Selected(segs, 0)[j] < |segs|
    ensures StartsTransaction(segs[Selected(segs, 0)[j]])
    ensures Keep(segs, cs)[j] == Strip(segs[Selected(segs, 0)[j]], cs)
  {
    KeepSelects(segs, cs);
  }

  /** Entry j begins and ends with a character outside cs, and is not
      empty when no digit is blank. */
  lemma EntryEnds(text: string, cs: set<char>, j: nat)
    requires j < |FileEntries(text, cs)|
    ensures var e := FileEntries(text, cs)[j];
      e != [] ==> e[0] !in cs && e[|e| - 1] !in cs
    ensures NoDigits(cs) ==> FileEntries(text, cs)[j] != []
  {
    var segs := Segments(text, cs);
    var idx := Selected(segs, 0);
    KeptAt(segs, cs, j);
    var seg := segs[idx[j]];
    if NoDigits(cs) {
      SegmentKeepsHead(seg, cs);
    }
  }

  /** Every entry of a file is a slice of its text, the slices follow each
      other in the text's order without overlap, and each entry begins and
      ends with a character outside cs. When no digit is blank, no entry is
      empty. */
  lemma FileEntriesInOrder(text: string, cs: set<char>)
    ensures var es, ps := FileEntries(text, cs), EntrySpans(text, cs);
      && |es| == |ps|
      && (forall j :: 0 <= j < |ps| ==> ps[j].lo <= ps[j].hi <= |text| && es[j] == text[ps[j].lo..ps[j].hi])
      && (forall j, j' :: 0 <= j < j' < |ps| ==> ps[j].hi <= ps[j'].lo)
      && (forall j :: 0 <= j < |es| && es[j] != [] ==> es[j][0] !in cs && es[j][|es[j]| - 1] !in cs)
    ensures NoDigits(cs) ==> forall j :: 0 <= j < |FileEntries(text, cs)| ==> FileEntries(text, cs)[j] != []
  {
    var es, ps := FileEntries(text, cs), EntrySpans(text, cs);
    KeepSelects(Segments(text, cs), cs);
    forall j | 0 <= j < |ps| ensures ps[j].lo <= ps[j].hi <= |text| && es[j] == text[ps[j].lo..ps[j].hi] {
      EntryAtSpan(text, cs, j);
    }
    EntrySpansOrdered(text, cs);
    forall j | 0 <= j < |es|
      ensures (es[j] != [] ==> es[j][0] !in cs && es[j][|es[j]| - 1] !in cs)
      ensures NoDigits(cs) ==> es[j] != []
    {
      EntryEnds(text, cs, j);
    }
  }

  /** A segment that opens with a transaction header has a digit that
      stripping does not remove (when digits are not blank): the entry made
      from it starts with the date, and with the whole header unless the
      strip from the right cut into it. */
  lemma SegmentKeepsHead(seg: string, cs: set<char>)
    requires StartsTransaction(seg) && NoDigits(cs)
    ensures Strip(seg, cs) != []
    ensures '\n' in cs ==> IsDate(Strip(seg, cs))
    ensures '\n' in cs && |Strip(seg, cs)| >= 13 ==> TransactionHead(Strip(seg, cs))
  {
    var o := if TransactionHead(seg) then 0 else 1;
    assert IsDigit(seg[o]) && IsDigit(seg[o + 9]);
    assert seg[o + 9] !in cs;
    var a := LeadLen(seg, cs);
    var e := Strip(seg, cs);
    assert a <= o;
    if '\n' in cs {
      assert a == o;
      assert a + |e| >= o + 10;
      assert forall i :: 0 <= i < |e| ==> e[i] == seg[o + i];
    }
  }

  /** When '\n' is blank and no digit is, every entry of a file starts with
      its `YYYY-MM-DD` date, and with the whole transaction header (date,
      space, marker, space) unless the entry is shorter than the header. */
  lemma EntriesOpenWithDate(text: string, cs: set<char>)
    requires NoDigits(cs) && '\n' in cs
    ensures forall e :: e in FileEntries(text, cs) ==> IsDate(e) && (|e| >= 13 ==> TransactionHead(e))
  {
    var segs := Segments(text, cs);
    var idx := Selected(segs, 0);
    KeepSelects(segs, cs);
    forall e | e in FileEntries(text, cs) ensures IsDate(e) && (|e| >= 13 ==> TransactionHead(e)) {
      var j :| 0 <= j < |FileEntries(text, cs)| && FileEntries(text, cs)[j] == e;
      SegmentKeepsHead(segs[idx[j]], cs);
    }
  }

  /** The entries of the files read in the given order, each file's text
      turned into entries by `extract`, or the first file (in that order)
      that cannot be read. `fs` maps each readable path to its text. */
  function Gather(order: seq<Path>, fs: map<Path, string>, extract: string -> seq<string>): (r: Result<seq<string>, Path>)
    ensures r.Err? ==> r.error in order && r.error !in fs
    decreases |order|
  {
    if order == [] then Ok([])
    else
      var p := order[|order| - 1];
      match Gather(order[..|order| - 1], fs, extract)
      case Err(q) => Err(q)
      case Ok(es) => if p in fs then Ok(es + extract(fs[p])) else Err(p)
  }

  /** What the extractor returns for the files read in the given order. */
  function ReadAll(order: seq<Path>, fs: map<Path, string>, cs: set<char>): (r: Result<seq<string>, Path>)
  {
    Gather(order, fs, text => FileEntries(text, cs))
  }

  /** Reading fails exactly when some file in the order cannot be read. */
  lemma {:induction false} GatherOkIff(order: seq<Path>, fs: map<Path, string>, extract: string -> seq<string>)
    ensures Gather(order, fs, extract).Ok? <==> forall i :: 0 <= i < |order| ==> order[i] in fs
    decreases |order|
  {
    if order != [] {
      var init := order[..|order| - 1];
      GatherOkIff(init, fs, extract);
      assert forall i :: 0 <= i < |init| ==> init[i] == order[i];
    }
  }

  /** A file that cannot be read stops the reading: once the first files
      fail, reading more after them fails the same way. */
  lemma {:induction false} GatherAppendErr(o1: seq<Path>, o2: seq<Path>, fs: map<Path, string>, extract: string -> seq<string>)
    requires Gather(o1, fs, extract).Err?
    ensures Gather(o1 + o2, fs, extract) == Gather(o1, fs, extract)
    decreases |o2|
  {
    if o2 == [] {
      assert o1 + o2 == o1;
    } else {
      var init := o2[..|o2| - 1];
      GatherAppendErr(o1, init, fs, extract);
      assert (o1 + o2)[..|o1 + o2| - 1] == o1 + init;
    }
  }

  /** Several files give the concatenation of their entries in iteration
      order: when the first files read, reading more after them yields their
      entries followed by those of the rest, or the rest's first unreadable
      file. */
  lemma {:induction false} GatherAppend(o1: seq<Path>, o2: seq<Path>, fs: map<Path, string>, extract: string -> seq<string>)
    requires Gather(o1, fs, extract).Ok?
    ensures Gather(o2, fs, extract).Err? ==> Gather(o1 + o2, fs, extract) == Gather(o2, fs, extract)
    ensures Gather(o2, fs, extract).Ok? ==>
              Gather(o1 + o2, fs, extract) == Ok(Gather(o1, fs, extract).value + Gather(o2, fs, extract).value)
    decreases |o2|
  {
    var a := Gather(o1, fs, extract).value;
    if o2 == [] {
      assert o1 + o2 == o1;
      assert a + [] == a;
    } else {
      var init, p := o2[..|o2| - 1], o2[|o2| - 1];
      GatherAppend(o1, init, fs, extract);
      assert (o1 + o2)[..|o1 + o2| - 1] == o1 + init;
      assert (o1 + o2)[|o1 + o2| - 1] == p;
      var ri := Gather(init, fs, extract);
      if ri.Ok? && p in fs {
        var b, f := ri.value, extract(fs[p]);
        assert a + b + f == a + (b + f);
      }
    }
  }

  /** The result for several files is the concatenation of the per-file
      results in iteration order; a file that cannot be read stops it. */
  lemma ReadAllAppend(o1: seq<Path>, o2: seq<Path>, fs: map<Path, string>, cs: set<char>)
    ensures ReadAll(o1, fs, cs).Err? ==> ReadAll(o1 + o2, fs, cs) == ReadAll(o1, fs, cs)
    ensures ReadAll(o1, fs, cs).Ok? && ReadAll(o2, fs, cs).Err? ==>
              ReadAll(o1 + o2, fs, cs) == ReadAll(o2, fs, cs)
    ensures ReadAll(o1, fs, cs).Ok? && ReadAll(o2, fs, cs).Ok? ==>
              ReadAll(o1 + o2, fs, cs) == Ok(ReadAll(o1, fs, cs).value + ReadAll(o2, fs, cs).value)
  {
    var f := text => FileEntries(text, cs);
    if Gather(o1, fs, f).Err? {
      GatherAppendErr(o1, o2, fs, f);
    } else {
      GatherAppend(o1, o2, fs, f);
    }
  }

  /** A property every file's entries have holds of all the entries read. */
  lemma {:induction false} GatherKeeps(order: seq<Path>, fs: map<Path, string>, extract: string -> seq<string>,
                                       good: string -> bool)
    requires forall text, e :: e in extract(text) ==> good(e)
    ensures Gather(order, fs, extract).Ok? ==> forall e :: e in Gather(order, fs, extract).value ==> good(e)
    decreases |order|
  {
    if order != [] {
      GatherKeeps(order[..|order| - 1], fs, extract, good);
    }
  }

  /** Every entry read from the files opens with a date, and with the whole
      transaction header when it is long enough. */
  lemma ReadAllOpenWithDate(order: seq<Path>, fs: map<Path, string>, cs: set<char>)
    requires NoDigits(cs) && '\n' in cs
    ensures ReadAll(order, fs, cs).Ok? ==>
      forall e :: e in ReadAll(order, fs, cs).value ==> IsDate(e) && (|e| >= 13 ==> TransactionHead(e))
  {
    var f := text => FileEntries(text, cs);
    var good := e => IsDate(e) && (|e| >= 13 ==> TransactionHead(e));
    forall text, e | e in f(text) ensures good(e) {
      EntriesOpenWithDate(text, cs);
    }
    GatherKeeps(order, fs, f, good);
  }

  predicate Distinct(order: seq<Path>)
  {
    forall i, j :: 0 <= i < j < |order| ==> order[i] != order[j]
  }

  /** `extract_beancount_entries` over a set of paths: the files are read in
      whatever order iterating the set yields (`order`, each path once), the
      entries of each file are appended to the list, and the first file that
      cannot be read ends the run with an error. On success every file was
      read; an error happens exactly when some file cannot be read. */
  method ExtractEntries(files: set<Path>, fs: map<Path, string>, cs: set<char>)
    returns (r: Result<seq<string>, Path>, order: seq<Path>)
    ensures Distinct(order) && forall i :: 0 <= i < |order| ==> order[i] in files
    ensures r == ReadAll(order, fs, cs)
    ensures r.Ok? ==> forall p :: p in files ==> p in order
    ensures r.Err? <==> exists p :: p in files && p !in fs
  {
    var entries: seq<string> := [];
    var remaining := files;
    order := [];
    while remaining != {}
      invariant remaining <= files
      invariant Distinct(order)
      invariant forall p :: p in order <==> p in files && p !in remaining
      invariant ReadAll(order, fs, cs) == Ok(entries)
      decreases remaining
    {
      var p :| p in remaining;
      assert (order + [p])[..|order|] == order;
      order := order + [p];
      if p !in fs {
        r := Err(p);
        return;
      }
      entries := entries + FileEntries(fs[p], cs);
      remaining := remaining - {p};
    }
    r := Ok(entries);
    GatherOkIff(order, fs, text => FileEntries(text, cs));
  }
}
