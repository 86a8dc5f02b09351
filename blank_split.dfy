/** The blank-line splitter of the entry extractor: Python's
    `re.split('^[WS]*$', text, flags=re.MULTILINE)` for a character class WS
    (here the set `cs`), written out for this one pattern rather than as a
    regular-expression engine.

    The pattern can only match at a line start (`^`: position 0 or just after
    a '\n'). From there `[WS]*` greedily takes the longest run of characters
    of `cs` (which may cross line breaks when '\n' is in `cs`) and gives
    characters back until `$` holds (the end of the text or just before a
    '\n'). `re.split` (Python 3.7 and later) searches for the leftmost match
    from the end of the previous one; an empty match is allowed, except an
    empty match at the very position where the previous match, itself empty,
    ended. The text between matches, and after the last one, are the
    segments. */
module BlankSplit {
  import opened Text

  /** A half-open range [lo, hi) of positions in a text. */
  datatype Span = Span(lo: nat, hi: nat)

  /** `^` in multi-line mode. */
  predicate LineStart(s: string, p: nat)
  {
    p == 0 || (p <= |s| && s[p - 1] == '\n')
  }

  /** `$` in multi-line mode. */
  predicate LineEnd(s: string, p: nat)
  {
    p == |s| || (p < |s| && s[p] == '\n')
  }

  /** Where the greedy `[WS]*` that starts at p stops. */
  function RunEnd(s: string, cs: set<char>, p: nat): (q: nat)
    requires p <= |s|
    ensures p <= q <= |s| && AllIn(s, p, q, cs)
    ensures q < |s| ==> s[q] !in cs
    decreases |s| - p
  {
    if p == |s| || s[p] !in cs then p else RunEnd(s, cs, p + 1)
  }

  /** Backtracking from q towards p: the last position in [p, q] where `$`
      holds. */
  function LastLineEnd(s: string, p: nat, q: nat): (r: Option<nat>)
    requires p <= q <= |s|
    ensures r.Some? ==> p <= r.value <= q && LineEnd(s, r.value)
    ensures r.Some? ==> forall e :: r.value < e <= q ==> !LineEnd(s, e)
    ensures r.None? ==> forall e :: p <= e <= q ==> !LineEnd(s, e)
    decreases q - p
  {
    if LineEnd(s, q) then Some(q)
    else if q == p then None
    else LastLineEnd(s, p, q - 1)
  }

  /** The end of the match of `^[WS]*$` that starts at p, if the pattern
      matches there. A match exists exactly when p is a line start from which
      a run of characters of cs reaches a line end, and it is the longest
      such run. */
  function BlankMatch(s: string, cs: set<char>, p: nat): (r: Option<nat>)
    requires p <= |s|
    ensures r.Some? ==> LineStart(s, p) && p <= r.value <= |s|
    ensures r.Some? ==> AllIn(s, p, r.value, cs) && LineEnd(s, r.value)
    ensures r.Some? ==> forall e :: r.value < e <= |s| && AllIn(s, p, e, cs) ==> !LineEnd(s, e)
    ensures r.None? && LineStart(s, p) ==>
              forall e :: p <= e <= |s| && AllIn(s, p, e, cs) ==> !LineEnd(s, e)
  {
    if !LineStart(s, p) then None
    else
      var q := RunEnd(s, cs, p);
      var r := LastLineEnd(s, p, q);
      assert forall e :: q < e <= |s| && AllIn(s, p, e, cs) ==> s[q] in cs;
      r
  }

  /** A match starting at q is taken by the search that begins at `start`:
      the pattern matches at q, and it is not an empty match at `start` right
      after an empty match (`mustAdvance`). */
  predicate Accepts(s: string, cs: set<char>, start: nat, mustAdvance: bool, q: nat)
    requires q <= |s|
  {
    var m := BlankMatch(s, cs, q);
    m.Some? && !(mustAdvance && q == start && m.value == q)
  }

  /** The leftmost accepted match at or after p. */
  function Search(s: string, cs: set<char>, start: nat, mustAdvance: bool, p: nat): (r: Option<Span>)
    requires start <= p <= |s|
    ensures r.Some? ==> p <= r.value.lo <= r.value.hi <= |s|
    ensures r.Some? ==> Accepts(s, cs, start, mustAdvance, r.value.lo)
    ensures r.Some? ==> BlankMatch(s, cs, r.value.lo) == Some(r.value.hi)
    ensures r.Some? ==> forall q :: p <= q < r.value.lo ==> !Accepts(s, cs, start, mustAdvance, q)
    ensures r.None? ==> forall q :: p <= q <= |s| ==> !Accepts(s, cs, start, mustAdvance, q)
    decreases |s| - p
  {
    if Accepts(s, cs, start, mustAdvance, p) then Some(Span(p, BlankMatch(s, cs, p).value))
    else if p == |s| then None
    else Search(s, cs, start, mustAdvance, p + 1)
  }

  /** The spans lie in [lo, |s|], each one well formed. */
  predicate Within(s: string, sp: seq<Span>, lo: nat)
  {
    forall k :: 0 <= k < |sp| ==> lo <= sp[k].lo <= sp[k].hi <= |s|
  }

  /** The spans follow each other in order, without overlap. */
  predicate Ordered(sp: seq<Span>)
  {
    forall j, k :: 0 <= j < k < |sp| ==> sp[j].hi <= sp[k].lo
  }

  /** The gap after each span but the last is a match of the pattern. */
  predicate Linked(s: string, cs: set<char>, sp: seq<Span>)
    requires Within(s, sp, 0)
  {
    forall k :: 0 <= k < |sp| - 1 ==> BlankMatch(s, cs, sp[k].hi) == Some(sp[k + 1].lo)
  }

  /** No match of the pattern starts strictly inside a span. */
  predicate NoMatchInside(s: string, cs: set<char>, sp: seq<Span>)
    requires Within(s, sp, 0)
  {
    forall k, q :: 0 <= k < |sp| && sp[k].lo < q < sp[k].hi ==> BlankMatch(s, cs, q).None?
  }

  /** What SplitFrom promises of its spans. */
  predicate SplitShape(s: string, cs: set<char>, sp: seq<Span>, last: nat)
  {
    && |sp| > 0 && sp[0].lo == last && sp[|sp| - 1].hi == |s|
    && Within(s, sp, last) && Within(s, sp, 0)
    && Ordered(sp) && Linked(s, cs, sp) && NoMatchInside(s, cs, sp)
  }

  lemma ConsWithin(s: string, last: nat, m: Span, rest: seq<Span>)
    requires last <= m.lo <= m.hi <= |s|
    requires Within(s, rest, m.hi)
    ensures Within(s, [Span(last, m.lo)] + rest, last)
  {
    var sp := [Span(last, m.lo)] + rest;
    assert forall k :: 0 < k < |sp| ==> sp[k] == rest[k - 1];
  }

  lemma ConsOrdered(last: nat, m: Span, rest: seq<Span>)
    requires m.lo <= m.hi
    requires |rest| > 0 && rest[0].lo == m.hi
    requires Ordered(rest) && forall k :: 0 <= k < |rest| ==> rest[k].lo <= rest[k].hi
    ensures Ordered([Span(last, m.lo)] + rest)
  {
    var sp := [Span(last, m.lo)] + rest;
    forall j, k | 0 <= j < k < |sp| ensures sp[j].hi <= sp[k].lo {
      if j == 0 {
        assert rest[0].hi <= rest[k - 1].lo || k == 1;
      } else {
        assert sp[j] == rest[j - 1] && sp[k] == rest[k - 1];
      }
    }
  }

  lemma ConsLinked(s: string, cs: set<char>, last: nat, m: Span, rest: seq<Span>)
    requires last <= m.lo <= m.hi <= |s|
    requires BlankMatch(s, cs, m.lo) == Some(m.hi)
    requires |rest| > 0 && rest[0].lo == m.hi
    requires Within(s, rest, 0) && Linked(s, cs, rest)
    requires Within(s, [Span(last, m.lo)] + rest, 0)
    ensures Linked(s, cs, [Span(last, m.lo)] + rest)
  {
    var sp := [Span(last, m.lo)] + rest;
    forall k | 0 <= k < |sp| - 1 ensures BlankMatch(s, cs, sp[k].hi) == Some(sp[k + 1].lo) {
      if k > 0 {
        assert sp[k] == rest[k - 1] && sp[k + 1] == rest[k];
      }
    }
  }

  lemma ConsNoMatchInside(s: string, cs: set<char>, last: nat, m: Span, rest: seq<Span>)
    requires last <= m.lo <= |s|
    requires forall q :: last < q < m.lo ==> BlankMatch(s, cs, q).None?
    requires Within(s, rest, 0) && NoMatchInside(s, cs, rest)
    requires Within(s, [Span(last, m.lo)] + rest, 0)
    ensures NoMatchInside(s, cs, [Span(last, m.lo)] + rest)
  {
    var sp := [Span(last, m.lo)] + rest;
    forall k, q | 0 <= k < |sp| && sp[k].lo < q < sp[k].hi ensures BlankMatch(s, cs, q).None? {
      if k > 0 {
        assert sp[k] == rest[k - 1];
      }
    }
  }

  /** A segment followed by a match, put in front of the split of the rest. */
  lemma ConsSegment(s: string, cs: set<char>, last: nat, m: Span, rest: seq<Span>)
    requires last <= m.lo <= m.hi <= |s|
    requires BlankMatch(s, cs, m.lo) == Some(m.hi)
    requires forall q :: last < q < m.lo ==> BlankMatch(s, cs, q).None?
    requires SplitShape(s, cs, rest, m.hi)
    ensures SplitShape(s, cs, [Span(last, m.lo)] + rest, last)
  {
    ConsWithin(s, last, m, rest);
    var sp := [Span(last, m.lo)] + rest;
    assert Within(s, sp, 0);
    ConsOrdered(last, m, rest);
    ConsLinked(s, cs, last, m, rest);
    ConsNoMatchInside(s, cs, last, m, rest);
  }

  /** The spans are the ones the search loop of `re.split` produces: the
      search that starts where a span starts finds, as its leftmost accepted
      match, exactly the gap up to the next span, and the search from the
      last span's start finds nothing. `mustAdvance` is the flag for the
      first search; every later search refuses an empty match exactly when
      the match before it was empty. */
  predicate Driven(s: string, cs: set<char>, sp: seq<Span>, mustAdvance: bool)
    requires Within(s, sp, 0)
  {
    forall k :: 0 <= k < |sp| ==> DrivenAt(s, cs, sp, mustAdvance, k)
  }

  /** The search from the start of span k finds the gap after it. */
  predicate DrivenAt(s: string, cs: set<char>, sp: seq<Span>, mustAdvance: bool, k: nat)
    requires Within(s, sp, 0) && k < |sp|
  {
    Search(s, cs, sp[k].lo, if k == 0 then mustAdvance else sp[k - 1].hi == sp[k].lo, sp[k].lo)
      == if k < |sp| - 1 then Some(Span(sp[k].hi, sp[k + 1].lo)) else None
  }

  lemma ConsDriven(s: string, cs: set<char>, last: nat, mustAdvance: bool, m: Span, rest: seq<Span>)
    requires last <= m.lo <= m.hi <= |s|
    requires Search(s, cs, last, mustAdvance, last) == Some(m)
    requires |rest| > 0 && rest[0].lo == m.hi
    requires Within(s, rest, 0) && Driven(s, cs, rest, m.hi == m.lo)
    requires Within(s, [Span(last, m.lo)] + rest, 0)
    ensures Driven(s, cs, [Span(last, m.lo)] + rest, mustAdvance)
  {
    var sp := [Span(last, m.lo)] + rest;
    forall k | 0 <= k < |sp| ensures DrivenAt(s, cs, sp, mustAdvance, k) {
      if k == 0 {
        assert sp[0] == Span(last, m.lo) && sp[1] == rest[0];
      } else {
        assert DrivenAt(s, cs, rest, m.hi == m.lo, k - 1);
        assert sp[k] == rest[k - 1];
        if k == 1 {
          assert sp[0] == Span(last, m.lo);
        } else {
          assert sp[k - 1] == rest[k - 2];
        }
        assert k == |sp| - 1 || sp[k + 1] == rest[k];
      }
    }
  }

  /** The segments of s[last..], as spans of s; `mustAdvance` says the
      previous match was empty and ended at `last`. The spans run in order
      from `last` to the end of s; the gap after each one but the last is a
      match of the pattern; and no match starts strictly inside a span. */
  function SplitFrom(s: string, cs: set<char>, last: nat, mustAdvance: bool): (spans: seq<Span>)
    requires last <= |s|
    ensures SplitShape(s, cs, spans, last)
    ensures Driven(s, cs, spans, mustAdvance)
    decreases |s| - last, if mustAdvance then 0 else 1
  {
    match Search(s, cs, last, mustAdvance, last)
    case None =>
      forall q | last < q <= |s| ensures BlankMatch(s, cs, q).None? {
        assert !Accepts(s, cs, last, mustAdvance, q);
      }
      [Span(last, |s|)]
    case Some(m) =>
      var rest := SplitFrom(s, cs, m.hi, m.hi == m.lo);
      forall q | last < q < m.lo ensures BlankMatch(s, cs, q).None? {
        assert !Accepts(s, cs, last, mustAdvance, q);
      }
      ConsSegment(s, cs, last, m, rest);
      ConsDriven(s, cs, last, mustAdvance, m, rest);
      [Span(last, m.lo)] + rest
  }

  /** The spans of the segments that `re.split` returns for the whole text. */
  function Split(s: string, cs: set<char>): (spans: seq<Span>)
    ensures |spans| > 0 && spans[0].lo == 0 && spans[|spans| - 1].hi == |s|
    ensures forall k :: 0 <= k < |spans| ==> spans[k].lo <= spans[k].hi <= |s|
    ensures forall k :: 0 <= k < |spans| - 1 ==> BlankMatch(s, cs, spans[k].hi) == Some(spans[k + 1].lo)
    ensures forall j, k :: 0 <= j < k < |spans| ==> spans[j].hi <= spans[k].lo
    ensures forall k, q :: 0 <= k < |spans| && spans[k].lo < q < spans[k].hi ==> BlankMatch(s, cs, q).None?
  {
    SplitFrom(s, cs, 0, false)
  }

  /** The segments are exactly those the search loop of `re.split` yields:
      from the start of each segment, the leftmost accepted match (refusing
      an empty match right after an empty one) is the gap to the next
      segment, and from the start of the last segment no match is found. */
  lemma SplitSearches(s: string, cs: set<char>)
    ensures var spans := Split(s, cs);
      forall k :: 0 <= k < |spans| ==>
        Search(s, cs, spans[k].lo, k > 0 && spans[k - 1].hi == spans[k].lo, spans[k].lo)
          == if k < |spans| - 1 then Some(Span(spans[k].hi, spans[k + 1].lo)) else None
  {
    var spans := Split(s, cs);
    assert Driven(s, cs, spans, false);
    forall k | 0 <= k < |spans|
      ensures Search(s, cs, spans[k].lo, k > 0 && spans[k - 1].hi == spans[k].lo, spans[k].lo)
                == if k < |spans| - 1 then Some(Span(spans[k].hi, spans[k + 1].lo)) else None
    {
      assert DrivenAt(s, cs, spans, false, k);
      assert (k > 0 && spans[k - 1].hi == spans[k].lo) == (if k == 0 then false else spans[k - 1].hi == spans[k].lo);
    }
  }

  /** The slices of s that the spans cover. */
  function Slices(s: string, sp: seq<Span>): (r: seq<string>)
    requires forall k :: 0 <= k < |sp| ==> sp[k].lo <= sp[k].hi <= |s|
    ensures |r| == |sp|
    ensures forall k :: 0 <= k < |sp| ==> r[k] == s[sp[k].lo..sp[k].hi]
  {
    if sp == [] then [] else [s[sp[0].lo..sp[0].hi]] + Slices(s, sp[1..])
  }

  /** The slices of s between consecutive spans. */
  function Gaps(s: string, sp: seq<Span>): (r: seq<string>)
    requires |sp| > 0
    requires forall k :: 0 <= k < |sp| ==> sp[k].lo <= sp[k].hi <= |s|
    requires forall k :: 0 <= k < |sp| - 1 ==> sp[k].hi <= sp[k + 1].lo
    ensures |r| == |sp| - 1
    ensures forall k :: 0 <= k < |sp| - 1 ==> r[k] == s[sp[k].hi..sp[k + 1].lo]
  {
    if |sp| == 1 then [] else [s[sp[0].hi..sp[1].lo]] + Gaps(s, sp[1..])
  }

  /** The segments themselves. */
  function Segments(s: string, cs: set<char>): (segs: seq<string>)
    ensures |segs| == |Split(s, cs)|
  {
    Slices(s, Split(s, cs))
  }

  /** The separators: the matched text between consecutive segments. */
  function Separators(s: string, cs: set<char>): (seps: seq<string>)
    ensures |seps| == |Split(s, cs)| - 1
  {
    Gaps(s, Split(s, cs))
  }

  /** seg0 + sep0 + seg1 + sep1 + ... + seg(n). */
  function Interleave(segs: seq<string>, seps: seq<string>): string
    requires |segs| == |seps| + 1
  {
    if seps == [] then segs[0] else segs[0] + seps[0] + Interleave(segs[1..], seps[1..])
  }

  lemma SliceJoin(s: string, a: nat, b: nat, c: nat, d: nat)
    requires a <= b <= c <= d <= |s|
    ensures s[a..b] + s[b..c] + s[c..d] == s[a..d]
  {
  }

  /** Spans that follow each other without overlap, with every gap filled
      in, give back the text from the first span's start to the last one's
      end. */
  lemma {:induction false} InterleaveSlices(s: string, sp: seq<Span>)
    requires |sp| > 0
    requires forall k :: 0 <= k < |sp| ==> sp[k].lo <= sp[k].hi <= |s|
    requires forall k :: 0 <= k < |sp| - 1 ==> sp[k].hi <= sp[k + 1].lo
    ensures sp[0].lo <= sp[|sp| - 1].hi
    ensures Interleave(Slices(s, sp), Gaps(s, sp)) == s[sp[0].lo..sp[|sp| - 1].hi]
    decreases |sp|
  {
    if |sp| > 1 {
      var tail := sp[1..];
      var a, b, c, d := sp[0].lo, sp[0].hi, sp[1].lo, sp[|sp| - 1].hi;
      var segs, seps := Slices(s, sp), Gaps(s, sp);
      assert segs[1..] == Slices(s, tail);
      assert seps[1..] == Gaps(s, tail);
      InterleaveSlices(s, tail);
      assert Interleave(segs, seps) == s[a..b] + s[b..c] + s[c..d];
      SliceJoin(s, a, b, c, d);
    }
  }

  /** Splitting loses nothing: the segments with the separators between them
      give back the text. */
  lemma SplitReassembles(s: string, cs: set<char>)
    ensures |Segments(s, cs)| == |Separators(s, cs)| + 1
    ensures Interleave(Segments(s, cs), Separators(s, cs)) == s
  {
    InterleaveSlices(s, Split(s, cs));
  }

  /** Each separator is a stretch of blank characters: every character of it
      is in cs. */
  lemma SeparatorsAreBlank(s: string, cs: set<char>, k: nat)
    requires k < |Separators(s, cs)|
    ensures forall i :: 0 <= i < |Separators(s, cs)[k]| ==> Separators(s, cs)[k][i] in cs
  {
    var sp := Split(s, cs);
    var sep := Separators(s, cs)[k];
    assert BlankMatch(s, cs, sp[k].hi) == Some(sp[k + 1].lo);
    assert sep == s[sp[k].hi..sp[k + 1].lo];
    forall i | 0 <= i < |sep| ensures sep[i] in cs {
      assert sep[i] == s[sp[k].hi + i];
    }
  }
}
