/** Character-level helpers shared by the converter's modules: the
    Option/Result wrappers, Python's `str.strip(chars)`, `str.endswith` and
    `pathlib.PurePosixPath.suffix`. */
module Text {

  datatype Option<+T> = None | Some(value: T)

  datatype Result<+T, +E> = Ok(value: T) | Err(error: E)

  /** Every character of s[lo..hi] belongs to cs. */
  predicate AllIn(s: string, lo: nat, hi: nat, cs: set<char>)
    requires lo <= hi <= |s|
  {
    forall i :: lo <= i < hi ==> s[i] in cs
  }

  /** The number of leading characters of s that belong to cs. */
  function LeadLen(s: string, cs: set<char>): (n: nat)
    ensures n <= |s| && AllIn(s, 0, n, cs)
    ensures n < |s| ==> s[n] !in cs
  {
    if s == [] || s[0] !in cs then 0
    else
      var m := LeadLen(s[1..], cs);
      assert forall i :: 1 <= i < m + 1 ==> s[i] == s[1..][i - 1];
      m + 1
  }

  /** The number of trailing characters of s that belong to cs. */
  function TrailLen(s: string, cs: set<char>): (n: nat)
    ensures n <= |s| && AllIn(s, |s| - n, |s|, cs)
    ensures n < |s| ==> s[|s| - n - 1] !in cs
  {
    if s == [] || s[|s| - 1] !in cs then 0
    else
      var m := TrailLen(s[..|s| - 1], cs);
      assert forall i :: |s| - 1 - m <= i < |s| - 1 ==> s[i] == s[..|s| - 1][i];
      m + 1
  }

  /** Python's `s.strip(chars)` with the characters of cs: drop the longest
      prefix and then the longest suffix made only of characters in cs. The
      result is the slice of s that starts at the first character outside cs
      and ends after the last one; it is empty exactly when every character
      of s is in cs. */
  function Strip(s: string, cs: set<char>): (r: string)
    ensures LeadLen(s, cs) + |r| <= |s|
    ensures r == s[LeadLen(s, cs)..LeadLen(s, cs) + |r|]
    ensures AllIn(s, LeadLen(s, cs) + |r|, |s|, cs)
    ensures r != [] ==> r[0] !in cs && r[|r| - 1] !in cs
    ensures r == [] <==> AllIn(s, 0, |s|, cs)
  {
    var a := LeadLen(s, cs);
    var t := s[a..];
    var b := TrailLen(t, cs);
    assert forall i :: a + |t| - b <= i < |s| ==> s[i] == t[i - a];
    t[..|t| - b]
  }

  /** Python's `s.endswith(suffix)`. */
  predicate EndsWith(s: string, suffix: string)
  {
    |suffix| <= |s| && s[|s| - |suffix|..] == suffix
  }

  /** Python's `s.replace(pat, sub)`: every occurrence of pat, from left to
      right and without overlap, is replaced by sub. */
  function Replace(s: string, pat: string, sub: string): string
    requires pat != []
    decreases |s|
  {
    if |s| < |pat| then s
    else if s[..|pat|] == pat then sub + Replace(s[|pat|..], pat, sub)
    else [s[0]] + Replace(s[1..], pat, sub)
  }

  /** A character that cannot start pat is kept as it is. */
  lemma ReplaceKeeps(c: char, s: string, pat: string, sub: string)
    requires pat != [] && c != pat[0]
    ensures Replace([c] + s, pat, sub) == [c] + Replace(s, pat, sub)
  {
    var t := [c] + s;
    assert t[1..] == s;
    if |t| >= |pat| {
      assert t[..|pat|][0] == c;
    }
  }

  /** The position of the first occurrence of c in s, if any (`str.find`). */
  function IndexOf(s: string, c: char): (r: Option<nat>)
    ensures r.Some? ==> r.value < |s| && s[r.value] == c
    ensures r.Some? ==> forall i :: 0 <= i < r.value ==> s[i] != c
    ensures r.None? ==> forall i :: 0 <= i < |s| ==> s[i] != c
  {
    if s == [] then None
    else if s[0] == c then Some(0)
    else
      match IndexOf(s[1..], c)
      case None => None
      case Some(i) => Some(i + 1)
  }

  /** The position of the last occurrence of c in s, if any (`str.rfind`). */
  function LastIndexOf(s: string, c: char): (r: Option<nat>)
    ensures r.Some? ==> r.value < |s| && s[r.value] == c
    ensures r.Some? ==> forall i :: r.value < i < |s| ==> s[i] != c
    ensures r.None? ==> forall i :: 0 <= i < |s| ==> s[i] != c
  {
    if s == [] then None
    else if s[|s| - 1] == c then Some(|s| - 1)
    else
      var r := LastIndexOf(s[..|s| - 1], c);
      assert forall i :: 0 <= i < |s| - 1 ==> s[i] == s[..|s| - 1][i];
      r
  }

  /** A path with no directory part. */
  predicate NoSlash(path: string)
  {
    forall i :: 0 <= i < |path| ==> path[i] != '/'
  }

  /** The final component of a POSIX path (`PurePosixPath.name`). When
      pathlib parses a path it drops empty components (repeated or trailing
      slashes) and "." components, so the name is the last component that
      is neither, or "" when there is none. */
  function FinalName(path: string): (name: string)
    ensures forall i :: 0 <= i < |name| ==> name[i] != '/'
    ensures name != "."
    ensures NoSlash(path) ==> name == (if path == "." then "" else path)
    decreases |path|
  {
    match LastIndexOf(path, '/')
    case None => if path == "." then "" else path
    case Some(i) =>
      var base := path[i + 1..];
      if base == "" || base == "." then FinalName(path[..i]) else base
  }

  /** A trailing slash does not change the name. */
  lemma FinalNameTrailingSlash(path: string)
    ensures FinalName(path + "/") == FinalName(path)
  {
    assert (path + "/")[..|path|] == path;
    assert (path + "/")[|path| + 1..] == "";
  }

  /** A trailing "." component does not change the name. */
  lemma FinalNameTrailingDot(path: string)
    ensures FinalName(path + "/.") == FinalName(path)
  {
    var p := path + "/.";
    assert p[..|p| - 1] == path + "/";
    assert LastIndexOf(path + "/", '/') == Some(|path|);
    assert LastIndexOf(p, '/') == Some(|path|);
    assert p[..|path|] == path;
    assert p[|path| + 1..] == ".";
  }

  /** The last slash of dir + "/" + base, when base has none, is the one
      in between. */
  lemma LastSlashOfJoin(dir: string, base: string)
    requires forall i :: 0 <= i < |base| ==> base[i] != '/'
    ensures LastIndexOf(dir + ("/" + base), '/') == Some(|dir|)
  {
    var path := dir + ("/" + base);
    assert path[|dir|] == '/';
    forall i | |dir| < i < |path| ensures path[i] != '/' {
      assert path[i] == base[i - |dir| - 1];
    }
  }

  /** A proper last component is the name, whatever directory precedes it. */
  lemma FinalNameOfJoin(dir: string, base: string)
    requires base != "" && base != "." && forall i :: 0 <= i < |base| ==> base[i] != '/'
    ensures FinalName(dir + ("/" + base)) == base
  {
    LastSlashOfJoin(dir, base);
    assert (dir + ("/" + base))[|dir| + 1..] == base;
  }

  /** The dot at i is the last dot of name. */
  predicate LastDotAt(name: string, i: nat)
  {
    i < |name| && name[i] == '.' && forall j :: i < j < |name| ==> name[j] != '.'
  }

  /** `PurePosixPath.suffix`: the final component's extension from its last
      dot, or "" when that dot is the first or the last character of the
      name, or there is none. */
  function Suffix(path: string): (r: string)
    ensures EndsWith(FinalName(path), r)
    ensures r != [] ==> |r| >= 2 && r[0] == '.'
    ensures forall i :: 0 < i < |r| ==> r[i] != '.' && r[i] != '/'
    ensures r != [] <==> exists i :: 0 < i < |FinalName(path)| - 1 && LastDotAt(FinalName(path), i)
    ensures forall i :: 0 < i < |FinalName(path)| - 1 && LastDotAt(FinalName(path), i) ==> r == FinalName(path)[i..]
  {
    var name := FinalName(path);
    match LastIndexOf(name, '.')
    case None => ""
    case Some(i) =>
      assert LastDotAt(name, i);
      assert forall j :: LastDotAt(name, j) ==> j == i;
      if 0 < i < |name| - 1 then
        assert EndsWith(name, name[i..]);
        name[i..]
      else ""
  }

  /** A name made of a non-empty stem, a dot and an extension without dots
      has that dot and extension as its suffix. */
  lemma SuffixOfName(path: string, stem: string, ext: string)
    requires FinalName(path) == stem + ("." + ext)
    requires stem != [] && ext != []
    requires forall i :: 0 <= i < |ext| ==> ext[i] != '.'
    ensures Suffix(path) == "." + ext
  {
    DottedName(stem, ext);
  }

  /** In stem + "." + ext, with ext free of dots, the dot before ext is the
      last one and lies strictly inside. */
  lemma DottedName(stem: string, ext: string)
    requires stem != [] && ext != []
    requires forall i :: 0 <= i < |ext| ==> ext[i] != '.'
    ensures var name := stem + ("." + ext);
      0 < |stem| < |name| - 1 && LastDotAt(name, |stem|) && name[|stem|..] == "." + ext
  {
    var name := stem + ("." + ext);
    var i := |stem|;
    assert name[i] == '.';
    forall j | i < j < |name| ensures name[j] != '.' {
      assert name[j] == ext[j - i - 1];
    }
    assert name[i..] == "." + ext;
  }
}
