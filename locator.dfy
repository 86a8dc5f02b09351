/** `get_beancount_files`: the set of files a run reads, and the warning
    about files that do not look like ledgers. Resolving a path to an
    absolute one and expanding a glob pattern are given as functions. */
module Locator {
  import opened Text
  import opened Extraction

  /** `is_none_or_empty`: absent, or present but empty. */
  predicate NoneOrEmpty<T>(o: Option<seq<T>>)
  {
    o.None? || o.value == []
  }

  /** Whether a path ends in one of the ledger file extensions. */
  predicate HasLedgerExtension(path: Path)
  {
    EndsWith(path, ".bean") || EndsWith(path, ".beancount")
  }

  /** The files to read, those among them without a ledger extension, and
      whether the warning about them is printed. */
  datatype Located = Located(files: set<Path>, nonLedger: set<Path>, warned: bool)

  /** The located files are the resolved explicit paths together with the
      files the resolved filter pattern matches; an empty filter matches
      nothing. The warning set is exactly the located files without a ledger
      extension, and the warning is printed when one of them is a non-empty
      string (Python's `any` on a set of strings). */
  function LocateFiles(explicit: Option<seq<Path>>, filter: Option<string>,
                       absolute: Path -> Path, glob: string -> set<Path>): (r: Located)
    ensures forall p :: p in r.files <==>
      (explicit.Some? && exists i :: 0 <= i < |explicit.value| && absolute(explicit.value[i]) == p)
      || (filter.Some? && filter.value != [] && p in glob(absolute(filter.value)))
    ensures r.nonLedger <= r.files
    ensures forall p :: p in r.nonLedger <==> p in r.files && !HasLedgerExtension(p)
    ensures r.warned <==> exists p :: p in r.files && p != [] && !HasLedgerExtension(p)
  {
    var listed: set<Path> :=
      if !NoneOrEmpty(explicit) then set i | 0 <= i < |explicit.value| :: absolute(explicit.value[i]) else {};
    var matched: set<Path> :=
      if !NoneOrEmpty(filter) then glob(absolute(filter.value)) else {};
    var all := listed + matched;
    var nonLedger := set p | p in all && !EndsWith(p, ".bean") && !EndsWith(p, ".beancount");
    Located(all, nonLedger, exists p :: p in nonLedger && p != [])
  }
}
