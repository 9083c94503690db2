/**
  The maintainers lookup of `who.py`: given the ownership map of a MAINTAINERS
  file and a path, find the area whose glob matches the path most specifically
  (the longest glob wins, the earliest one on a tie) and return a copy of that
  area's record carrying the winning key and the queried path.
 */
module Who {
  import Glob

  /** A field value of an area record, as the YAML loader delivers it. */
  datatype Value =
    | Str(s: string)                 // a single string, e.g. one glob
    | StrList(items: seq<string>)    // a list of strings, e.g. several globs
    | Other(text: string)            // any other value, carried through opaquely

  /** An area record: field name to value; field `F` holds the area's glob(s). */
  type Record = map<string, Value>

  /** The ownership map, as the sequence of its `(key, record)` items in iteration order. */
  type Maintainers = seq<(string, Record)>

  /** A flattened entry: a glob and the key of the area it belongs to. */
  type Entry = (string, string)

  /** The outcome of a query: a value, or the `NoMatch` failure carrying the path. */
  datatype Result<T> = Ok(value: T) | NoMatch(path: string)

  /** The record has an `F` field that is one glob or a list of globs. */
  predicate HasGlobs(rec: Record) {
    "F" in rec && (rec["F"].Str? || rec["F"].StrList?)
  }

  /** The globs of a record, in order: a list field as it stands, a single glob on its own. */
  function Globs(rec: Record): seq<string>
    requires HasGlobs(rec)
  {
    if rec["F"].StrList? then rec["F"].items else [rec["F"].s]
  }

  predicate AllHaveGlobs(dat: Maintainers) {
    forall i :: 0 <= i < |dat| ==> HasGlobs(dat[i].1)
  }

  predicate DistinctKeys(dat: Maintainers) {
    forall i, j :: 0 <= i < j < |dat| ==> dat[i].0 != dat[j].0
  }

  /** What a loaded MAINTAINERS mapping provides: distinct keys, every record with globs. */
  predicate WellFormed(dat: Maintainers) {
    DistinctKeys(dat) && AllHaveGlobs(dat)
  }

  /** The number of globs over all records: a list counts its length, a single glob counts one. */
  function PatternCount(dat: Maintainers): nat
    requires AllHaveGlobs(dat)
  {
    if |dat| == 0 then 0
    else PatternCount(dat[..|dat| - 1]) + |Globs(dat[|dat| - 1].1)|
  }

  /** Every glob of `gs`, in order, paired with the key `k`. */
  function Pairs(gs: seq<string>, k: string): seq<Entry> {
    seq(|gs|, j requires 0 <= j < |gs| => (gs[j], k))
  }

  /**
    `get_glob_list`: the flat list of `(glob, key)` entries, record after record
    in iteration order, each record's globs in their own order.
   */
  function GlobList(dat: Maintainers): (gi: seq<Entry>)
    requires AllHaveGlobs(dat)
  {
    if |dat| == 0 then []
    else
      var prefix := dat[..|dat| - 1];
      var (k, v) := dat[|dat| - 1];
      assert forall i :: 0 <= i < |prefix| ==> prefix[i] == dat[i];
      GlobList(prefix) + Pairs(Globs(v), k)
  }

  /** `a` is `b` with some elements left out, the rest in their original order. */
  ghost predicate Subsequence<T>(a: seq<T>, b: seq<T>)
    decreases |b|
  {
    if |a| == 0 then true
    else if |b| == 0 then false
    else
      (a[|a| - 1] == b[|b| - 1] && Subsequence(a[..|a| - 1], b[..|b| - 1]))
      || Subsequence(a, b[..|b| - 1])
  }

  /**
    `check_path`: the entries whose glob matches the whole path, in their order
    in `gi`: an order-preserving subsequence holding every matching entry as
    often as `gi` does and no other.
   */
  function CheckPath(path: string, gi: seq<Entry>): (ms: seq<Entry>)
    ensures Subsequence(ms, gi)
    ensures forall e :: multiset(ms)[e] == if Glob.Match(e.0, path) then multiset(gi)[e] else 0
  {
    if |gi| == 0 then []
    else
      var rest := CheckPath(path, gi[..|gi| - 1]);
      var last := gi[|gi| - 1];
      assert gi == gi[..|gi| - 1] + [last];
      if Glob.Match(last.0, path) then
        assert (rest + [last])[..|rest|] == rest;
        rest + [last]
      else rest
  }

  /**
    The position Python's `max(ms, key=len-of-glob)` returns: a scan from the
    left that only moves on to a strictly longer glob. Its glob is at least as
    long as every other, and strictly longer than every one before it.
   */
  function FirstLongest(ms: seq<Entry>): (w: nat)
    requires |ms| > 0
    ensures w < |ms|
    ensures forall j :: 0 <= j < |ms| ==> |ms[j].0| <= |ms[w].0|
    ensures forall j :: 0 <= j < w ==> |ms[j].0| < |ms[w].0|
  {
    if |ms| == 1 then 0
    else
      var w := FirstLongest(ms[..|ms| - 1]);
      if |ms[|ms| - 1].0| > |ms[w].0| then |ms| - 1 else w
  }

  /**
    Entry `w` of `gi` is the one the lookup must choose for `path`: its glob
    matches, no matching glob is longer, and every matching glob before it is
    strictly shorter (the first of the longest).
   */
  ghost predicate Winner(gi: seq<Entry>, path: string, w: int) {
    && 0 <= w < |gi|
    && Glob.Match(gi[w].0, path)
    && (forall j :: 0 <= j < |gi| && Glob.Match(gi[j].0, path) ==> |gi[j].0| <= |gi[w].0|)
    && (forall j :: 0 <= j < w && Glob.Match(gi[j].0, path) ==> |gi[j].0| < |gi[w].0|)
  }

  /** Appending an entry keeps a winner when the entry does not beat it. */
  lemma WinnerKept(gi: seq<Entry>, path: string, e: Entry, w: int)
    requires Winner(gi, path, w)
    requires Glob.Match(e.0, path) ==> |e.0| <= |gi[w].0|
    ensures Winner(gi + [e], path, w)
  {
    var gi' := gi + [e];
    assert forall j :: 0 <= j < |gi| ==> gi'[j] == gi[j];
  }

  /** Appending a matching entry longer than every match so far makes it the winner. */
  lemma WinnerReplaced(gi: seq<Entry>, path: string, e: Entry)
    requires Glob.Match(e.0, path)
    requires forall j :: 0 <= j < |gi| && Glob.Match(gi[j].0, path) ==> |gi[j].0| < |e.0|
    ensures Winner(gi + [e], path, |gi|)
  {
    var gi' := gi + [e];
    assert forall j :: 0 <= j < |gi| ==> gi'[j] == gi[j];
  }

  /** At most one entry is the winner, so the key `path_to_key` returns is determined. */
  lemma WinnerUnique(gi: seq<Entry>, path: string, w: int, w': int)
    requires Winner(gi, path, w) && Winner(gi, path, w')
    ensures w == w'
  {
  }

  /** `check_path` on a longer list keeps what it kept before, then the new entry if it matches. */
  lemma CheckPathStep(path: string, gi: seq<Entry>, e: Entry)
    ensures CheckPath(path, gi + [e]) == CheckPath(path, gi) + (if Glob.Match(e.0, path) then [e] else [])
  {
    assert (gi + [e])[..|gi|] == gi;
  }

  /** The scan over one more match moves on only to a strictly longer glob. */
  lemma FirstLongestStep(ms: seq<Entry>, e: Entry)
    requires |ms| > 0
    ensures FirstLongest(ms + [e]) == if |e.0| > |ms[FirstLongest(ms)].0| then |ms| else FirstLongest(ms)
  {
    assert (ms + [e])[..|ms|] == ms;
  }

  /** The scan over the matches picks out the winner of the whole list. */
  lemma {:induction false} ScanFindsWinner(path: string, gi: seq<Entry>)
    requires |CheckPath(path, gi)| > 0
    ensures var ms := CheckPath(path, gi);
      exists w :: Winner(gi, path, w) && gi[w] == ms[FirstLongest(ms)]
  {
    var prefix, last := gi[..|gi| - 1], gi[|gi| - 1];
    assert gi == prefix + [last];
    var rest := CheckPath(path, prefix);
    CheckPathStep(path, prefix, last);
    if |rest| == 0 {
      NothingKeptNothingMatches(path, prefix);
      WinnerReplaced(prefix, path, last);
    } else {
      ScanFindsWinner(path, prefix);
      var w :| Winner(prefix, path, w) && prefix[w] == rest[FirstLongest(rest)];
      if !Glob.Match(last.0, path) {
        WinnerKept(prefix, path, last, w);
      } else {
        FirstLongestStep(rest, last);
        if |last.0| > |rest[FirstLongest(rest)].0| {
          WinnerReplaced(prefix, path, last);
        } else {
          WinnerKept(prefix, path, last, w);
        }
      }
    }
  }

  /** When no entry is kept, no entry matches. */
  lemma NothingKeptNothingMatches(path: string, gi: seq<Entry>)
    requires |CheckPath(path, gi)| == 0
    ensures forall j :: 0 <= j < |gi| ==> !Glob.Match(gi[j].0, path)
  {
    forall j | 0 <= j < |gi|
      ensures !Glob.Match(gi[j].0, path)
    {
      assert multiset(gi)[gi[j]] > 0;
      assert multiset(CheckPath(path, gi))[gi[j]] == 0;
    }
  }

  /**
    `path_to_key`: the key of the winning entry, or `NoMatch` carrying the path
    exactly when no glob of `gi` matches it.
   */
  function PathToKey(path: string, gi: seq<Entry>): (r: Result<string>)
    ensures r.NoMatch? <==> forall j :: 0 <= j < |gi| ==> !Glob.Match(gi[j].0, path)
    ensures r.NoMatch? ==> r.path == path
    ensures r.Ok? ==> exists w :: Winner(gi, path, w) && gi[w].1 == r.value
  {
    var ms := CheckPath(path, gi);
    if |ms| > 0 then
      ScanFindsWinner(path, gi);
      Ok(ms[FirstLongest(ms)].1)
    else
      NothingKeptNothingMatches(path, gi);
      NoMatch(path)
  }

  /** The keys of the ownership map, in order. */
  function Keys(dat: Maintainers): seq<string> {
    seq(|dat|, i requires 0 <= i < |dat| => dat[i].0)
  }

  /** `dat[key]`: the position of `key` in the ownership map. */
  function IndexOf(dat: Maintainers, key: string): (i: nat)
    requires key in Keys(dat)
    ensures i < |dat| && dat[i].0 == key
    ensures DistinctKeys(dat) ==> forall j :: 0 <= j < |dat| && dat[j].0 == key ==> j == i
  {
    if dat[|dat| - 1].0 == key then |dat| - 1
    else
      assert forall i :: 0 <= i < |dat| - 1 ==> dat[..|dat| - 1][i] == dat[i];
      assert key in Keys(dat[..|dat| - 1]) by {
        var i :| 0 <= i < |dat| && Keys(dat)[i] == key;
        assert Keys(dat[..|dat| - 1])[i] == key;
      }
      IndexOf(dat[..|dat| - 1], key)
  }

  /**
    `d` is a copy of record `rec` of area `key` with `'key'` set to the key and
    `'path'` set to the queried path; every other field is the record's own.
   */
  ghost predicate ResolvedFrom(d: Record, key: string, rec: Record, path: string) {
    && d.Keys == rec.Keys + {"key", "path"}
    && d["key"] == Str(key)
    && d["path"] == Str(path)
    && forall f :: f in rec && f != "key" && f != "path" ==> d[f] == rec[f]
  }


  /** The flat list of a prefix of a well-formed map is well defined. */
  lemma PrefixHasGlobs(dat: Maintainers, m: nat)
    requires AllHaveGlobs(dat) && m <= |dat|
    ensures AllHaveGlobs(dat[..m])
  {
    assert forall k :: 0 <= k < m ==> dat[..m][k] == dat[k];
  }

  /** Record `i` has a glob number `j`. */
  predicate IsGlob(dat: Maintainers, i: int, j: int)
    requires AllHaveGlobs(dat)
  {
    0 <= i < |dat| && 0 <= j < |Globs(dat[i].1)|
  }

  /** Glob number `j` of record `i`. */
  function GlobAt(dat: Maintainers, i: int, j: int): string
    requires AllHaveGlobs(dat) && IsGlob(dat, i, j)
  {
    Globs(dat[i].1)[j]
  }

  /**
    Glob `j` of record `i` is the one that owns `path`: it matches, no matching
    glob of any record is longer, and every matching glob that comes before it
    (in an earlier record, or earlier in the same record) is strictly shorter.
   */
  ghost predicate Owns(dat: Maintainers, path: string, i: int, j: int)
    requires AllHaveGlobs(dat)
  {
    && IsGlob(dat, i, j)
    && Glob.Match(GlobAt(dat, i, j), path)
    && (forall i', j' :: IsGlob(dat, i', j') && Glob.Match(GlobAt(dat, i', j'), path)
          ==> |GlobAt(dat, i', j')| <= |GlobAt(dat, i, j)|)
    && (forall i', j' :: IsGlob(dat, i', j') && Glob.Match(GlobAt(dat, i', j'), path) && (i' < i || (i' == i && j' < j))
          ==> |GlobAt(dat, i', j')| < |GlobAt(dat, i, j)|)
  }

  /** Where record `i`'s globs start in the flat list: after the globs of every record before it. */
  function Offset(dat: Maintainers, i: nat): nat
    requires AllHaveGlobs(dat) && i <= |dat|
  {
    PrefixHasGlobs(dat, i);
    PatternCount(dat[..i])
  }

  /** The flat list holds exactly as many entries as there are globs. */
  lemma {:induction false} GlobListLength(dat: Maintainers)
    requires AllHaveGlobs(dat)
    ensures |GlobList(dat)| == PatternCount(dat)
  {
    if |dat| > 0 {
      GlobListLength(dat[..|dat| - 1]);
    }
  }

  /** The flat list of a prefix of the map is a prefix of the flat list. */
  lemma {:induction false} GlobListPrefix(dat: Maintainers, m: nat)
    requires AllHaveGlobs(dat) && m <= |dat|
    ensures AllHaveGlobs(dat[..m])
    ensures |GlobList(dat[..m])| <= |GlobList(dat)|
    ensures GlobList(dat)[..|GlobList(dat[..m])|] == GlobList(dat[..m])
    decreases |dat| - m
  {
    PrefixHasGlobs(dat, m);
    if m < |dat| {
      var prefix := dat[..|dat| - 1];
      assert prefix[..m] == dat[..m];
      GlobListPrefix(prefix, m);
    } else {
      assert dat[..m] == dat;
    }
  }

  /** The flat list up to record `i` is the list before it followed by record `i`'s entries. */
  lemma GlobListStep(dat: Maintainers, i: nat)
    requires AllHaveGlobs(dat) && i < |dat|
    ensures AllHaveGlobs(dat[..i]) && AllHaveGlobs(dat[..i + 1])
    ensures |GlobList(dat[..i])| == Offset(dat, i)
    ensures GlobList(dat[..i + 1]) == GlobList(dat[..i]) + Pairs(Globs(dat[i].1), dat[i].0)
  {
    PrefixHasGlobs(dat, i + 1);
    PrefixHasGlobs(dat, i);
    var upto := dat[..i + 1];
    assert upto[..i] == dat[..i];
    assert upto[i] == dat[i];
    GlobListLength(dat[..i]);
  }

  /** Glob `j` of record `i` sits at position `Offset(dat, i) + j`, paired with the record's key. */
  lemma GlobListLayout(dat: Maintainers, i: nat, j: nat)
    requires AllHaveGlobs(dat) && IsGlob(dat, i, j)
    ensures Offset(dat, i) + j < |GlobList(dat)|
    ensures GlobList(dat)[Offset(dat, i) + j] == (GlobAt(dat, i, j), dat[i].0)
  {
    GlobListStep(dat, i);
    var gu := GlobList(dat[..i + 1]);
    var k := Offset(dat, i) + j;
    assert gu[k] == (GlobAt(dat, i, j), dat[i].0);
    GlobListPrefix(dat, i + 1);
    assert GlobList(dat)[k] == GlobList(dat)[..|gu|][k];
  }

  /** The globs of an earlier record all come before those of a later one. */
  lemma {:induction false} OffsetMonotone(dat: Maintainers, i: nat, i': nat)
    requires AllHaveGlobs(dat) && i < i' <= |dat|
    ensures Offset(dat, i) + |Globs(dat[i].1)| <= Offset(dat, i')
    decreases i'
  {
    var upto := dat[..i'];
    assert upto[..i' - 1] == dat[..i' - 1];
    assert upto[i' - 1] == dat[i' - 1];
    if i < i' - 1 {
      OffsetMonotone(dat, i, i' - 1);
    }
  }

  /** The record and glob number behind position `w` of the flat list. */
  ghost function Locate(dat: Maintainers, w: nat): (r: (nat, nat))
    requires AllHaveGlobs(dat) && w < |GlobList(dat)|
    ensures IsGlob(dat, r.0, r.1) && w == Offset(dat, r.0) + r.1
  {
    GlobListLength(dat);
    var prefix := dat[..|dat| - 1];
    PrefixHasGlobs(dat, |dat| - 1);
    GlobListLength(prefix);
    if w < PatternCount(prefix) then
      var r := Locate(prefix, w);
      assert prefix[..r.0] == dat[..r.0] && prefix[r.0] == dat[r.0];
      r
    else
      (|dat| - 1, w - PatternCount(prefix))
  }

  /**
    Every entry of the flat list is a glob of some record, paired with that
    record's key: nothing is invented and no key is mixed up.
   */
  lemma GlobListSound(dat: Maintainers, w: nat)
    requires AllHaveGlobs(dat) && w < |GlobList(dat)|
    ensures var (i, j) := Locate(dat, w);
      GlobList(dat)[w] == (GlobAt(dat, i, j), dat[i].0) && GlobList(dat)[w].1 in Keys(dat)
  {
    var (i, j) := Locate(dat, w);
    GlobListLayout(dat, i, j);
    assert Keys(dat)[i] == dat[i].0;
  }

  /**
    The winning entry of the flat list is the glob that owns the path in the
    record-level sense: the first of the longest matching globs, records taken
    in iteration order and globs in their order within a record.
   */
  lemma WinnerOwns(dat: Maintainers, path: string, w: nat) returns (i: nat, j: nat)
    requires AllHaveGlobs(dat)
    requires Winner(GlobList(dat), path, w)
    ensures Owns(dat, path, i, j)
    ensures w == Offset(dat, i) + j && dat[i].0 == GlobList(dat)[w].1
  {
    var loc := Locate(dat, w);
    i, j := loc.0, loc.1;
    GlobListLayout(dat, i, j);
    forall i', j' | IsGlob(dat, i', j') && Glob.Match(GlobAt(dat, i', j'), path)
      ensures |GlobAt(dat, i', j')| <= |GlobAt(dat, i, j)|
      ensures i' < i || (i' == i && j' < j) ==> |GlobAt(dat, i', j')| < |GlobAt(dat, i, j)|
    {
      WinnerBeatsGlob(dat, path, w, i, j, i', j');
    }
  }

  /** A matching glob is no longer than the winner's, and strictly shorter when it comes first. */
  lemma WinnerBeatsGlob(dat: Maintainers, path: string, w: nat, i: nat, j: nat, i': nat, j': nat)
    requires AllHaveGlobs(dat) && IsGlob(dat, i, j) && w == Offset(dat, i) + j
    requires Winner(GlobList(dat), path, w)
    requires IsGlob(dat, i', j') && Glob.Match(GlobAt(dat, i', j'), path)
    ensures |GlobAt(dat, i', j')| <= |GlobAt(dat, i, j)|
    ensures i' < i || (i' == i && j' < j) ==> |GlobAt(dat, i', j')| < |GlobAt(dat, i, j)|
  {
    var gi := GlobList(dat);
    GlobListLayout(dat, i, j);
    GlobListLayout(dat, i', j');
    var w' := Offset(dat, i') + j';
    assert Glob.Match(gi[w'].0, path);
    if i' < i || (i' == i && j' < j) {
      FlatOrder(dat, i', j', i, j);
    }
  }

  /** Positions in the flat list follow records in order, then globs within a record. */
  lemma FlatOrder(dat: Maintainers, i': nat, j': nat, i: nat, j: nat)
    requires AllHaveGlobs(dat) && IsGlob(dat, i', j') && IsGlob(dat, i, j)
    requires i' < i || (i' == i && j' < j)
    ensures Offset(dat, i') + j' < Offset(dat, i) + j
  {
    if i' < i {
      OffsetMonotone(dat, i', i);
    }
  }

  /** A glob of some record matches exactly when an entry of the flat list does. */
  lemma MatchInRecords(dat: Maintainers, path: string)
    requires AllHaveGlobs(dat)
    ensures (forall w :: 0 <= w < |GlobList(dat)| ==> !Glob.Match(GlobList(dat)[w].0, path))
        <==> (forall i, j :: IsGlob(dat, i, j) ==> !Glob.Match(GlobAt(dat, i, j), path))
  {
    var gi := GlobList(dat);
    GlobListLength(dat);
    forall w | 0 <= w < |gi| && Glob.Match(gi[w].0, path)
      ensures exists i, j :: IsGlob(dat, i, j) && Glob.Match(GlobAt(dat, i, j), path)
    {
      var (i, j) := Locate(dat, w);
      GlobListLayout(dat, i, j);
    }
    forall i, j | IsGlob(dat, i, j) && Glob.Match(GlobAt(dat, i, j), path)
      ensures exists w :: 0 <= w < |gi| && Glob.Match(gi[w].0, path)
    {
      GlobListLayout(dat, i, j);
    }
  }

  /** The key `path_to_key` returns is the key of a record in the map that owns the path. */
  lemma KeyOwns(dat: Maintainers, path: string, key: string)
    requires WellFormed(dat)
    requires PathToKey(path, GlobList(dat)) == Ok(key)
    ensures key in Keys(dat)
    ensures exists j :: Owns(dat, path, IndexOf(dat, key), j)
  {
    var gi := GlobList(dat);
    var w :| Winner(gi, path, w) && gi[w].1 == key;
    var i, j := WinnerOwns(dat, path, w);
    assert Keys(dat)[i] == dat[i].0;
    assert IndexOf(dat, key) == i;
  }

  /** Adding `'key'` and `'path'` to a copy of a record resolves it. */
  lemma CopyResolves(rec: Record, key: string, path: string)
    ensures ResolvedFrom(rec["key" := Str(key)]["path" := Str(path)], key, rec, path)
  {
  }

  /**
    `get_relevant_dat`: `NoMatch` carrying the path exactly when no glob of any
    record matches it; otherwise a copy of the owning record with `'key'` set to
    its key and `'path'` to the path as given, all other fields as stored.
   */
  function GetRelevantDat(path: string, dat: Maintainers): (r: Result<Record>)
    requires WellFormed(dat)
    ensures r.NoMatch? <==> forall i, j :: IsGlob(dat, i, j) ==> !Glob.Match(GlobAt(dat, i, j), path)
    ensures r.NoMatch? ==> r.path == path
    ensures r.Ok? ==> exists i, j :: Owns(dat, path, i, j) && ResolvedFrom(r.value, dat[i].0, dat[i].1, path)
  {
    var gi := GlobList(dat);
    MatchInRecords(dat, path);
    match PathToKey(path, gi)
    case NoMatch(p) => NoMatch(p)
    case Ok(key) =>
      KeyOwns(dat, path, key);
      var rec := dat[IndexOf(dat, key)].1;
      CopyResolves(rec, key, path);
      Ok(rec["key" := Str(key)]["path" := Str(path)])
  }

  /**
    Conversely, whichever glob owns the path decides the lookup: the result is
    that record's copy with `'key'` naming its area and `'path'` the query.
   */
  lemma OwnerDecides(dat: Maintainers, path: string, i: int, j: int)
    requires WellFormed(dat)
    requires Owns(dat, path, i, j)
    ensures GetRelevantDat(path, dat).Ok?
    ensures ResolvedFrom(GetRelevantDat(path, dat).value, dat[i].0, dat[i].1, path)
  {
    var r := GetRelevantDat(path, dat);
    var i', j' :| Owns(dat, path, i', j') && ResolvedFrom(r.value, dat[i'].0, dat[i'].1, path);
    OwnerUnique(dat, path, i, j, i', j');
  }

  /** At most one glob owns a path: the owner is fixed by the map and the path alone. */
  lemma OwnerUnique(dat: Maintainers, path: string, i: int, j: int, i': int, j': int)
    requires AllHaveGlobs(dat)
    requires Owns(dat, path, i, j) && Owns(dat, path, i', j')
    ensures i == i' && j == j'
  {
  }
}
