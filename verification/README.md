# Maintainers lookup (`who.py`) in Dafny

`who.py` decides which maintainer area owns a file path. A MAINTAINERS file
maps area keys to records. Each record's field `F` is a single glob or a list
of globs; any other fields (contacts and so on) are opaque. A query runs a
pure pipeline:

1. `get_glob_list` flattens the map into `(glob, key)` entries. Records come in
   the map's iteration order, and each record's globs keep their own order.
2. `check_path` keeps the entries whose glob matches the whole path, with
   `fnmatch` semantics.
3. `path_to_key` picks the matching entry with the longest glob. Python's
   `max` keeps the first maximum, so a tie goes to the earliest entry. With
   no match at all, it raises `NoMatch`.
4. `get_relevant_dat` copies the winning record and adds `'key'` (the winning
   key) and `'path'` (the query, unchanged).

The model has three modules:

- `Glob` (`glob.dfy`) is `fnmatch.fnmatch` on POSIX, where `normcase` is the
  identity. `*` matches any run of characters, including `/` and newlines.
  `?` matches one character. `[seq]` and `[!seq]` are classes with `a-z`
  ranges, and a `]` directly after `[` or `[!` belongs to the class. A `[`
  that no `]` closes is an ordinary character. Every other character matches
  itself. The class parsing follows CPython's `fnmatch.translate`, except
  for one corner of its reversed-range handling (see "Left out").
- `Who` (`who.dfy`) models the four operations, plus the reference predicates
  that say what they must compute:
  - `Subsequence` is the order-preserving filter.
  - `Winner` is "the first of the longest matching entries".
  - `Owns` is the same winner stated over records and their globs instead of
    flat-list positions.
  - `ResolvedFrom` is "copy plus `key` and `path`".
- `WhoExamples` (`examples.dfy`) works through concrete queries: a single
  match, longest-glob-wins, star against suffix, a tie, and no match. The
  results follow from the contracts, not from evaluating the lookup.

Representation choices:

- The ownership map is a `seq<(string, Record)>` with distinct keys, not a
  `map`. `path_to_key` breaks ties by position in the flat list, so the
  result depends on the order in which `dat.items()` yields records when two
  equally long globs from different records both match (who.py:23, 52). A
  Dafny `map` has no order, so a sequence keeps it.
- A record is a `map<string, Value>`, where `Value` is `Str`, `StrList` or an
  opaque `Other`. `Globs` is the `isinstance(f, list)` branch of who.py:25-28.
- `NoMatch` is the `NoMatch(path)` alternative of `Result`, and it carries the
  queried path.
- Values are immutable, so `get_relevant_dat` cannot change the stored record.
  `ResolvedFrom` states how the returned copy relates to that record.

## Model

| member | source | states |
|---|---|---|
| Glob.FindClose | who.py:34 | the index of the first `]` at or after a position, or the pattern's length when there is none; no `]` lies in between |
| Glob.ClassClose | who.py:34 | the closing index is the first `]` after the `[` or `[!` prefix, skipping a `]` directly after that prefix, so it is at least 2 (at least 3 after `[!`); the pattern's length means no `]` closes the class |
| Glob.Head | who.py:34 | every non-star pattern element consumes at least one pattern character and stays within the pattern |
| Glob.StarSplit | who.py:34 | `*` + q matches s exactly when q matches some suffix of s (any run of characters, separators included) |
| Glob.StarMatchesAll | who.py:34 | the pattern `*` matches every string |
| Glob.QuestionMatchesOneChar | who.py:34 | `?` matches exactly the strings of length one |
| Glob.LiteralMatch | who.py:34 | a pattern without `*`, `?` or `[` matches itself and nothing else (anchored at both ends, case-sensitive) |
| Glob.PrefixStar | who.py:34 | a literal prefix followed by `*` matches exactly the strings that start with that prefix, however many `/` follow |
| Glob.UnclosedBracket | who.py:34 | a `[` that no `]` closes (a `]` directly after `[` or `[!` does not count) matches exactly a literal `[`, and the rest of the pattern is matched as a pattern against the rest of the string |
| Glob.UnclosedBracketLiteral | who.py:34 | an unclosed `[` followed by ordinary characters, such as `[]x` or `[!]x`, matches that text and nothing else |
| Glob.InItemsNoRange | who.py:34 | a class body without `-` holds exactly the characters written in it |
| Glob.InItemsRange | who.py:34 | `x-y` in a class body holds exactly the characters from `x` to `y`, alongside whatever the rest of the body holds; a reversed range holds nothing |
| Glob.PlainClass | who.py:34 | `[seq]` matches exactly the single characters that the class body holds |
| Glob.NegatedClass | who.py:34 | `[!seq]` matches exactly the single characters that `[seq]` does not |
| Who.GlobListLength | who.py:20-29 | the flat list has as many entries as there are globs in total: a list field counts its length, a single glob counts one |
| Who.GlobListStep | who.py:23-28 | processing one more record appends exactly that record's entries after those of the records before it |
| Who.GlobListPrefix | who.py:23-28 | the flat list of the first m records is a prefix of the whole flat list (records are appended, never interleaved) |
| Who.GlobListLayout | who.py:23-28 | glob j of record i is at position (number of globs before record i) + j, paired with record i's key |
| Who.OffsetMonotone | who.py:23-28 | all globs of an earlier record come before the first glob of a later record |
| Who.FlatOrder | who.py:23-28 | flat-list positions follow record order first, then glob order within a record |
| Who.Locate | who.py:23-28 | every flat-list position is glob j of some record i, at exactly that record's offset plus j |
| Who.GlobListSound | who.py:23-28 | every flat entry is a glob of some record paired with that record's key, and the key is a key of the map |
| Who.CheckPath | who.py:32-36 | the result is an order-preserving subsequence of the input that holds every entry whose glob matches the whole path, as often as the input does, and no other entry |
| Who.CheckPathStep | who.py:34 | filtering one more entry keeps the earlier result and appends the entry exactly when its glob matches |
| Who.NothingKeptNothingMatches | who.py:34 | an empty match list means that no glob of the input matches |
| Who.FirstLongest | who.py:52 | `max` by glob length returns a position whose glob is at least as long as every other and strictly longer than every one before it |
| Who.FirstLongestStep | who.py:52 | the scan moves to a new element only when that element's glob is strictly longer |
| Who.WinnerKept | who.py:52 | a later entry that is no longer than the current winner does not displace it |
| Who.WinnerReplaced | who.py:52 | a later matching entry longer than every earlier match becomes the winner |
| Who.ScanFindsWinner | who.py:50-52 | `max` over the matches selects the entry that is the first of the longest matching globs of the whole flat list |
| Who.WinnerUnique | who.py:52 | at most one entry is the first of the longest matches, so the chosen key is determined |
| Who.PathToKey | who.py:44-54 | `NoMatch` carrying the path iff no glob matches; otherwise the key of the first of the longest matching entries |
| Who.IndexOf | who.py:61 | `dat[key]` finds the record stored under the key, and with distinct keys it is the only one |
| Who.WinnerBeatsGlob | who.py:48-52 | every matching glob of any record is no longer than the winning glob, and strictly shorter when it comes earlier in record-then-glob order |
| Who.WinnerOwns | who.py:48-52 | the winning flat entry is glob j of record i, and that glob owns the path in record terms |
| Who.MatchInRecords | who.py:50-54 | some flat entry matches iff some glob of some record matches |
| Who.KeyOwns | who.py:59-61 | the key `path_to_key` returns is a key of the map, and the record stored under it owns the path |
| Who.CopyResolves | who.py:61-63 | copying a record and setting `key` and `path` keeps every other field and adds exactly those two |
| Who.GetRelevantDat | who.py:57-64 | `NoMatch` carrying the path iff no glob of any record matches; otherwise a copy of the owning record (first of the longest matching globs) with `key` = its key and `path` = the query exactly, other fields unchanged |
| Who.OwnerDecides | who.py:57-64 | conversely, whichever glob owns the path decides the result: its record's copy with its key and the path |
| Who.OwnerUnique | who.py:48-52 | at most one glob owns a path, so the result does not depend on anything but the map and the path |
| WhoExamples.SecondAreaWins | who.py:44-64 | with two single-glob areas, the second wins when its glob matches and every match of the first is strictly shorter |
| WhoExamples.FirstAreaWins | who.py:44-64 | with two single-glob areas, the first wins when its glob matches and no match of the second is longer (ties go to the first) |
| WhoExamples.OnlyMatchWins | who.py:57-64 | `docs/readme.md` resolves to `docs` when `src/core/*` does not match it |
| WhoExamples.LongestGlobWins | who.py:48-52 | both `src/*` and `src/core/*` match `src/core/engine.c`, and the lookup resolves to the longer `src/core/*` area |
| WhoExamples.MdGlobMatches | who.py:34 | `*.md` matches `readme.md` |
| WhoExamples.SuffixGlobBeatsStar | who.py:48-52 | both `*` and `*.md` match `readme.md`, and the lookup resolves to the longer `*.md` area |
| WhoExamples.TieGoesToEarlierArea | who.py:52 | `x/*` and `*/y` both match `x/y` and are equally long, and the lookup resolves to the area that comes first |
| WhoExamples.NoGlobMatches | who.py:50-54 | `bin/tool` against `lib/*` and `tools/*` fails with `NoMatch` carrying `bin/tool` |
| WhoExamples.NoAreaMatches | who.py:50-54 | an area whose two globs both fail to match yields `NoMatch` carrying the path |
| WhoExamples.RangeClassMatches | who.py:34 | `[a-c]` matches exactly the single characters from `a` to `c` |
| WhoExamples.UnclosedClassIsLiteral | who.py:34 | `[]x` has no closing `]`, so it matches the literal text `[]x` and nothing else |

## Left out

- Loading `logging.yml` and configuring logging at import (who.py:9-13): file I/O and global logger state.
- The argparse setup and the `__main__` block (who.py:15-17, 67-73): command-line plumbing, YAML loading and printing. The ownership map and the path are parameters instead.
- `log.debug` in `check_path` (who.py:35): it only produces diagnostics.
- The text of the `NoMatch` message (who.py:54): only the path it carries is modelled.
- `fnmatch` internals: `os.path.normcase` (the identity on POSIX, so case-sensitive matching), the translation to a regular expression, and the pattern cache. Only the matching semantics are modelled.
- Reversed class ranges: in the model a range such as `z-a` holds nothing, as in Python 3.9 and later, which drop such ranges (older versions raise `re.error`, which is not modelled). One consequence of how `fnmatch.translate` drops them is not modelled. When a dropped range is at the front of a class that is not negated and a `!` follows it, translate then reads that `!` as negation: `[z-a!b]` matches any character but `b`, and `[z-a!]` matches any single character. The model keeps such a `!` as an ordinary member, so `[z-a!b]` matches only `!` and `b`. Modelling this would mean modelling translate's chunk-merging step, and the difference only arises in patterns that hold a reversed range.
- Malformed maps are preconditions (`WellFormed`), not modelled errors. This covers a record without `F`, an `F` that is neither a string nor a list of strings, and duplicate keys. The code lets the first two escape as `KeyError` or `TypeError`, and a Python dict cannot hold duplicate keys.
- Map keys are strings. YAML can also produce keys of other types, which the code passes through unchanged.
