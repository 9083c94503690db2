/**
  Shell-style glob matching with the semantics of Python's `fnmatch.fnmatch`
  on a POSIX system (where `os.path.normcase` is the identity).

  A pattern is matched against the WHOLE string:
  - `*` matches any run of characters, `/` and newlines included;
  - `?` matches exactly one character;
  - `[seq]` matches one character of the class, `[!seq]` one character not in it;
    a `]` directly after `[` or `[!` belongs to the class, `a-z` is a range,
    and a `[` with no closing `]` is an ordinary character;
  - every other character matches itself (case-sensitively).
 */
module Glob {

  /** A pattern element that consumes exactly one character of the subject. */
  datatype Atom =
    | AnyChar                                  // `?`
    | Literal(c: char)                         // an ordinary character
    | Class(negated: bool, items: string)      // `[items]` or `[!items]`

  /** Characters with a meaning of their own outside a bracket class. */
  predicate IsMeta(c: char) {
    c == '*' || c == '?' || c == '['
  }

  /** A pattern made of ordinary characters only. */
  predicate NoMeta(p: string) {
    forall i :: 0 <= i < |p| ==> !IsMeta(p[i])
  }

  /** The first index at or after `from` that holds `]`, or `|p|` when there is none. */
  function FindClose(p: string, from: nat): (j: nat)
    requires from <= |p|
    ensures from <= j <= |p|
    ensures j < |p| ==> p[j] == ']'
    ensures forall k :: from <= k < j ==> p[k] != ']'
    decreases |p| - from
  {
    if from == |p| then |p|
    else if p[from] == ']' then from
    else FindClose(p, from + 1)
  }

  /**
    For a pattern starting with `[`: the index of the `]` closing the class, or
    `|p|` when the class is unterminated. A `!` right after `[`, and then a `]`
    right after that, are part of the class body and cannot close it.
   */
  function ClassClose(p: string): (j: nat)
    requires |p| > 0 && p[0] == '['
    ensures j <= |p|
    ensures j < |p| ==> 2 <= j && p[j] == ']'
    ensures j < |p| && p[1] == '!' ==> 3 <= j
    ensures var start := if 1 < |p| && p[1] == '!' then 2 else 1;
      forall k :: start < k < j ==> p[k] != ']'
  {
    var start := if 1 < |p| && p[1] == '!' then 2 else 1;
    var from := if start < |p| && p[start] == ']' then start + 1 else start;
    FindClose(p, from)
  }

  /** The one-character atom at the head of `p` and the number of pattern characters it spans. */
  function Head(p: string): (r: (Atom, nat))
    requires |p| > 0 && p[0] != '*'
    ensures 1 <= r.1 <= |p|
  {
    if p[0] == '?' then (AnyChar, 1)
    else if p[0] == '[' then
      var close := ClassClose(p);
      if close == |p| then (Literal('['), 1)
      else
        var body := p[1..close];
        if body[0] == '!' then (Class(true, body[1..]), close + 1)
        else (Class(false, body), close + 1)
    else (Literal(p[0]), 1)
  }

  /** Membership in a class body: `x-y` is the range from `x` to `y`, anything else is itself. */
  predicate InItems(items: string, c: char) {
    if |items| == 0 then false
    else if |items| >= 3 && items[1] == '-' then
      (items[0] <= c <= items[2]) || InItems(items[3..], c)
    else
      items[0] == c || InItems(items[1..], c)
  }

  predicate Accepts(a: Atom, c: char) {
    match a
    case AnyChar => true
    case Literal(l) => c == l
    case Class(negated, items) => InItems(items, c) != negated
  }

  /** `fnmatch(s, p)`: does pattern `p` match all of `s`? */
  predicate Match(p: string, s: string)
    decreases |p| + |s|
  {
    if |p| == 0 then |s| == 0
    else if p[0] == '*' then Match(p[1..], s) || (|s| > 0 && Match(p, s[1..]))
    else
      var (a, n) := Head(p);
      |s| > 0 && Accepts(a, s[0]) && Match(p[n..], s[1..])
  }

  /** A leading `*` matches exactly when the rest of the pattern matches some suffix. */
  lemma {:induction false} StarSplit(q: string, s: string)
    ensures Match("*" + q, s) <==> exists k :: 0 <= k <= |s| && Match(q, s[k..])
    decreases |s|
  {
    var p := "*" + q;
    assert p[0] == '*' && p[1..] == q;
    assert s[0..] == s;
    if |s| > 0 {
      StarSplit(q, s[1..]);
      forall k | 1 <= k <= |s|
        ensures s[k..] == s[1..][k - 1..]
      {
      }
      if Match(p, s) && !Match(q, s) {
        var k :| 0 <= k <= |s| - 1 && Match(q, s[1..][k..]);
        assert s[k + 1..] == s[1..][k..];
      }
    }
  }

  /** `*` on its own matches every string, separators included. */
  lemma StarMatchesAll(s: string)
    ensures Match("*", s)
  {
    StarSplit("", s);
    assert Match("", s[|s|..]);
    assert "*" + "" == "*";
  }

  /** `?` matches exactly the strings of length one. */
  lemma QuestionMatchesOneChar(s: string)
    ensures Match("?", s) <==> |s| == 1
  {
    assert "?"[1..] == "";
  }

  /** A pattern without metacharacters matches itself and nothing else. */
  lemma {:induction false} LiteralMatch(p: string, s: string)
    requires NoMeta(p)
    ensures Match(p, s) <==> s == p
  {
    if |p| > 0 && |s| > 0 {
      assert !IsMeta(p[0]);
      assert NoMeta(p[1..]) by {
        forall i | 0 <= i < |p| - 1 ensures !IsMeta(p[1..][i]) {
          assert p[1..][i] == p[i + 1];
        }
      }
      LiteralMatch(p[1..], s[1..]);
      if s[0] == p[0] && s[1..] == p[1..] {
        assert s == [s[0]] + s[1..] && p == [p[0]] + p[1..];
      }
    }
  }

  /**
    A literal prefix followed by `*` matches exactly the strings that start with
    the prefix, whatever separators follow it.
   */
  lemma {:induction false} PrefixStar(p: string, s: string)
    requires NoMeta(p)
    ensures Match(p + "*", s) <==> |p| <= |s| && s[..|p|] == p
  {
    if |p| == 0 {
      assert p + "*" == "*";
      StarMatchesAll(s);
    } else {
      var q := p + "*";
      assert q[0] == p[0] && !IsMeta(p[0]);
      assert q[1..] == p[1..] + "*";
      assert NoMeta(p[1..]) by {
        forall i | 0 <= i < |p| - 1 ensures !IsMeta(p[1..][i]) {
          assert p[1..][i] == p[i + 1];
        }
      }
      if |s| > 0 {
        PrefixStar(p[1..], s[1..]);
        if |p| <= |s| {
          assert s[..|p|] == [s[0]] + s[1..][..|p| - 1];
          assert p == [p[0]] + p[1..];
        }
      }
    }
  }

  /** A `[` that no `]` closes is an ordinary character, and the rest is still a pattern. */
  lemma UnclosedBracket(rest: string, s: string)
    requires ClassClose("[" + rest) == |rest| + 1
    ensures Match("[" + rest, s) <==> |s| > 0 && s[0] == '[' && Match(rest, s[1..])
  {
    var p := "[" + rest;
    assert p[1..] == rest;
  }

  /**
    Hence an unclosed `[` followed by ordinary characters matches only itself;
    this covers `[]x` and `[!]x`, whose `]` cannot close the class.
   */
  lemma {:induction false} UnclosedBracketLiteral(rest: string, s: string)
    requires NoMeta(rest)
    requires ClassClose("[" + rest) == |rest| + 1
    ensures Match("[" + rest, s) <==> s == "[" + rest
  {
    UnclosedBracket(rest, s);
    LiteralMatch(rest, if |s| > 0 then s[1..] else s);
    if |s| > 0 && s[0] == '[' && s[1..] == rest {
      assert s == [s[0]] + s[1..];
    }
  }

  /** A class body without `-` holds exactly its own characters. */
  lemma {:induction false} InItemsNoRange(items: string, c: char)
    requires forall i :: 0 <= i < |items| ==> items[i] != '-'
    ensures InItems(items, c) <==> c in items
  {
    if |items| > 0 {
      assert forall i :: 0 <= i < |items| - 1 ==> items[1..][i] == items[i + 1];
      InItemsNoRange(items[1..], c);
      assert items == [items[0]] + items[1..];
    }
  }

  /** `x-y` at the head of a class body is the range from `x` to `y`; a reversed range holds nothing. */
  lemma InItemsRange(x: char, y: char, rest: string, c: char)
    ensures InItems([x, '-', y] + rest, c) <==> (x <= c <= y) || InItems(rest, c)
  {
    assert ([x, '-', y] + rest)[3..] == rest;
  }

  /** A class body that `[` + body + `]` encloses in full: not starting with `!`, no `]` after its first character. */
  predicate PlainBody(body: string) {
    && |body| > 0
    && body[0] != '!'
    && forall i :: 1 <= i < |body| ==> body[i] != ']'
  }

  /** `[seq]` matches exactly the single characters that the class body holds. */
  lemma PlainClass(body: string, c: char)
    requires PlainBody(body)
    ensures Match("[" + body + "]", [c]) <==> InItems(body, c)
  {
    var pos := "[" + body + "]";
    assert pos[1..|pos| - 1] == body;
    assert ClassClose(pos) == |pos| - 1 by {
      assert pos[|pos| - 1] == ']';
      forall k | 2 <= k < |pos| - 1 ensures pos[k] != ']' {
        assert pos[k] == body[k - 1];
      }
    }
    assert Head(pos) == (Class(false, body), |pos|);
    assert pos[|pos|..] == [] && [c][1..] == [];
  }

  /** `[!seq]` matches exactly the single characters that `[seq]` does not. */
  lemma NegatedClass(body: string, c: char)
    requires PlainBody(body)
    ensures Match("[!" + body + "]", [c]) <==> !Match("[" + body + "]", [c])
  {
    var pos := "[" + body + "]";
    var neg := "[!" + body + "]";
    assert pos[1..|pos| - 1] == body;
    assert neg[1..|neg| - 1] == "!" + body;
    assert ClassClose(pos) == |pos| - 1 by {
      assert pos[|pos| - 1] == ']';
      forall k | 2 <= k < |pos| - 1 ensures pos[k] != ']' {
        assert pos[k] == body[k - 1];
      }
    }
    assert ClassClose(neg) == |neg| - 1 by {
      assert neg[1] == '!' && neg[|neg| - 1] == ']';
      forall k | 3 <= k < |neg| - 1 ensures neg[k] != ']' {
        assert neg[k] == body[k - 2];
      }
    }
    assert Head(pos) == (Class(false, body), |pos|);
    assert Head(neg) == (Class(true, body), |neg|);
    assert pos[|pos|..] == [] && neg[|neg|..] == [] && [c][1..] == [];
  }
}
