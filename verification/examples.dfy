/**
  Worked queries against small ownership maps, each derived from the contracts
  of the lookup rather than by evaluating it.
 */
module WhoExamples {
  import Glob
  import opened Who

  /** An area whose `F` field is the single glob `g`. */
  function Area(g: string): Record {
    map["F" := Str(g)]
  }

  /** The key of a successful lookup. */
  function KeyOf(r: Result<Record>): Value
    requires r.Ok? && "key" in r.value
  {
    r.value["key"]
  }

  /** Two areas with one glob each, in order. */
  function TwoAreas(k1: string, g1: string, k2: string, g2: string): Maintainers {
    [(k1, Area(g1)), (k2, Area(g2))]
  }

  /** In `TwoAreas`, which globs exist and what they are. */
  lemma TwoAreasGlobs(k1: string, g1: string, k2: string, g2: string)
    ensures AllHaveGlobs(TwoAreas(k1, g1, k2, g2))
    ensures forall i, j :: IsGlob(TwoAreas(k1, g1, k2, g2), i, j) <==> (i == 0 || i == 1) && j == 0
    ensures GlobAt(TwoAreas(k1, g1, k2, g2), 0, 0) == g1 && GlobAt(TwoAreas(k1, g1, k2, g2), 1, 0) == g2
  {
  }

  /** Of two areas with one glob each, the second wins when its glob matches and beats every match of the first. */
  lemma SecondAreaWins(k1: string, g1: string, k2: string, g2: string, path: string)
    requires k1 != k2
    requires Glob.Match(g2, path)
    requires Glob.Match(g1, path) ==> |g1| < |g2|
    ensures var r := GetRelevantDat(path, TwoAreas(k1, g1, k2, g2));
      r.Ok? && "key" in r.value && KeyOf(r) == Str(k2)
  {
    var dat := TwoAreas(k1, g1, k2, g2);
    assert WellFormed(dat) && Owns(dat, path, 1, 0) by {
      TwoAreasGlobs(k1, g1, k2, g2);
    }
    OwnerDecides(dat, path, 1, 0);
  }

  /** Of two areas with one glob each, the first wins when its glob matches and no match of the second is longer. */
  lemma FirstAreaWins(k1: string, g1: string, k2: string, g2: string, path: string)
    requires k1 != k2
    requires Glob.Match(g1, path)
    requires Glob.Match(g2, path) ==> |g2| <= |g1|
    ensures var r := GetRelevantDat(path, TwoAreas(k1, g1, k2, g2));
      r.Ok? && "key" in r.value && KeyOf(r) == Str(k1)
  {
    var dat := TwoAreas(k1, g1, k2, g2);
    assert WellFormed(dat) && Owns(dat, path, 0, 0) by {
      TwoAreasGlobs(k1, g1, k2, g2);
    }
    OwnerDecides(dat, path, 0, 0);
  }

  // `docs/*` owns `docs/readme.md`; `src/core/*` does not match it.
  lemma OnlyMatchWins()
    ensures var r := GetRelevantDat("docs/readme.md", TwoAreas("core", "src/core/*", "docs", "docs/*"));
      r.Ok? && "key" in r.value && KeyOf(r) == Str("docs")
  {
    var path := "docs/readme.md";
    assert Glob.Match("docs/*", path) by {
      Glob.PrefixStar("docs/", path);
      assert "docs/" + "*" == "docs/*";
    }
    assert !Glob.Match("src/core/*", path) by {
      Glob.PrefixStar("src/core/", path);
      assert "src/core/" + "*" == "src/core/*";
    }
    SecondAreaWins("core", "src/core/*", "docs", "docs/*", path);
  }

  // `src/core/*` and `src/*` both match `src/core/engine.c`; the longer glob wins.
  lemma LongestGlobWins()
    ensures Glob.Match("src/*", "src/core/engine.c")
    ensures var r := GetRelevantDat("src/core/engine.c", TwoAreas("a", "src/*", "b", "src/core/*"));
      r.Ok? && "key" in r.value && KeyOf(r) == Str("b")
  {
    var path := "src/core/engine.c";
    assert Glob.Match("src/*", path) by {
      Glob.PrefixStar("src/", path);
      assert "src/" + "*" == "src/*";
    }
    assert Glob.Match("src/core/*", path) by {
      Glob.PrefixStar("src/core/", path);
      assert "src/core/" + "*" == "src/core/*";
    }
    SecondAreaWins("a", "src/*", "b", "src/core/*", path);
  }

  // `*.md` matches `readme.md`: the star takes `readme`.
  lemma MdGlobMatches()
    ensures Glob.Match("*.md", "readme.md")
  {
    var path := "readme.md";
    Glob.StarSplit(".md", path);
    assert path[6..] == ".md";
    Glob.LiteralMatch(".md", ".md");
    assert "*" + ".md" == "*.md";
  }

  // `*` and `*.md` both match `readme.md`; the longer `*.md` wins.
  lemma SuffixGlobBeatsStar()
    ensures Glob.Match("*", "readme.md")
    ensures var r := GetRelevantDat("readme.md", TwoAreas("a", "*", "b", "*.md"));
      r.Ok? && "key" in r.value && KeyOf(r) == Str("b")
  {
    Glob.StarMatchesAll("readme.md");
    MdGlobMatches();
    SecondAreaWins("a", "*", "b", "*.md", "readme.md");
  }

  // `x/*` and `*` + `/y` are equally long and both match `x/y`: the earlier area wins.
  lemma TieGoesToEarlierArea()
    ensures Glob.Match("*/y", "x/y")
    ensures var r := GetRelevantDat("x/y", TwoAreas("a", "x/*", "b", "*/y"));
      r.Ok? && "key" in r.value && KeyOf(r) == Str("a")
  {
    var path := "x/y";
    assert Glob.Match("*/y", path) by {
      Glob.StarSplit("/y", path);
      assert path[1..] == "/y";
      Glob.LiteralMatch("/y", "/y");
      assert "*" + "/y" == "*/y";
    }
    assert Glob.Match("x/*", path) by {
      Glob.PrefixStar("x/", path);
      assert "x/" + "*" == "x/*";
    }
    FirstAreaWins("a", "x/*", "b", "*/y", path);
  }

  // Neither `lib/*` nor `tools/*` matches `bin/tool`: the lookup fails carrying the path.
  lemma NoGlobMatches()
    ensures GetRelevantDat("bin/tool", [("a", map["F" := StrList(["lib/*", "tools/*"])])]) == NoMatch("bin/tool")
  {
    var path := "bin/tool";
    assert !Glob.Match("lib/*", path) by {
      Glob.PrefixStar("lib/", path);
      assert "lib/" + "*" == "lib/*";
    }
    assert !Glob.Match("tools/*", path) by {
      Glob.PrefixStar("tools/", path);
      assert "tools/" + "*" == "tools/*";
    }
    NoAreaMatches("a", "lib/*", "tools/*", path);
  }

  /** One area with two globs, neither matching: the lookup fails carrying the path. */
  lemma NoAreaMatches(k: string, g1: string, g2: string, path: string)
    requires !Glob.Match(g1, path) && !Glob.Match(g2, path)
    ensures GetRelevantDat(path, [(k, map["F" := StrList([g1, g2])])]) == NoMatch(path)
  {
    var dat := [(k, map["F" := StrList([g1, g2])])];
    assert GlobAt(dat, 0, 0) == g1 && GlobAt(dat, 0, 1) == g2;
    assert forall i, j :: IsGlob(dat, i, j) ==> i == 0 && (j == 0 || j == 1);
  }

  // `[a-c]` matches exactly one character from `a` to `c`.
  lemma RangeClassMatches(c: char)
    ensures Glob.Match("[a-c]", [c]) <==> 'a' <= c <= 'c'
  {
    Glob.PlainClass("a-c", c);
    Glob.InItemsRange('a', 'c', "", c);
    assert "[" + "a-c" + "]" == "[a-c]" && ['a', '-', 'c'] + "" == "a-c";
  }

  // In `[]x` the `]` cannot close the class, so the pattern is the literal text `[]x`.
  lemma UnclosedClassIsLiteral(s: string)
    ensures Glob.Match("[]x", s) <==> s == "[]x"
  {
    assert Glob.ClassClose("[" + "]x") == 3;
    Glob.UnclosedBracketLiteral("]x", s);
    assert "[" + "]x" == "[]x";
  }
}
