/** Three patterns characterised for every path, two end-to-end examples
    worked through the resolver, and two runs that never compile a pattern. */
module Scenarios {
  import opened Wrappers
  import opened JsString
  import opened Glob
  import opened Labeler

  /** The prefix `a/` followed by `**` matches `a/b`, but neither `a/b/c.txt`
      nor `a/` itself: the chained replacements turn `**` into `.[^/]*`. */
  lemma DoubleStarStaysInOneDirectory()
    ensures MatchesPattern("a/b", "a/**")
    ensures !MatchesPattern("a/b/c.txt", "a/**")
    ensures !MatchesPattern("a/", "a/**")
  {
    var t := Tokens("a/**");
    assert t == [Lit('a'), Lit('/'), AnyChar, NonSlashStar];
    assert FullMatch(t[3..], []);
    assert FullMatch(t[2..], "b");
    assert FullMatch(t[1..], "/b");
    assert FullMatch(t, "a/b");
    assert !FullMatch(t[3..], "/c.txt");
    assert !FullMatch(t[2..], "b/c.txt");
    assert !FullMatch(t[1..], "/b/c.txt");
    assert !FullMatch(t, "a/b/c.txt");
  }

  /** A run without `/` followed by fixed-width tokens leaves no `/` before the
      last characters. */
  lemma RunThenFixed(tail: seq<Token>, u: string)
    requires NonSlashStar !in tail
    requires FullMatch([NonSlashStar] + tail, u)
    ensures |u| >= |tail| && '/' !in u[..|u| - |tail|]
    ensures FullMatch(tail, u[|u| - |tail|..])
  {
    var k := MatchAppendElim([NonSlashStar], tail, u);
    FixedWidth(tail, u[k..]);
    NonSlashRun(u[..k]);
  }

  /** A pattern that starts with a literal prefix matches a path exactly when
      the path starts with that prefix and the rest of the pattern matches the
      rest of the path. */
  lemma LiteralPrefix(lit: string, rest: string, path: string)
    requires IsLiteral(lit)
    ensures Tokens(lit + rest) == Tokens(lit) + Tokens(rest)
    ensures FullMatch(Tokens(lit + rest), path) <==>
            |path| >= |lit| && path[..|lit|] == lit && FullMatch(Tokens(rest), path[|lit|..])
  {
    if lit != [] { assert lit[|lit| - 1] in lit; }
    TokensAppend(lit, rest);
    MatchAppend(Tokens(lit), Tokens(rest), path);
    forall k | 0 <= k <= |path|
      ensures FullMatch(Tokens(lit), path[..k]) <==> path[..k] == lit
    {
      LiteralTokens(lit, path[..k]);
    }
    if |path| >= |lit| && path[..|lit|] == lit && FullMatch(Tokens(rest), path[|lit|..]) {
      assert FullMatch(Tokens(lit), path[..|lit|]);
    }
  }

  /** The tokens of `*.md`: a run without `/`, then any character, then `md`. */
  lemma MdTokens()
    ensures Tokens("md") == [Lit('m'), Lit('d')]
    ensures Tokens("*.md") == [NonSlashStar, AnyChar, Lit('m'), Lit('d')]
  {
    var p := "*.md";
    assert p[1] == '.' && !("**" <= p);
    assert p[1..] == ".md" && ".md"[1..] == "md" && "md"[1..] == "d" && "d"[1..] == [];
    assert Tokens("d") == [Lit('d')];
    assert Tokens("md") == [Lit('m'), Lit('d')];
    assert Tokens(".md") == [AnyChar, Lit('m'), Lit('d')];
  }

  /** `.md` after the run of `*.md`: one character other than a line
      terminator, then `md`. */
  lemma DotMd(u: string)
    ensures FullMatch([AnyChar, Lit('m'), Lit('d')], u) <==>
            |u| == 3 && !IsLineTerminator(u[0]) && u[1..] == "md"
  {
    MdTokens();
    if u != [] {
      LiteralTokens("md", u[1..]);
    }
  }

  /** `*.md` matches exactly the paths without `/` before their last three
      characters that end in any character other than a line terminator
      followed by `md`: the `.` is not escaped. */
  lemma MdPattern(u: string)
    ensures Matches(u, "*.md") <==>
            |u| >= 3 && '/' !in u[..|u| - 3] && !IsLineTerminator(u[|u| - 3]) && u[|u| - 2..] == "md"
  {
    var tail: seq<Token> := [AnyChar, Lit('m'), Lit('d')];
    MdTokens();
    assert [NonSlashStar, AnyChar, Lit('m'), Lit('d')] == [NonSlashStar] + tail;
    if |u| >= 3 {
      var k := |u| - 3;
      DotMd(u[k..]);
      assert u[k..][0] == u[k] && u[k..][1..] == u[|u| - 2..];
      if '/' !in u[..k] && !IsLineTerminator(u[k]) && u[|u| - 2..] == "md" {
        NonSlashRun(u[..k]);
        MatchAppendIntro([NonSlashStar], tail, u, k);
      }
    }
    if Matches(u, "*.md") {
      RunThenFixed(tail, u);
    }
  }

  /** A literal prefix (possibly empty) followed by `**` matches exactly the
      paths that go on after the prefix with one character other than a line
      terminator (which may be `/`), then a run without `/`. */
  lemma PrefixedDoubleStar(lit: string, path: string)
    requires IsLiteral(lit)
    ensures Matches(path, lit + "**") <==>
            |path| > |lit| && path[..|lit|] == lit && !IsLineTerminator(path[|lit|]) && '/' !in path[|lit| + 1..]
  {
    LiteralPrefix(lit, "**", path);
    assert Tokens("**") == [AnyChar, NonSlashStar];
    if |path| >= |lit| {
      var u := path[|lit|..];
      OneCharThenRun(u);
      if |u| >= 1 {
        assert u[0] == path[|lit|] && u[1..] == path[|lit| + 1..];
      }
    }
  }

  /** The prefix `src/` followed by `**` matches exactly `src/`, then one
      character other than a line terminator (which may be `/`), then a run
      without `/`. */
  lemma SrcPattern(path: string)
    ensures Matches(path, "src/**") <==>
            |path| >= 5 && path[..4] == "src/" && !IsLineTerminator(path[4]) && '/' !in path[5..]
  {
    PrefixedDoubleStar("src/", path);
    assert "src/" + "**" == "src/**";
  }

  /** A literal prefix (possibly empty) followed by `*.md` matches exactly the
      paths that go on after the prefix as `*.md` would: the `*` never crosses
      a `/`, and only the character before `md` may be one. */
  lemma PrefixedMd(lit: string, path: string)
    requires IsLiteral(lit)
    ensures Matches(path, lit + "*.md") <==>
            |path| >= |lit| + 3 && path[..|lit|] == lit && '/' !in path[|lit|..|path| - 3] &&
            !IsLineTerminator(path[|path| - 3]) && path[|path| - 2..] == "md"
  {
    LiteralPrefix(lit, "*.md", path);
    if |path| >= |lit| {
      var u := path[|lit|..];
      MdPattern(u);
      if |u| >= 3 {
        assert u[..|u| - 3] == path[|lit|..|path| - 3];
        assert u[|u| - 3] == path[|path| - 3];
        assert u[|u| - 2..] == path[|path| - 2..];
      }
    }
  }

  /** The prefix `docs/` followed by `*.md` matches exactly `docs/`, a run
      without `/`, one character other than a line terminator (which may be
      `/`: `docs/sub/md` matches), then `md`. */
  lemma DocsPattern(path: string)
    ensures Matches(path, "docs/*.md") <==>
            |path| >= 8 && path[..5] == "docs/" && '/' !in path[5..|path| - 3] &&
            !IsLineTerminator(path[|path| - 3]) && path[|path| - 2..] == "md"
  {
    PrefixedMd("docs/", path);
    assert "docs/" + "*.md" == "docs/*.md";
  }

  /** The hits of two entries for one file, in entry order. */
  lemma FileHitsOfTwo(file: string, e0: (string, string), e1: (string, string))
    ensures FileHits(file, [e0, e1]) ==
            (if Matches(file, e0.0) then [e0.1] else []) + (if Matches(file, e1.0) then [e1.1] else [])
  {
    assert [e0, e1][..1] == [e0] && [e0][..0] == [];
    assert FileHits(file, []) == [];
    assert FileHits(file, [e0]) == (if Matches(file, e0.0) then [e0.1] else []);
  }

  /** The hits of three files, file after file. */
  lemma HitsOfThree(f0: string, f1: string, f2: string, entries: seq<(string, string)>)
    ensures Hits([f0, f1, f2], entries) ==
            FileHits(f0, entries) + FileHits(f1, entries) + FileHits(f2, entries)
  {
    assert [f0, f1, f2][..2] == [f0, f1] && [f0, f1][..1] == [f0] && [f0][..0] == [];
    assert Hits([], entries) == [];
    assert Hits([f0], entries) == FileHits(f0, entries);
    assert Hits([f0, f1], entries) == FileHits(f0, entries) + FileHits(f1, entries);
  }

  /** The resolved labels for two entries and three files, from what each entry
      does with each file. */
  lemma ResolveTwoByThree(f0: string, f1: string, f2: string, e0: (string, string), e1: (string, string))
    requires Matches(f0, e0.0) && !Matches(f0, e1.0)
    requires !Matches(f1, e0.0) && Matches(f1, e1.0)
    requires !Matches(f2, e0.0) && !Matches(f2, e1.0)
    requires e0.1 != e1.1
    ensures Dedup(Hits([f0, f1, f2], [e0, e1])) == [e0.1, e1.1]
  {
    FileHitsOfTwo(f0, e0, e1);
    FileHitsOfTwo(f1, e0, e1);
    FileHitsOfTwo(f2, e0, e1);
    HitsOfThree(f0, f1, f2, [e0, e1]);
    assert Hits([f0, f1, f2], [e0, e1]) == [e0.1] + [e1.1];
    DedupStep([e0.1], e1.1);
    DedupStep([], e0.1);
  }

  /** What the prefix `src/` followed by `**` does with each of the three
      files. */
  lemma BackendMatchesApp()
    ensures Matches("src/app.js", "src/**")
  {
    var a := "src/app.js";
    SrcPattern(a);
    assert a[..4] == "src/" && a[5..] == "pp.js";
  }

  lemma BackendMissesReadme()
    ensures !Matches("README.md", "src/**")
  {
    var r := "README.md";
    SrcPattern(r);
    assert r[..4][0] == 'R';
  }

  /** The prefix `src/` followed by `**` does not match a path with a `/`
      after its fifth character. */
  lemma SrcMissesNested(path: string)
    requires |path| >= 5 && '/' in path[5..]
    ensures !Matches(path, "src/**")
  {
    SrcPattern(path);
  }

  lemma BackendMissesHelpers()
    ensures !Matches("src/util/helpers.js", "src/**")
  {
    var h := "src/util/helpers.js";
    assert h[5..][3] == '/';
    SrcMissesNested(h);
  }

  /** What `*.md` does with each of the three files. */
  lemma DocsMatches()
    ensures !Matches("src/app.js", "*.md")
    ensures Matches("README.md", "*.md")
    ensures !Matches("src/util/helpers.js", "*.md")
  {
    var a, r, h := "src/app.js", "README.md", "src/util/helpers.js";
    MdPattern(a);
    assert a[|a| - 2..][0] == 'j';
    MdPattern(r);
    assert r[..|r| - 3] == "README" && r[|r| - 2..] == "md";
    MdPattern(h);
    assert h[|h| - 2..][0] == 'j';
  }

  /** The pattern map that sends the prefix `src/` followed by `**` to
      `backend` and `*.md` to `docs`, against src/app.js, README.md and
      src/util/helpers.js: `backend` (from src/app.js only, since the first
      pattern does not match src/util/helpers.js) and `docs`, in that order,
      reported as `backend,docs`. */
  lemma BackendAndDocs()
    ensures Dedup(Hits(["src/app.js", "README.md", "src/util/helpers.js"],
                       [("src/**", "backend"), ("*.md", "docs")])) == ["backend", "docs"]
  {
    BackendMatchesApp();
    BackendMissesReadme();
    BackendMissesHelpers();
    DocsMatches();
    ResolveTwoByThree("src/app.js", "README.md", "src/util/helpers.js", ("src/**", "backend"), ("*.md", "docs"));
  }

  /** The resolved labels of the example above, joined for the step output. */
  lemma BackendAndDocsOutput()
    ensures Join(["backend", "docs"], ",") == "backend,docs"
  {
  }

  /** The prefix `tests/` followed by `**` does not match src/app.js. */
  lemma TestsMissesApp()
    ensures !Matches("src/app.js", "tests/**")
  {
    var path := "src/app.js";
    PrefixedDoubleStar("tests/", path);
    assert "tests/" + "**" == "tests/**";
    assert path[..6][0] == 's';
  }

  /** The pattern map that sends the prefix `tests/` followed by `**` to `qa`,
      against src/app.js: no label, so no `addLabels` call and an empty
      `labels_added`. */
  lemma NothingMatches()
    ensures Dedup(Hits(["src/app.js"], [("tests/**", "qa")])) == []
    ensures !AnyMatch(["src/app.js"], [("tests/**", "qa")])
  {
    TestsMissesApp();
    ResolvedLabels(["src/app.js"], [("tests/**", "qa")]);
  }

  /** Patterns the matcher is never applied to need not lie in the modelled
      fragment: an event that is not a pull request is skipped before any
      pattern is read, and with no changed files the loops never run, so
      `addLabels` is not called and `labels_added` is empty. */
  method UnreachedPatterns() returns (skipped: Outcome, noFiles: Outcome)
    ensures skipped == NotPullRequest
    ensures noFiles == Done(None, "")
  {
    skipped := Run(false, ["x"], [("docs/(draft)/*.md", "docs")]);
    noFiles := Run(true, [], [("a(b", "x")]);
  }
}
