/** The path-pattern matcher: a glob is rewritten into a regular expression by
    three chained global replacements, anchored at both ends and matched against
    the whole file path. */
module Glob {
  import opened Wrappers
  import opened JsString

  // ---------------------------------------------------------------------------
  // The translation, as the source writes it
  // ---------------------------------------------------------------------------

  /** The regular-expression source built from a pattern: `**` becomes `.*`,
      then every `*` (including the one just produced) becomes `[^/]*`, then
      every `?` becomes `.`. Nothing else is escaped. */
  function Translate(pattern: string): string
  {
    ReplaceAll(ReplaceAll(ReplaceAll(pattern, "**", ".*"), "*", "[^/]*"), "?", ".")
  }

  /** The expression handed to the regular-expression constructor. */
  function Anchor(body: string): (r: string)
    ensures |r| == |body| + 2 && r[0] == '^' && r[|r| - 1] == '$' && r[1..|r| - 1] == body
  {
    "^" + body + "$"
  }

  /** What the chain of replacements amounts to, as one left-to-right pass:
      `**` gives `.[^/]*`, a lone `*` gives `[^/]*`, `?` gives `.`, and every
      other character is copied as it is. */
  function Rewrite(pattern: string): string
    decreases |pattern|
  {
    if pattern == [] then []
    else if "**" <= pattern then ".[^/]*" + Rewrite(pattern[2..])
    else if pattern[0] == '*' then "[^/]*" + Rewrite(pattern[1..])
    else if pattern[0] == '?' then "." + Rewrite(pattern[1..])
    else [pattern[0]] + Rewrite(pattern[1..])
  }

  /** The two later replacements, applied together. */
  function Finish(s: string): string
  {
    ReplaceAll(ReplaceAll(s, "*", "[^/]*"), "?", ".")
  }

  lemma FinishAppend(a: string, b: string)
    ensures Finish(a + b) == Finish(a) + Finish(b)
  {
    var a1, b1 := ReplaceAll(a, "*", "[^/]*"), ReplaceAll(b, "*", "[^/]*");
    ReplaceCharAppend(a, b, '*', "[^/]*");
    assert ReplaceAll(a + b, "*", "[^/]*") == a1 + b1;
    ReplaceCharAppend(a1, b1, '?', ".");
  }

  lemma ReplaceOne(x: char, c: char, rep: string)
    ensures ReplaceAll([x], [c], rep) == if x == c then rep else [x]
  {
    assert [x][1..] == [];
    assert ReplaceAll([], [c], rep) == [];
    if x == c {
      assert [c] <= [x] && [x][|[c]|..] == [];
      assert ReplaceAll([x], [c], rep) == rep + [];
    } else {
      assert [c] != [x] && [x][..|[c]|] == [x];
      assert ReplaceAll([x], [c], rep) == [x] + [];
    }
  }

  /** The two later replacements on a single character. */
  lemma FinishChar(x: char)
    ensures Finish([x]) == if x == '*' then "[^/]*" else if x == '?' then "." else [x]
  {
    ReplaceOne(x, '*', "[^/]*");
    if x == '*' {
      ReplaceCharAbsent("[^/]*", '?', ".");
    } else {
      ReplaceOne(x, '?', ".");
    }
  }

  /** One step of the chain when the pattern starts with `**`. */
  lemma TranslateDoubleStar(p: string)
    requires "**" <= p
    ensures Translate(p) == ".[^/]*" + Translate(p[2..])
  {
    var rest := ReplaceAll(p[2..], "**", ".*");
    assert ReplaceAll(p, "**", ".*") == ".*" + rest;
    FinishAppend(".*", rest);
    FinishAppend(".", "*");
    assert "." + "*" == ".*";
    FinishChar('.');
    FinishChar('*');
  }

  /** One step of the chain when the pattern does not start with `**`. */
  lemma TranslateSingle(p: string)
    requires p != [] && !("**" <= p)
    ensures Translate(p) == Finish([p[0]]) + Translate(p[1..])
  {
    var rest := ReplaceAll(p[1..], "**", ".*");
    assert ReplaceAll(p, "**", ".*") == [p[0]] + rest;
    FinishAppend([p[0]], rest);
  }

  /** The three chained replacements equal the one-pass rewrite, on every pattern. */
  lemma {:induction false} TranslateIsRewrite(pattern: string)
    ensures Translate(pattern) == Rewrite(pattern)
    decreases |pattern|
  {
    var p := pattern;
    if p == [] {
    } else if "**" <= p {
      TranslateDoubleStar(p);
      TranslateIsRewrite(p[2..]);
    } else {
      TranslateSingle(p);
      FinishChar(p[0]);
      TranslateIsRewrite(p[1..]);
    }
  }

  /** Every `*` in the translated expression is the tail of a `[^/]*`. */
  ghost predicate StarsGuarded(r: string)
  {
    forall i | 0 <= i < |r| && r[i] == '*' ::
      4 <= i && r[i - 4] == '[' && r[i - 3] == '^' && r[i - 2] == '/' && r[i - 1] == ']'
  }

  lemma GuardedAppend(x: string, y: string)
    requires StarsGuarded(x) && StarsGuarded(y)
    ensures StarsGuarded(x + y)
  {
    var r := x + y;
    forall i | 0 <= i < |r| && r[i] == '*'
      ensures 4 <= i && r[i - 4] == '[' && r[i - 3] == '^' && r[i - 2] == '/' && r[i - 1] == ']'
    {
      if i < |x| {
        assert x[i] == '*';
      } else {
        assert y[i - |x|] == '*';
      }
    }
  }

  lemma {:induction false} RewriteShape(pattern: string)
    ensures StarsGuarded(Rewrite(pattern))
    ensures '?' !in Rewrite(pattern)
    decreases |pattern|
  {
    var p := pattern;
    if p == [] {
    } else if "**" <= p {
      RewriteShape(p[2..]);
      assert StarsGuarded(".[^/]*");
      GuardedAppend(".[^/]*", Rewrite(p[2..]));
    } else if p[0] == '*' {
      RewriteShape(p[1..]);
      assert StarsGuarded("[^/]*");
      GuardedAppend("[^/]*", Rewrite(p[1..]));
    } else if p[0] == '?' {
      RewriteShape(p[1..]);
      GuardedAppend(".", Rewrite(p[1..]));
    } else {
      RewriteShape(p[1..]);
      GuardedAppend([p[0]], Rewrite(p[1..]));
    }
  }

  /** In the translated expression no `?` is left, and every `*` is the
      repetition of a `[^/]*` class. */
  lemma TranslateShape(pattern: string)
    ensures '?' !in Translate(pattern)
    ensures forall i | 0 <= i < |Translate(pattern)| && Translate(pattern)[i] == '*' ::
              4 <= i && Translate(pattern)[i - 4..i + 1] == "[^/]*"
  {
    TranslateIsRewrite(pattern);
    RewriteShape(pattern);
    var r := Translate(pattern);
    forall i | 0 <= i < |r| && r[i] == '*'
      ensures 4 <= i && r[i - 4..i + 1] == "[^/]*"
    {
      assert r[i - 4..i + 1] == [r[i - 4], r[i - 3], r[i - 2], r[i - 1], r[i]];
    }
  }

  // ---------------------------------------------------------------------------
  // The fragment of regular expressions the translation produces
  // ---------------------------------------------------------------------------

  /** One matching step of the compiled expression: a literal character, `.`
      (one character other than a line terminator), or `[^/]*` (a run of
      characters none of which is `/`). */
  datatype Token = Lit(c: char) | AnyChar | NonSlashStar

  /** The characters `.` does not match without the `s` flag. */
  predicate IsLineTerminator(c: char)
  {
    c == '\n' || c == '\r' || c == '\U{2028}' || c == '\U{2029}'
  }

  /** Regular-expression syntax characters this model does not cover. */
  predicate IsRegexMeta(c: char)
  {
    c in "+()[]{}\\^$|"
  }

  /** Patterns whose translation stays inside the modelled fragment. */
  predicate InFragment(pattern: string)
  {
    forall c | c in pattern :: !IsRegexMeta(c)
  }

  function Prepend(t: Token, rest: Option<seq<Token>>): Option<seq<Token>>
  {
    match rest
    case Some(ts) => Some([t] + ts)
    case None => None
  }

  /** Reads an unanchored expression body into tokens; None for anything
      outside the modelled fragment. */
  function ParseBody(body: string): Option<seq<Token>>
    decreases |body|
  {
    if body == [] then Some([])
    else if "[^/]*" <= body then Prepend(NonSlashStar, ParseBody(body[5..]))
    else if body[0] == '.' then Prepend(AnyChar, ParseBody(body[1..]))
    else if body[0] in "*?+()[]{}\\^$|" then None
    else Prepend(Lit(body[0]), ParseBody(body[1..]))
  }

  /** `new RegExp(source)` for an expression anchored with `^` and `$`. */
  function Compile(source: string): Option<seq<Token>>
  {
    if |source| >= 2 && source[0] == '^' && source[|source| - 1] == '$'
    then ParseBody(source[1..|source| - 1])
    else None
  }

  /** `test` on an anchored expression: the tokens match the whole string. */
  predicate FullMatch(tokens: seq<Token>, s: string)
    decreases |s|, |tokens|
  {
    if tokens == [] then s == []
    else match tokens[0]
      case Lit(c) => s != [] && s[0] == c && FullMatch(tokens[1..], s[1..])
      case AnyChar => s != [] && !IsLineTerminator(s[0]) && FullMatch(tokens[1..], s[1..])
      case NonSlashStar => FullMatch(tokens[1..], s) || (s != [] && s[0] != '/' && FullMatch(tokens, s[1..]))
  }

  /** The tokens a pattern stands for, read straight from the glob:
      `**` is any character then a run without `/`, a lone `*` is a run without
      `/`, `?` and `.` are any one character, the rest are literal. */
  function Tokens(pattern: string): seq<Token>
    decreases |pattern|
  {
    if pattern == [] then []
    else if "**" <= pattern then [AnyChar, NonSlashStar] + Tokens(pattern[2..])
    else if pattern[0] == '*' then [NonSlashStar] + Tokens(pattern[1..])
    else if pattern[0] == '?' || pattern[0] == '.' then [AnyChar] + Tokens(pattern[1..])
    else [Lit(pattern[0])] + Tokens(pattern[1..])
  }

  lemma {:induction false} ParseRewrite(pattern: string)
    requires InFragment(pattern)
    ensures ParseBody(Rewrite(pattern)) == Some(Tokens(pattern))
    decreases |pattern|
  {
    var p := pattern;
    if p == [] {
    } else if "**" <= p {
      var rest := Rewrite(p[2..]);
      ParseRewrite(p[2..]);
      assert (".[^/]*" + rest)[0] == '.';
      assert (".[^/]*" + rest)[1..] == "[^/]*" + rest;
      assert "[^/]*" <= "[^/]*" + rest;
      assert ("[^/]*" + rest)[5..] == rest;
      assert [AnyChar] + ([NonSlashStar] + Tokens(p[2..])) == [AnyChar, NonSlashStar] + Tokens(p[2..]);
    } else if p[0] == '*' {
      var rest := Rewrite(p[1..]);
      ParseRewrite(p[1..]);
      assert ("[^/]*" + rest)[5..] == rest;
    } else {
      var rest := Rewrite(p[1..]);
      ParseRewrite(p[1..]);
      assert p[0] in p;
      assert ([if p[0] == '?' then '.' else p[0]] + rest)[1..] == rest;
    }
  }

  /** The anchored translation of an in-fragment pattern always compiles, and
      to exactly the tokens the glob stands for. */
  lemma CompileTranslate(pattern: string)
    requires InFragment(pattern)
    ensures Compile(Anchor(Translate(pattern))) == Some(Tokens(pattern))
  {
    TranslateIsRewrite(pattern);
    ParseRewrite(pattern);
    var body := Translate(pattern);
    assert Anchor(body)[1..|Anchor(body)| - 1] == body;
  }

  /** `matchesPattern(filePath, pattern)`: translate, anchor, compile, test.
      The result is the match of the pattern's own tokens. */
  function MatchesPattern(filePath: string, pattern: string): (r: bool)
    requires InFragment(pattern)
    ensures r == FullMatch(Tokens(pattern), filePath)
  {
    CompileTranslate(pattern);
    match Compile(Anchor(Translate(pattern)))
    case Some(tokens) => FullMatch(tokens, filePath)
    case None => false
  }

  // ---------------------------------------------------------------------------
  // What a match means
  // ---------------------------------------------------------------------------

  lemma {:induction false} MatchAppendIntro(t1: seq<Token>, t2: seq<Token>, s: string, k: nat)
    requires k <= |s| && FullMatch(t1, s[..k]) && FullMatch(t2, s[k..])
    ensures FullMatch(t1 + t2, s)
    decreases |s|, |t1|
  {
    if t1 == [] {
      assert t1 + t2 == t2;
      assert s[k..] == s;
    } else {
      var t := t1 + t2;
      assert t[0] == t1[0] && t[1..] == t1[1..] + t2;
      match t1[0]
      case Lit(c) =>
        assert s[..k][1..] == s[1..][..k - 1];
        assert s[1..][k - 1..] == s[k..];
        MatchAppendIntro(t1[1..], t2, s[1..], k - 1);
      case AnyChar =>
        assert s[..k][1..] == s[1..][..k - 1];
        assert s[1..][k - 1..] == s[k..];
        MatchAppendIntro(t1[1..], t2, s[1..], k - 1);
      case NonSlashStar =>
        if FullMatch(t1[1..], s[..k]) {
          MatchAppendIntro(t1[1..], t2, s, k);
        } else {
          assert s[..k][1..] == s[1..][..k - 1];
          assert s[1..][k - 1..] == s[k..];
          MatchAppendIntro(t1, t2, s[1..], k - 1);
        }
    }
  }

  lemma {:induction false} MatchAppendElim(t1: seq<Token>, t2: seq<Token>, s: string) returns (k: nat)
    requires FullMatch(t1 + t2, s)
    ensures k <= |s| && FullMatch(t1, s[..k]) && FullMatch(t2, s[k..])
    decreases |s|, |t1|
  {
    if t1 == [] {
      assert t1 + t2 == t2;
      k := 0;
      assert s[k..] == s;
    } else {
      var t := t1 + t2;
      assert t[0] == t1[0] && t[1..] == t1[1..] + t2;
      match t1[0]
      case Lit(c) =>
        var k' := MatchAppendElim(t1[1..], t2, s[1..]);
        k := k' + 1;
        assert s[..k][1..] == s[1..][..k'];
        assert s[1..][k'..] == s[k..];
      case AnyChar =>
        var k' := MatchAppendElim(t1[1..], t2, s[1..]);
        k := k' + 1;
        assert s[..k][1..] == s[1..][..k'];
        assert s[1..][k'..] == s[k..];
      case NonSlashStar =>
        if FullMatch(t1[1..] + t2, s) {
          k := MatchAppendElim(t1[1..], t2, s);
        } else {
          var k' := MatchAppendElim(t1, t2, s[1..]);
          k := k' + 1;
          assert s[..k][1..] == s[1..][..k'];
          assert s[1..][k'..] == s[k..];
        }
    }
  }

  /** Matching a concatenation of tokens is matching a split of the string. */
  lemma MatchAppend(t1: seq<Token>, t2: seq<Token>, s: string)
    ensures FullMatch(t1 + t2, s) <==>
            exists k :: 0 <= k <= |s| && FullMatch(t1, s[..k]) && FullMatch(t2, s[k..])
  {
    if FullMatch(t1 + t2, s) {
      var k := MatchAppendElim(t1, t2, s);
    }
    forall k | 0 <= k <= |s| && FullMatch(t1, s[..k]) && FullMatch(t2, s[k..])
      ensures FullMatch(t1 + t2, s)
    {
      MatchAppendIntro(t1, t2, s, k);
    }
  }

  lemma MatchAroundElim(t1: seq<Token>, m: seq<Token>, t2: seq<Token>, s: string) returns (i: nat, j: nat)
    requires FullMatch(t1 + m + t2, s)
    ensures i <= j <= |s| && FullMatch(t1, s[..i]) && FullMatch(m, s[i..j]) && FullMatch(t2, s[j..])
  {
    assert t1 + m + t2 == t1 + (m + t2);
    i := MatchAppendElim(t1, m + t2, s);
    var u := s[i..];
    var k := MatchAppendElim(m, t2, u);
    j := i + k;
    assert u[..k] == s[i..j] && u[k..] == s[j..];
  }

  lemma MatchAroundIntro(t1: seq<Token>, m: seq<Token>, t2: seq<Token>, s: string, i: nat, j: nat)
    requires i <= j <= |s| && FullMatch(t1, s[..i]) && FullMatch(m, s[i..j]) && FullMatch(t2, s[j..])
    ensures FullMatch(t1 + m + t2, s)
  {
    var u := s[i..];
    assert u[..j - i] == s[i..j] && u[j - i..] == s[j..];
    MatchAppendIntro(m, t2, u, j - i);
    MatchAppendIntro(t1, m + t2, s, i);
    assert t1 + m + t2 == t1 + (m + t2);
  }

  /** One `.` between two token sequences matches one character other than a
      line terminator between the parts they match. */
  lemma AnyCharAround(t1: seq<Token>, t2: seq<Token>, s: string)
    ensures FullMatch(t1 + [AnyChar] + t2, s) <==>
            exists i :: 0 <= i < |s| && !IsLineTerminator(s[i]) && FullMatch(t1, s[..i]) && FullMatch(t2, s[i + 1..])
  {
    if FullMatch(t1 + [AnyChar] + t2, s) {
      var i, j := MatchAroundElim(t1, [AnyChar], t2, s);
      OneChar(s[i..j]);
      assert j == i + 1 && s[i..j][0] == s[i];
    }
    forall i | 0 <= i < |s| && !IsLineTerminator(s[i]) && FullMatch(t1, s[..i]) && FullMatch(t2, s[i + 1..])
      ensures FullMatch(t1 + [AnyChar] + t2, s)
    {
      OneChar(s[i..i + 1]);
      assert s[i..i + 1][0] == s[i];
      MatchAroundIntro(t1, [AnyChar], t2, s, i, i + 1);
    }
  }

  /** A `[^/]*` between two token sequences matches a run without `/`
      between the parts they match. */
  lemma RunAround(t1: seq<Token>, t2: seq<Token>, s: string)
    ensures FullMatch(t1 + [NonSlashStar] + t2, s) <==>
            exists i, j :: 0 <= i <= j <= |s| && '/' !in s[i..j] && FullMatch(t1, s[..i]) && FullMatch(t2, s[j..])
  {
    if FullMatch(t1 + [NonSlashStar] + t2, s) {
      var i, j := MatchAroundElim(t1, [NonSlashStar], t2, s);
      NonSlashRun(s[i..j]);
    }
    forall i, j | 0 <= i <= j <= |s| && '/' !in s[i..j] && FullMatch(t1, s[..i]) && FullMatch(t2, s[j..])
      ensures FullMatch(t1 + [NonSlashStar] + t2, s)
    {
      NonSlashRun(s[i..j]);
      MatchAroundIntro(t1, [NonSlashStar], t2, s, i, j);
    }
  }

  /** `.[^/]*` between two token sequences matches one character other than a
      line terminator followed by a run without `/`. */
  lemma OneThenRunAround(t1: seq<Token>, t2: seq<Token>, s: string)
    ensures FullMatch(t1 + [AnyChar, NonSlashStar] + t2, s) <==>
            exists i, j :: 0 <= i < j <= |s| && !IsLineTerminator(s[i]) && '/' !in s[i + 1..j] &&
                           FullMatch(t1, s[..i]) && FullMatch(t2, s[j..])
  {
    if FullMatch(t1 + [AnyChar, NonSlashStar] + t2, s) {
      var i, j := MatchAroundElim(t1, [AnyChar, NonSlashStar], t2, s);
      OneCharThenRun(s[i..j]);
      assert s[i..j][0] == s[i] && s[i..j][1..] == s[i + 1..j];
    }
    forall i, j | 0 <= i < j <= |s| && !IsLineTerminator(s[i]) && '/' !in s[i + 1..j] &&
                  FullMatch(t1, s[..i]) && FullMatch(t2, s[j..])
      ensures FullMatch(t1 + [AnyChar, NonSlashStar] + t2, s)
    {
      OneCharThenRun(s[i..j]);
      assert s[i..j][0] == s[i] && s[i..j][1..] == s[i + 1..j];
      MatchAroundIntro(t1, [AnyChar, NonSlashStar], t2, s, i, j);
    }
  }

  /** `[^/]*` on its own matches exactly the strings without `/`. */
  lemma {:induction false} NonSlashRun(x: string)
    ensures FullMatch([NonSlashStar], x) <==> '/' !in x
    decreases |x|
  {
    assert [NonSlashStar][1..] == [];
    if x != [] {
      NonSlashRun(x[1..]);
      assert x == [x[0]] + x[1..];
    }
  }

  /** `.` on its own matches exactly one character other than a line terminator. */
  lemma OneChar(x: string)
    ensures FullMatch([AnyChar], x) <==> |x| == 1 && !IsLineTerminator(x[0])
  {
    assert [AnyChar][1..] == [];
  }

  /** `.[^/]*` matches one character other than a line terminator, followed by
      a run without `/`; never the empty string. */
  lemma OneCharThenRun(x: string)
    ensures FullMatch([AnyChar, NonSlashStar], x) <==> |x| >= 1 && !IsLineTerminator(x[0]) && '/' !in x[1..]
  {
    assert [AnyChar, NonSlashStar][1..] == [NonSlashStar];
    if x != [] {
      NonSlashRun(x[1..]);
    }
  }

  lemma {:induction false} TokensAppend(a: string, b: string)
    requires a == [] || b == [] || a[|a| - 1] != '*' || b[0] != '*'
    ensures Tokens(a + b) == Tokens(a) + Tokens(b)
    decreases |a|
  {
    if a == [] {
      assert a + b == b;
    } else if "**" <= a {
      assert "**" <= a + b;
      assert (a + b)[2..] == a[2..] + b;
      TokensAppend(a[2..], b);
    } else {
      assert (a + b)[0] == a[0];
      assert !("**" <= a + b);
      assert (a + b)[1..] == a[1..] + b;
      TokensAppend(a[1..], b);
    }
  }

  lemma FragmentAround(a: string, m: string, b: string)
    requires InFragment(a) && InFragment(m) && InFragment(b)
    ensures InFragment(a + m + b)
  {
  }

  lemma TokensOneChar(c: char, b: string)
    requires c == '?' || c == '.'
    ensures Tokens([c] + b) == [AnyChar] + Tokens(b)
  {
    assert ([c] + b)[0] == c && ([c] + b)[1..] == b;
    assert !("**" <= [c] + b);
  }

  lemma TokensStar(b: string)
    requires b == [] || b[0] != '*'
    ensures Tokens("*" + b) == [NonSlashStar] + Tokens(b)
  {
    assert ("*" + b)[0] == '*';
    if b != [] {
      assert ("*" + b)[1] == b[0];
    }
    assert !("**" <= "*" + b);
    assert ("*" + b)[1..] == b;
  }

  lemma TokensDoubleStar(b: string)
    ensures Tokens("**" + b) == [AnyChar, NonSlashStar] + Tokens(b)
  {
    assert "**" <= "**" + b;
    assert ("**" + b)[2..] == b;
  }

  lemma TokensAround(a: string, x: string, b: string, m: seq<Token>)
    requires x != [] && (a == [] || a[|a| - 1] != '*' || x[0] != '*')
    requires Tokens(x + b) == m + Tokens(b)
    ensures Tokens(a + x + b) == Tokens(a) + m + Tokens(b)
  {
    assert a + x + b == a + (x + b);
    assert (x + b)[0] == x[0];
    TokensAppend(a, x + b);
  }

  /** A `?` or an unescaped `.` matches exactly one character, any character
      other than a line terminator. */
  lemma OneCharWildcard(a: string, c: char, b: string, path: string)
    requires c == '?' || c == '.'
    requires InFragment(a) && InFragment(b)
    ensures InFragment(a + [c] + b)
    ensures MatchesPattern(path, a + [c] + b) <==>
            exists i :: 0 <= i < |path| && !IsLineTerminator(path[i]) &&
                        MatchesPattern(path[..i], a) && MatchesPattern(path[i + 1..], b)
  {
    FragmentAround(a, [c], b);
    TokensOneChar(c, b);
    TokensAround(a, [c], b, [AnyChar]);
    AnyCharAround(Tokens(a), Tokens(b), path);
  }

  /** A single `*` matches a run of characters without `/`, so it never lets a
      match cross a directory boundary. */
  lemma SingleStar(a: string, b: string, path: string)
    requires InFragment(a) && InFragment(b)
    requires a == [] || a[|a| - 1] != '*'
    requires b == [] || b[0] != '*'
    ensures InFragment(a + "*" + b)
    ensures MatchesPattern(path, a + "*" + b) <==>
            exists i, j :: 0 <= i <= j <= |path| && '/' !in path[i..j] &&
                           MatchesPattern(path[..i], a) && MatchesPattern(path[j..], b)
  {
    FragmentAround(a, "*", b);
    TokensStar(b);
    TokensAround(a, "*", b, [NonSlashStar]);
    RunAround(Tokens(a), Tokens(b), path);
  }

  /** `**` matches one character other than a line terminator followed by a
      run without `/`: it needs at least one character, and only that first
      character may be a `/`. */
  lemma DoubleStar(a: string, b: string, path: string)
    requires InFragment(a) && InFragment(b)
    requires a == [] || a[|a| - 1] != '*'
    ensures InFragment(a + "**" + b)
    ensures MatchesPattern(path, a + "**" + b) <==>
            exists i, j :: 0 <= i < j <= |path| && !IsLineTerminator(path[i]) && '/' !in path[i + 1..j] &&
                           MatchesPattern(path[..i], a) && MatchesPattern(path[j..], b)
  {
    FragmentAround(a, "**", b);
    TokensDoubleStar(b);
    TokensAround(a, "**", b, [AnyChar, NonSlashStar]);
    OneThenRunAround(Tokens(a), Tokens(b), path);
  }

  /** Patterns with nothing but literal characters. */
  predicate IsLiteral(pattern: string)
  {
    forall c | c in pattern :: c != '*' && c != '?' && c != '.' && !IsRegexMeta(c)
  }

  lemma {:induction false} LiteralTokens(pattern: string, path: string)
    requires IsLiteral(pattern)
    ensures FullMatch(Tokens(pattern), path) <==> path == pattern
    decreases |pattern|
  {
    if pattern != [] {
      assert pattern[0] in pattern;
      assert forall c | c in pattern[1..] :: c in pattern;
      var t := Tokens(pattern);
      assert t == [Lit(pattern[0])] + Tokens(pattern[1..]);
      assert t[1..] == Tokens(pattern[1..]);
      if path != [] {
        LiteralTokens(pattern[1..], path[1..]);
        assert path == [path[0]] + path[1..];
        assert pattern == [pattern[0]] + pattern[1..];
      }
    }
  }

  /** The match is anchored at both ends: a pattern without wildcards, dots or
      other metacharacters matches its own text and nothing else (the empty
      pattern only the empty path). */
  lemma LiteralPattern(pattern: string, path: string)
    requires IsLiteral(pattern)
    ensures InFragment(pattern)
    ensures MatchesPattern(path, pattern) <==> path == pattern
  {
    LiteralTokens(pattern, path);
  }

  /** Tokens without `[^/]*` match strings of exactly their own length. */
  lemma {:induction false} FixedWidth(t: seq<Token>, x: string)
    requires NonSlashStar !in t
    requires FullMatch(t, x)
    ensures |x| == |t|
    decreases |t|
  {
    if t != [] {
      assert t[0] in t;
      assert forall u | u in t[1..] :: u in t;
      FixedWidth(t[1..], x[1..]);
    }
  }
}
