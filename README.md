# auto-label-by-path, modelled in Dafny

The action labels a pull request by the paths it changes. It reads a JSON
map from glob patterns to label names. For every changed file and every
(pattern, label) entry, in that order, it checks the file name against the
pattern with `matchesPattern`. It collects the labels of the matching
entries in a JavaScript `Set`. If the Set is not empty, it calls
`addLabels` with the Set's labels and sets the output `labels_added` to
them joined with `,`. Otherwise it sets `labels_added` to the empty string.
An event that is not a pull request is skipped.

`matchesPattern` translates the glob into a regular expression with three
chained global replacements: `**` becomes `.*`, then every `*` becomes
`[^/]*`, then every `?` becomes `.`. The result is anchored as
`^…$` and matched against the path.

The model has five modules:

- `Wrappers` (`wrappers.dfy`): the `Option` type that `Compile` returns,
  `None` for an expression outside the modelled fragment.
- `JsString` (`jsstring.dfy`): `String.prototype.replace` with a global
  pattern of literal characters (`ReplaceAll`, a left-to-right scan with no
  overlaps), `Array.prototype.join` (`Join`), and `Split`, its inverse on non-empty
  lists of labels without `,`.
- `Glob` (`glob.dfy`): the translation `Translate`. `Rewrite` is a
  one-pass reference definition of the translation. `Token` is the small
  regular-expression language the translation produces: a literal
  character, `.`, and `[^/]*`. `Compile` parses the anchored source into
  tokens. `FullMatch` is the anchored match. `MatchesPattern` is the
  function itself. The module also holds lemmas that characterise `?`,
  `.`, `*` and `**` inside a pattern.
- `Labeler` (`labeler.dfy`): the insertion-ordered Set (`Add`, `Dedup`)
  and the labels the two loops offer it, file after file and entry after
  entry (`FileHits`, `Hits`). `ResolveLabels` runs the nested loops
  imperatively. `Run` makes the skip, `addLabels` and `labels_added`
  decision.
- `Scenarios` (`scenarios.dfy`): the patterns `src/**`, `*.md` and
  `docs/*.md` characterised for every path, two end-to-end examples, and
  two runs that never compile a pattern.

`**` crosses at most one `/`, and only as the first character it matches:
line 6 makes it `.*`, and line 7 turns that `*` into `[^/]*`. So `**` ends up as `.[^/]*`: one character
other than a line terminator (which may be `/`), then a run without `/`.
As a result, `a/**` matches `a/b` but neither `a/b/c.txt` nor `a/`
(`Scenarios.DoubleStarStaysInOneDirectory`, `Glob.DoubleStar`). In the
end-to-end example `{"src/**": "backend", "*.md": "docs"}` over
`src/app.js`, `README.md` and `src/util/helpers.js`, the label `backend`
therefore comes from `src/app.js` alone, not from two files. The resolved
labels are still `backend, docs`.

A `.` in a pattern is not escaped: it is the regular-expression wildcard
for one character other than a line terminator (`Glob.OneCharWildcard`,
`Scenarios.MdPattern`).

## Model

| member | source | states |
|---|---|---|
| JsString.ReplaceAll | src/index.js:6-8 | `replace` with a global literal pattern, as a left-to-right scan without overlaps. Characterised by `JsString.ReplaceCharAppend` and `JsString.ReplaceCharAbsent`. |
| JsString.ReplaceCharAppend | src/index.js:6-8 | Replacing every occurrence of one character distributes over concatenation. |
| JsString.Join | src/index.js:54 | `join(',')` of the Set's labels. Characterised by `JsString.SplitJoin`, which recovers the labels from the joined text. |
| JsString.SplitJoin | src/index.js:54 | Splitting the comma-joined `labels_added` at `,` gives back the label list, when no label contains a comma. |
| Glob.Translate | src/index.js:5-8 | The three chained global replacements. Characterised by `Glob.TranslateIsRewrite` and `Glob.TranslateShape`. |
| Glob.Anchor | src/index.js:9 | `^`, the body, `$`: the source handed to `new RegExp`. Characterised by `Glob.CompileTranslate` (the anchored source compiles to the pattern's tokens, matched against the whole path) and `Glob.LiteralPattern` (anchoring makes a literal pattern an exact match). |
| Glob.Compile | src/index.js:9 | `new RegExp` on an anchored source. Characterised by `Glob.CompileTranslate`: the anchored translation of an in-fragment pattern compiles to the pattern's own tokens. |
| Glob.FullMatch | src/index.js:10 | `test` on an anchored expression. Characterised by `Glob.MatchAppend`, `Glob.NonSlashRun` and `Glob.OneCharThenRun`. |
| Glob.TranslateIsRewrite | src/index.js:5-8 | The three chained global replacements equal one left-to-right rewrite: `**` becomes `.[^/]*`, a lone `*` becomes `[^/]*`, `?` becomes `.`, and every other character is kept. |
| Glob.TranslateShape | src/index.js:6-8 | The translated body contains no `?`, and every `*` in it closes a `[^/]*` class. |
| Glob.CompileTranslate | src/index.js:5-9 | For a pattern without other regular-expression metacharacters, the anchored source `^…$` is a valid expression, and it compiles to the pattern's own tokens. |
| Glob.MatchesPattern | src/index.js:4-11 | The result is true exactly when the pattern's tokens match the whole path. |
| Glob.MatchAppend | src/index.js:9-10 | An anchored match of two token sequences in a row is a split of the path into two parts, each matched by one sequence. |
| Glob.NonSlashRun | src/index.js:7 | `[^/]*` matches exactly the strings without `/`. |
| Glob.OneCharThenRun | src/index.js:6-7 | `.[^/]*`, the translation of `**`, matches exactly a non-empty string: a first character other than a line terminator, then no `/`. |
| Glob.OneCharWildcard | src/index.js:8-10 | A `?` or `.` in a pattern matches exactly one character, and that character is not a line terminator. |
| Glob.SingleStar | src/index.js:7-10 | A lone `*` in a pattern matches exactly a run of characters without `/`, so it never crosses a directory boundary. |
| Glob.DoubleStar | src/index.js:6-10 | `**` in a pattern matches exactly one character other than a line terminator, then a run without `/`. |
| Glob.LiteralPattern | src/index.js:9-10 | A pattern without wildcards, dots or other metacharacters matches its own text and nothing else. The empty pattern matches only the empty path. |
| Labeler.Add | src/index.js:40 | `Set.prototype.add`: the label is present afterwards, a label already present leaves the Set unchanged, and otherwise the label is appended at the end, with the earlier labels in place. |
| Labeler.DedupMembers | src/index.js:35-43 | The Set holds exactly the labels that were added to it. |
| Labeler.DedupDistinct | src/index.js:35-43 | The Set holds each label once. |
| Labeler.DedupOrder | src/index.js:35-50 | The Set's labels are in the order of their first addition. |
| Labeler.HitsMembers | src/index.js:37-43 | The loops offer a label exactly when some file matches some pattern that carries that label. |
| Labeler.ResolvedLabels | src/index.js:35-45 | After the loops, the Set holds exactly the labels of the entries whose pattern matches at least one file, each once. It is empty exactly when no file matches any pattern. |
| Labeler.ResolvedOrder | src/index.js:35-54 | The resolved labels are in first-match order over files, then entries. |
| Labeler.ResolveLabels | src/index.js:35-43 | The nested loops leave the Set equal to the labels of all matches, added file after file and entry after entry. |
| Labeler.Run | src/index.js:19-58 | A non-pull-request event is skipped. Otherwise `addLabels` is called exactly when some file matches some pattern, and only with the resolved labels. `labels_added` is those labels joined with `,`, or `""` when there are none. |
| Scenarios.DoubleStarStaysInOneDirectory | src/index.js:4-11 | `a/**` matches `a/b`, but neither `a/b/c.txt` nor `a/`. |
| Scenarios.MdPattern | src/index.js:4-11 | `*.md` matches exactly the paths with no `/` before their last three characters that end in a character other than a line terminator followed by `md`. |
| Scenarios.PrefixedDoubleStar | src/index.js:4-11 | A literal prefix, possibly empty, followed by `**` matches exactly the prefix, then one character other than a line terminator (possibly `/`), then a run without `/`. |
| Scenarios.SrcPattern | src/index.js:4-11 | `src/**` matches exactly `src/`, then one character other than a line terminator (possibly `/`), then a run without `/`. |
| Scenarios.PrefixedMd | src/index.js:4-11 | A literal prefix, possibly empty, followed by `*.md` matches exactly the prefixed paths whose remainder `*.md` matches: after the prefix the `*` never crosses a `/`, and only the character before `md` may be one. |
| Scenarios.DocsPattern | src/index.js:4-11 | `docs/*.md` matches exactly `docs/`, a run without `/`, one character other than a line terminator, then `md`. The `*` never crosses a `/`; only the character before `md` may be one (`docs/sub/md` matches). |
| Scenarios.BackendAndDocs | src/index.js:35-43 | `{"src/**": "backend", "*.md": "docs"}` over `src/app.js`, `README.md` and `src/util/helpers.js` resolves to `backend`, then `docs`. |
| Scenarios.BackendAndDocsOutput | src/index.js:54 | These labels are reported as `backend,docs`. |
| Scenarios.NothingMatches | src/index.js:35-57 | `{"tests/**": "qa"}` over `src/app.js` resolves to no label and no match, so `addLabels` is not called. |
| Scenarios.UnreachedPatterns | src/index.js:20-43 | A non-pull-request event with a pattern outside the modelled fragment is skipped, and a pull request with no changed files gives no `addLabels` call and `""`, whatever the patterns. |

## Left out

- Reading the inputs (`github_token`, `path_labels`) and `JSON.parse`: the model takes the parsed map as a sequence of (pattern, label) entries, in the order `Object.entries` yields them. It does not model how JavaScript reorders integer-like keys, duplicate keys in the JSON text, or label values other than strings (a number or an array, which a JavaScript `Set` keeps apart from its string form).
- `github.context`: the model keeps only whether the event is a pull request, as a boolean parameter of `Run`. It leaves out the repository owner and name and the pull-request number.
- The calls to the GitHub API (`listFiles`, `addLabels`), `await`, and the listing's pagination: the changed file names are a parameter, and the `addLabels` call is reported as part of `Outcome`.
- `core.info`, `core.setOutput` and `core.setFailed`, and the `try`/`catch` around the run: the logs are not modelled, and `labels_added` is a field of `Outcome`.
- Glob.MatchesPattern: requires the pattern to avoid the metacharacters `+ ( ) [ ] { } \ ^ $ |`. With those, the translated text is a general JavaScript regular expression, which is not part of this model, or an invalid one, whose `SyntaxError` the run's `catch` reports.
- Labeler.ResolveLabels: carries the same restriction on every configured pattern once there is a file to match against it, for the same reason. With no changed files no pattern is compiled, and any map is accepted.
- Labeler.Run: carries the same restriction on every configured pattern once a file is matched against it, that is, for a pull request with at least one changed file, for the same reason. A skipped event or an empty file list accepts any map. A run that fails on an invalid pattern is not modelled.
- Strings are sequences of Unicode characters. JavaScript works on UTF-16 code units, so a `.` or `?` facing a character outside the Basic Multilingual Plane behaves differently, and this is not modelled.
