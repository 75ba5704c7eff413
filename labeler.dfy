/** The body of the action's run once the changed files are known: every file
    is tried against every (pattern, label) entry, the labels of the matching
    entries are collected in a Set that keeps insertion order, and the
    collection decides whether `addLabels` is called and what `labels_added`
    reports. */
module Labeler {
  import opened Wrappers
  import opened JsString
  import opened Glob

  /** Every configured pattern stays inside the modelled regular-expression fragment. */
  predicate PatternsInFragment(entries: seq<(string, string)>)
  {
    forall k | 0 <= k < |entries| :: InFragment(entries[k].0)
  }

  /** The meaning of `matchesPattern(file, pattern)`: the glob's own tokens
      match the whole path (see `Glob.MatchesPattern`). */
  predicate Matches(file: string, pattern: string)
  {
    FullMatch(Tokens(pattern), file)
  }

  /** Some file matches some pattern. */
  predicate AnyMatch(files: seq<string>, entries: seq<(string, string)>)
  {
    exists i, k :: 0 <= i < |files| && 0 <= k < |entries| && Matches(files[i], entries[k].0)
  }

  /** Some file matches a pattern whose label is `name`. */
  predicate Matched(files: seq<string>, entries: seq<(string, string)>, name: string)
  {
    exists i, k :: 0 <= i < |files| && 0 <= k < |entries| && entries[k].1 == name &&
                   Matches(files[i], entries[k].0)
  }

  // ---------------------------------------------------------------------------
  // The insertion-ordered Set
  // ---------------------------------------------------------------------------

  /** `set.add(name)`: a label already present leaves the set as it is, a new
      one goes at the end. */
  function Add(labels: seq<string>, name: string): (r: seq<string>)
    ensures name in r
    ensures name in labels ==> r == labels
    ensures |labels| <= |r| <= |labels| + 1 && r[..|labels|] == labels
  {
    if name in labels then labels else labels + [name]
  }

  /** The Set that results from adding `hits` one after the other to an empty Set. */
  function Dedup(hits: seq<string>): seq<string>
    decreases |hits|
  {
    if hits == [] then [] else Add(Dedup(hits[..|hits| - 1]), hits[|hits| - 1])
  }

  /** Where `x` first occurs in `s`. */
  function FirstIndex(s: seq<string>, x: string): (k: nat)
    requires x in s
    ensures k < |s| && s[k] == x && x !in s[..k]
    decreases |s|
  {
    if s[0] == x then 0
    else
      var k := FirstIndex(s[1..], x) + 1;
      assert s[..k] == [s[0]] + s[1..][..k - 1];
      k
  }

  lemma {:induction false} FirstIndexAppend(s: seq<string>, last: string, x: string)
    requires x in s
    ensures FirstIndex(s + [last], x) == FirstIndex(s, x)
    decreases |s|
  {
    if s[0] != x {
      assert (s + [last])[1..] == s[1..] + [last];
      FirstIndexAppend(s[1..], last, x);
    }
  }

  lemma {:induction false} FirstIndexLast(s: seq<string>, last: string)
    requires last !in s
    ensures FirstIndex(s + [last], last) == |s|
    decreases |s|
  {
    if s != [] {
      assert (s + [last])[1..] == s[1..] + [last];
      FirstIndexLast(s[1..], last);
    }
  }

  /** The Set holds each label once. */
  lemma {:induction false} DedupDistinct(hits: seq<string>)
    ensures forall i, j | 0 <= i < j < |Dedup(hits)| :: Dedup(hits)[i] != Dedup(hits)[j]
    decreases |hits|
  {
    if hits != [] {
      DedupDistinct(hits[..|hits| - 1]);
    }
  }

  /** The Set holds exactly the labels that were added. */
  lemma {:induction false} DedupMembers(hits: seq<string>)
    ensures forall x :: x in Dedup(hits) <==> x in hits
    decreases |hits|
  {
    if hits != [] {
      var init := hits[..|hits| - 1];
      DedupMembers(init);
      assert hits == init + [hits[|hits| - 1]];
    }
  }

  /** `d` holds the labels of `hits`, in the order of their first occurrence. */
  ghost predicate InFirstOccurrenceOrder(hits: seq<string>, d: seq<string>)
  {
    (forall x :: x in d <==> x in hits) &&
    forall i, j | 0 <= i < j < |d| :: FirstIndex(hits, d[i]) < FirstIndex(hits, d[j])
  }

  lemma AddKeepsOrder(hits: seq<string>, init: seq<string>, d: seq<string>, last: string)
    requires hits == init + [last]
    requires InFirstOccurrenceOrder(init, d)
    ensures InFirstOccurrenceOrder(hits, Add(d, last))
  {
    var r := Add(d, last);
    assert forall x :: x in r <==> x in hits;
    forall i, j | 0 <= i < j < |r|
      ensures FirstIndex(hits, r[i]) < FirstIndex(hits, r[j])
    {
      assert r[i] == d[i];
      FirstIndexAppend(init, last, r[i]);
      if j < |d| {
        assert r[j] == d[j];
        FirstIndexAppend(init, last, r[j]);
      } else {
        assert r[j] == last && last !in init;
        FirstIndexLast(init, last);
      }
    }
  }

  /** The Set keeps its labels in the order of their first addition. */
  lemma {:induction false} DedupOrder(hits: seq<string>)
    ensures InFirstOccurrenceOrder(hits, Dedup(hits))
    decreases |hits|
  {
    if hits != [] {
      var init := hits[..|hits| - 1];
      var last := hits[|hits| - 1];
      assert hits == init + [last];
      DedupOrder(init);
      AddKeepsOrder(hits, init, Dedup(init), last);
    }
  }

  // ---------------------------------------------------------------------------
  // The labels the two loops offer to the Set
  // ---------------------------------------------------------------------------

  /** The labels the inner loop adds for one file, in entry order, repeats included. */
  function FileHits(file: string, entries: seq<(string, string)>): seq<string>
    decreases |entries|
  {
    if entries == [] then []
    else
      var last := entries[|entries| - 1];
      FileHits(file, entries[..|entries| - 1]) + (if Matches(file, last.0) then [last.1] else [])
  }

  /** The labels both loops add, file after file: the order in which they
      reach the Set. */
  function Hits(files: seq<string>, entries: seq<(string, string)>): seq<string>
    decreases |files|
  {
    if files == [] then [] else Hits(files[..|files| - 1], entries) + FileHits(files[|files| - 1], entries)
  }

  lemma {:induction false} FileHitsMembers(file: string, entries: seq<(string, string)>, x: string)
    ensures x in FileHits(file, entries) <==>
            exists k :: 0 <= k < |entries| && entries[k].1 == x && Matches(file, entries[k].0)
    decreases |entries|
  {
    if entries != [] {
      var n := |entries| - 1;
      var init := entries[..n];
      var last := entries[n];
      var before := FileHits(file, init);
      var hit := Matches(file, last.0);
      assert FileHits(file, entries) == before + (if hit then [last.1] else []);
      FileHitsMembers(file, init, x);
      if x in FileHits(file, entries) {
        if x in before {
          var k :| 0 <= k < |init| && init[k].1 == x && Matches(file, init[k].0);
          assert entries[k] == init[k];
        } else {
          assert hit && x == last.1;
        }
      }
      forall k | 0 <= k < |entries| && entries[k].1 == x && Matches(file, entries[k].0)
        ensures x in FileHits(file, entries)
      {
        if k < n {
          assert init[k] == entries[k];
        } else {
          assert entries[k] == last;
        }
      }
    }
  }

  lemma {:induction false} HitsMembers(files: seq<string>, entries: seq<(string, string)>, x: string)
    ensures x in Hits(files, entries) <==> Matched(files, entries, x)
    decreases |files|
  {
    if files != [] {
      var n := |files| - 1;
      var init := files[..n];
      var file := files[n];
      assert Hits(files, entries) == Hits(init, entries) + FileHits(file, entries);
      HitsMembers(init, entries, x);
      FileHitsMembers(file, entries, x);
      if x in Hits(files, entries) {
        if x in Hits(init, entries) {
          var i, k :| 0 <= i < |init| && 0 <= k < |entries| && entries[k].1 == x &&
                      Matches(init[i], entries[k].0);
          assert files[i] == init[i];
        } else {
          var k :| 0 <= k < |entries| && entries[k].1 == x && Matches(file, entries[k].0);
          assert files[n] == file;
        }
      }
      if Matched(files, entries, x) {
        var i, k :| 0 <= i < |files| && 0 <= k < |entries| && entries[k].1 == x &&
                    Matches(files[i], entries[k].0);
        if i < n {
          assert init[i] == files[i];
        } else {
          assert x in FileHits(file, entries);
        }
      }
    }
  }

  /** After the loops the Set holds exactly the labels of the entries whose
      pattern matches at least one file, each once; no files, or no match,
      leave it empty. */
  lemma ResolvedLabels(files: seq<string>, entries: seq<(string, string)>)
    ensures forall x :: x in Dedup(Hits(files, entries)) <==> Matched(files, entries, x)
    ensures forall i, j | 0 <= i < j < |Dedup(Hits(files, entries))| ::
              Dedup(Hits(files, entries))[i] != Dedup(Hits(files, entries))[j]
    ensures Dedup(Hits(files, entries)) == [] <==> !AnyMatch(files, entries)
  {
    var hits := Hits(files, entries);
    DedupMembers(hits);
    DedupDistinct(hits);
    forall x
      ensures x in hits <==> Matched(files, entries, x)
    {
      HitsMembers(files, entries, x);
    }
    if AnyMatch(files, entries) {
      var i, k :| 0 <= i < |files| && 0 <= k < |entries| && Matches(files[i], entries[k].0);
      assert Matched(files, entries, entries[k].1);
    }
    if Dedup(hits) != [] {
      assert Matched(files, entries, Dedup(hits)[0]);
    }
  }

  /** The labels come out in first-match order: a label precedes another
      exactly when the loops reach it first. */
  lemma ResolvedOrder(files: seq<string>, entries: seq<(string, string)>)
    ensures InFirstOccurrenceOrder(Hits(files, entries), Dedup(Hits(files, entries)))
  {
    DedupOrder(Hits(files, entries));
  }

  // ---------------------------------------------------------------------------
  // The loops and the decision
  // ---------------------------------------------------------------------------

  lemma DedupStep(before: seq<string>, name: string)
    ensures Dedup(before + [name]) == Add(Dedup(before), name)
  {
    var after := before + [name];
    assert after[..|before|] == before && after[|before|] == name;
  }

  /** One turn of the inner loop: the Set before the turn, plus the label of
      entry `k` when its pattern matches `file`. */
  lemma EntryStep(done: seq<string>, file: string, entries: seq<(string, string)>, k: nat)
    requires k < |entries|
    ensures Dedup(done + FileHits(file, entries[..k + 1])) ==
            if Matches(file, entries[k].0) then Add(Dedup(done + FileHits(file, entries[..k])), entries[k].1)
            else Dedup(done + FileHits(file, entries[..k]))
  {
    var before := done + FileHits(file, entries[..k]);
    assert entries[..k + 1][..k] == entries[..k] && entries[..k + 1][k] == entries[k];
    if Matches(file, entries[k].0) {
      assert done + FileHits(file, entries[..k + 1]) == before + [entries[k].1];
      DedupStep(before, entries[k].1);
    } else {
      assert done + FileHits(file, entries[..k + 1]) == before;
    }
  }

  lemma HitsStep(files: seq<string>, entries: seq<(string, string)>, i: nat)
    requires i < |files|
    ensures Hits(files[..i + 1], entries) == Hits(files[..i], entries) + FileHits(files[i], entries[..|entries|])
  {
    assert files[..i + 1][..i] == files[..i] && files[..i + 1][i] == files[i];
    assert entries[..|entries|] == entries;
  }

  /** The two nested loops over the changed files and the entries, adding the
      label of every matching entry to the Set. */
  method ResolveLabels(files: seq<string>, entries: seq<(string, string)>) returns (labels: seq<string>)
    requires files != [] ==> PatternsInFragment(entries)
    ensures labels == Dedup(Hits(files, entries))
  {
    labels := [];
    for i := 0 to |files|
      invariant labels == Dedup(Hits(files[..i], entries))
    {
      ghost var done := Hits(files[..i], entries);
      assert done + FileHits(files[i], entries[..0]) == done;
      for k := 0 to |entries|
        invariant labels == Dedup(done + FileHits(files[i], entries[..k]))
      {
        var hit := MatchesPattern(files[i], entries[k].0);
        EntryStep(done, files[i], entries, k);
        if hit {
          labels := Add(labels, entries[k].1);
        }
      }
      HitsStep(files, entries, i);
    }
    assert files[..|files|] == files;
  }

  /** What a run leaves behind: nothing for an event that is not a pull
      request; otherwise the `addLabels` call it made, if any, with its label
      array, and the `labels_added` output. */
  datatype Outcome = NotPullRequest | Done(addLabels: Option<seq<string>>, labelsAdded: string)

  /** The run after its inputs are read: skip for an event that is not a pull
      request, else resolve the labels, call `addLabels` with them when there
      is at least one, and report them comma-joined (or "") as `labels_added`. */
  method Run(isPullRequest: bool, files: seq<string>, entries: seq<(string, string)>) returns (outcome: Outcome)
    requires isPullRequest && files != [] ==> PatternsInFragment(entries)
    ensures outcome == NotPullRequest <==> !isPullRequest
    ensures outcome.Done? ==> (outcome.addLabels.Some? <==> AnyMatch(files, entries))
    ensures outcome.Done? && outcome.addLabels.Some? ==>
              outcome.addLabels.value == Dedup(Hits(files, entries)) &&
              outcome.labelsAdded == Join(outcome.addLabels.value, ",")
    ensures outcome.Done? && outcome.addLabels.None? ==> outcome.labelsAdded == ""
  {
    if !isPullRequest {
      return NotPullRequest;
    }
    var labels := ResolveLabels(files, entries);
    ResolvedLabels(files, entries);
    if |labels| > 0 {
      outcome := Done(Some(labels), Join(labels, ","));
    } else {
      outcome := Done(None, "");
    }
  }
}
