/**
 * The keyword-frequency part of `BugPatternsAnalysis.run`: every issue's
 * lower-cased title and labels are searched for seven fixed keywords, the
 * matches are tallied in a dictionary, and the tally is ranked by count.
 * The issues are a parameter; loading them is not part of this model.
 */
module BugPatterns {
  import opened Collections
  import opened PyStrings
  import opened Ranking

  /** The two fields of an issue that the analysis reads. */
  datatype Issue = Issue(title: string, labels: seq<string>)

  /** What the end of `run` does with the ranking: draw a bar chart, or report that nothing matched. */
  datatype Report = NoBugPatternsFound | BarChart(ranked: seq<PatternCount>)

  const BugKeywords: seq<string> := ["bug", "error", "fail", "exception", "crash", "not working", "unexpected"]

  /**
   * The seven keywords are distinct and non-empty, and each is already in
   * lower case, so each can occur in a lowered text.
   */
  lemma BugKeywordsDistinct()
    ensures |BugKeywords| == 7 && Distinct(BugKeywords)
    ensures forall i :: 0 <= i < |BugKeywords| ==> BugKeywords[i] != "" && Lower(BugKeywords[i]) == BugKeywords[i]
  {
    forall i | 0 <= i < |BugKeywords| ensures Lower(BugKeywords[i]) == BugKeywords[i] {
      var k := BugKeywords[i];
      assert forall j :: 0 <= j < |k| ==> !IsUpperAscii(k[j]);
      assert forall j :: 0 <= j < |k| ==> Lower(k)[j] == k[j];
    }
  }

  /**
   * The text line 33 builds: the title, one space, then the labels joined
   * by single spaces, all lowered, so it agrees with that concatenation up
   * to case and has no capital letter anywhere.
   */
  function IssueText(issue: Issue): (r: string)
    ensures SameIgnoringCase(r, issue.title + " " + Join(" ", issue.labels))
    ensures forall i :: 0 <= i < |r| ==> !IsUpperAscii(r[i])
  {
    Lower(issue.title + " " + Join(" ", issue.labels))
  }

  /**
   * `keyword in issue_text`. A keyword in the title or in any one label, in
   * any case, always makes it true.
   */
  function Mentions(issue: Issue, keyword: string): (b: bool)
    ensures Contains(Lower(issue.title), keyword) ==> b
    ensures forall k :: 0 <= k < |issue.labels| && Contains(Lower(issue.labels[k]), keyword) ==> b
  {
    assert Contains(Lower(issue.title), keyword) ==> Contains(IssueText(issue), keyword) by {
      if Contains(Lower(issue.title), keyword) { TitleKeywordDetected(issue, keyword); }
    }
    assert forall k :: 0 <= k < |issue.labels| && Contains(Lower(issue.labels[k]), keyword) ==> Contains(IssueText(issue), keyword) by {
      forall k | 0 <= k < |issue.labels| && Contains(Lower(issue.labels[k]), keyword) ensures Contains(IssueText(issue), keyword) {
        LabelKeywordDetected(issue, k, keyword);
      }
    }
    Contains(IssueText(issue), keyword)
  }

  /** The number of issues whose text contains the keyword (each issue counts once). */
  function MatchCount(issues: seq<Issue>, keyword: string): (n: nat)
    ensures n <= |issues|
  {
    if |issues| == 0 then 0
    else MatchCount(issues[..|issues| - 1], keyword) + (if Mentions(issues[|issues| - 1], keyword) then 1 else 0)
  }

  /** Appending one issue adds one to the count exactly when that issue mentions the keyword. */
  lemma MatchCountSnoc(issues: seq<Issue>, n: nat, keyword: string)
    requires n < |issues|
    ensures MatchCount(issues[..n + 1], keyword) == MatchCount(issues[..n], keyword) + (if Mentions(issues[n], keyword) then 1 else 0)
  {
    assert issues[..n + 1][..n] == issues[..n];
  }

  /** A keyword has count zero exactly when no issue mentions it. */
  lemma {:induction false} MatchCountZeroIff(issues: seq<Issue>, keyword: string)
    ensures MatchCount(issues, keyword) == 0 <==> forall i :: 0 <= i < |issues| ==> !Mentions(issues[i], keyword)
  {
    if |issues| > 0 {
      var init := issues[..|issues| - 1];
      MatchCountZeroIff(init, keyword);
      if MatchCount(issues, keyword) == 0 {
        forall i | 0 <= i < |issues| ensures !Mentions(issues[i], keyword) {
          if i < |init| { assert init[i] == issues[i]; }
        }
      } else if MatchCount(init, keyword) > 0 {
        var i :| 0 <= i < |init| && Mentions(init[i], keyword);
        assert init[i] == issues[i];
      }
    }
  }

  /**
   * The dictionary the loop builds: a keyword is a key exactly when some
   * issue mentions it, and its value is the number of issues that do.
   */
  function CountTable(issues: seq<Issue>): (t: map<string, nat>)
    ensures forall k :: k in t ==> k in BugKeywords && 1 <= t[k] <= |issues|
  {
    map k | k in BugKeywords && MatchCount(issues, k) > 0 :: MatchCount(issues, k)
  }

  /** The position of the first issue that mentions the keyword. */
  function FirstMatch(issues: seq<Issue>, keyword: string): (i: nat)
    requires MatchCount(issues, keyword) > 0
    ensures i < |issues| && Mentions(issues[i], keyword)
    ensures forall j :: 0 <= j < i ==> !Mentions(issues[j], keyword)
  {
    var init := issues[..|issues| - 1];
    if MatchCount(init, keyword) > 0 then
      var i := FirstMatch(init, keyword);
      assert forall j :: 0 <= j <= i ==> init[j] == issues[j];
      i
    else
      MatchCountZeroIff(init, keyword);
      assert forall j :: 0 <= j < |init| ==> init[j] == issues[j];
      |issues| - 1
  }

  /** Matching more issues after the first match does not move it. */
  lemma FirstMatchStable(issues: seq<Issue>, n: nat, keyword: string)
    requires n < |issues| && MatchCount(issues[..n], keyword) > 0
    ensures MatchCount(issues[..n + 1], keyword) > 0
    ensures FirstMatch(issues[..n + 1], keyword) == FirstMatch(issues[..n], keyword)
  {
    assert issues[..n + 1][..n] == issues[..n];
  }

  /**
   * Dictionary insertion order: keyword a was inserted before keyword b when
   * its first match is in an earlier issue, or in the same issue with a
   * earlier in the keyword list.
   */
  predicate SeenBefore(issues: seq<Issue>, a: string, b: string)
  {
    && a in BugKeywords && b in BugKeywords
    && MatchCount(issues, a) > 0 && MatchCount(issues, b) > 0
    && (|| FirstMatch(issues, a) < FirstMatch(issues, b)
        || (FirstMatch(issues, a) == FirstMatch(issues, b) && IndexOf(BugKeywords, a) < IndexOf(BugKeywords, b)))
  }

  /**
   * After the issues in `done` have been processed, `counts` holds their
   * table and `order` its keys in insertion order.
   */
  ghost predicate Tallied(done: seq<Issue>, counts: map<string, nat>, order: seq<string>)
  {
    && (forall k :: k in counts <==> k in BugKeywords && MatchCount(done, k) > 0)
    && (forall k :: k in counts ==> counts[k] == MatchCount(done, k))
    && Distinct(order) && (forall k :: k in order <==> k in counts)
    && (forall i, j :: 0 <= i < j < |order| ==> SeenBefore(done, order[i], order[j]))
  }

  /** The count of a keyword once the first m keywords have been tested against the next issue. */
  ghost function PartialCount(done: seq<Issue>, issue: Issue, m: nat, k: string): nat
    requires m <= |BugKeywords|
  {
    MatchCount(done, k) + (if k in BugKeywords[..m] && Mentions(issue, k) then 1 else 0)
  }

  /** The keyword was first matched before keyword m of issue n. */
  ghost predicate FirstSeenBefore(upTo: seq<Issue>, k: string, n: nat, m: nat)
    requires k in BugKeywords && MatchCount(upTo, k) > 0
  {
    FirstMatch(upTo, k) < n || (FirstMatch(upTo, k) == n && IndexOf(BugKeywords, k) < m)
  }

  /**
   * The nested loops of lines 32-36: `counts` is the dictionary and `order`
   * its keys in insertion order.
   */
  method CountKeywords(issues: seq<Issue>) returns (counts: map<string, nat>, order: seq<string>)
    ensures counts == CountTable(issues)
    ensures Distinct(order) && forall k :: k in order <==> k in counts
    ensures forall i, j :: 0 <= i < j < |order| ==> SeenBefore(issues, order[i], order[j])
  {
    counts, order := map[], [];
    var n := 0;
    while n < |issues|
      invariant 0 <= n <= |issues|
      invariant Tallied(issues[..n], counts, order)
    {
      counts, order := TallyIssue(issues, n, counts, order);
      n := n + 1;
    }
    assert issues[..n] == issues;
  }

  /** The inner loop of lines 34-36, over the keywords, for issue n. */
  method TallyIssue(issues: seq<Issue>, n: nat, counts0: map<string, nat>, order0: seq<string>)
      returns (counts: map<string, nat>, order: seq<string>)
    requires n < |issues| && Tallied(issues[..n], counts0, order0)
    ensures Tallied(issues[..n + 1], counts, order)
  {
    var issueText := IssueText(issues[n]);
    counts, order := counts0, order0;
    TallyStart(issues, n, counts, order);
    for m := 0 to |BugKeywords|
      invariant PartlyTallied(issues, n, m, counts, order)
    {
      var keyword := BugKeywords[m];
      ghost var counts', order' := counts, order;
      if Contains(issueText, keyword) {
        if keyword !in counts {
          order := order + [keyword];
        }
        counts := counts[keyword := (if keyword in counts then counts[keyword] else 0) + 1];
      }
      TallyStep(issues, n, m, counts', order', counts, order);
    }
    TallyFinish(issues, n, counts, order);
  }

  /** The invariant of the loop over the keywords: keywords before m have been tested against issue n. */
  ghost predicate PartlyTallied(issues: seq<Issue>, n: nat, m: nat, counts: map<string, nat>, order: seq<string>)
  {
    n < |issues| && m <= |BugKeywords| && CountsUpTo(issues, n, m, counts) && OrderUpTo(issues, n, m, counts.Keys, order)
  }

  ghost predicate CountsUpTo(issues: seq<Issue>, n: nat, m: nat, counts: map<string, nat>)
    requires n < |issues| && m <= |BugKeywords|
  {
    && (forall k :: k in counts <==> k in BugKeywords && PartialCount(issues[..n], issues[n], m, k) > 0)
    && (forall k :: k in counts ==> counts[k] == PartialCount(issues[..n], issues[n], m, k))
  }

  ghost predicate OrderUpTo(issues: seq<Issue>, n: nat, m: nat, keys: set<string>, order: seq<string>)
    requires n < |issues|
  {
    && Distinct(order) && (forall k :: k in order <==> k in keys)
    && (forall i, j :: 0 <= i < j < |order| ==> SeenBefore(issues[..n + 1], order[i], order[j]))
    && (forall k :: k in order ==> k in BugKeywords && MatchCount(issues[..n + 1], k) > 0 && FirstSeenBefore(issues[..n + 1], k, n, m))
  }

  lemma TallyStart(issues: seq<Issue>, n: nat, counts: map<string, nat>, order: seq<string>)
    requires n < |issues| && Tallied(issues[..n], counts, order)
    ensures PartlyTallied(issues, n, 0, counts, order)
  {
    forall k | MatchCount(issues[..n], k) > 0
      ensures MatchCount(issues[..n + 1], k) > 0 && FirstMatch(issues[..n + 1], k) == FirstMatch(issues[..n], k)
    {
      FirstMatchStable(issues, n, k);
    }
  }

  lemma TallyStep(issues: seq<Issue>, n: nat, m: nat, counts: map<string, nat>, order: seq<string>,
                  counts': map<string, nat>, order': seq<string>)
    requires m < |BugKeywords| && PartlyTallied(issues, n, m, counts, order)
    requires var keyword := BugKeywords[m];
      if Mentions(issues[n], keyword) then
        && order' == (if keyword in counts then order else order + [keyword])
        && counts' == counts[keyword := (if keyword in counts then counts[keyword] else 0) + 1]
      else order' == order && counts' == counts
    ensures PartlyTallied(issues, n, m + 1, counts', order')
  {
    TallyStepCounts(issues, n, m, counts, counts');
    TallyStepOrder(issues, n, m, counts, order, counts', order');
  }

  lemma TallyStepCounts(issues: seq<Issue>, n: nat, m: nat, counts: map<string, nat>, counts': map<string, nat>)
    requires n < |issues| && m < |BugKeywords| && CountsUpTo(issues, n, m, counts)
    requires var keyword := BugKeywords[m];
      counts' == if Mentions(issues[n], keyword) then counts[keyword := (if keyword in counts then counts[keyword] else 0) + 1] else counts
    ensures CountsUpTo(issues, n, m + 1, counts')
  {
    BugKeywordsDistinct();
    var keyword := BugKeywords[m];
    assert keyword !in BugKeywords[..m];
    assert forall k :: k in BugKeywords[..m + 1] <==> k in BugKeywords[..m] || k == keyword;
  }

  lemma TallyStepOrder(issues: seq<Issue>, n: nat, m: nat, counts: map<string, nat>, order: seq<string>,
                       counts': map<string, nat>, order': seq<string>)
    requires n < |issues| && m < |BugKeywords|
    requires CountsUpTo(issues, n, m, counts) && OrderUpTo(issues, n, m, counts.Keys, order)
    requires var keyword := BugKeywords[m];
      && counts'.Keys == (if Mentions(issues[n], keyword) then counts.Keys + {keyword} else counts.Keys)
      && order' == if Mentions(issues[n], keyword) && keyword !in counts then order + [keyword] else order
    ensures OrderUpTo(issues, n, m + 1, counts'.Keys, order')
  {
    var keyword := BugKeywords[m];
    if Mentions(issues[n], keyword) && keyword !in counts {
      NewKeywordGoesLast(issues, n, m, counts, order);
    } else {
      forall k | k in order ensures FirstSeenBefore(issues[..n + 1], k, n, m + 1) {
        assert FirstSeenBefore(issues[..n + 1], k, n, m);
      }
    }
  }

  /** A keyword first matched now comes after every keyword already in the table. */
  lemma NewKeywordGoesLast(issues: seq<Issue>, n: nat, m: nat, counts: map<string, nat>, order: seq<string>)
    requires n < |issues| && m < |BugKeywords|
    requires CountsUpTo(issues, n, m, counts) && OrderUpTo(issues, n, m, counts.Keys, order)
    requires Mentions(issues[n], BugKeywords[m]) && BugKeywords[m] !in counts
    ensures OrderUpTo(issues, n, m + 1, counts.Keys + {BugKeywords[m]}, order + [BugKeywords[m]])
  {
    var keyword := BugKeywords[m];
    var done, upTo := issues[..n], issues[..n + 1];
    var order' := order + [keyword];
    BugKeywordsDistinct();
    IndexOfDistinct(BugKeywords, m);
    assert keyword !in BugKeywords[..m];
    assert MatchCount(done, keyword) == 0 by {
      assert PartialCount(done, issues[n], m, keyword) == 0;
    }
    MatchCountSnoc(issues, n, keyword);
    assert FirstMatch(upTo, keyword) == n by {
      assert upTo[..n] == done;
    }
    forall k | k in order' ensures k in BugKeywords && MatchCount(upTo, k) > 0 && FirstSeenBefore(upTo, k, n, m + 1) {
      if k != keyword {
        assert FirstSeenBefore(upTo, k, n, m);
      }
    }
    forall i, j | 0 <= i < j < |order'| ensures SeenBefore(upTo, order'[i], order'[j]) {
      assert order'[i] == order[i] && order[i] in order;
      if j < |order| {
        assert order'[j] == order[j];
      } else {
        assert FirstSeenBefore(upTo, order[i], n, m);
      }
    }
  }

  lemma TallyFinish(issues: seq<Issue>, n: nat, counts: map<string, nat>, order: seq<string>)
    requires PartlyTallied(issues, n, |BugKeywords|, counts, order)
    ensures Tallied(issues[..n + 1], counts, order)
  {
    assert BugKeywords[..|BugKeywords|] == BugKeywords;
    forall k | k in BugKeywords ensures PartialCount(issues[..n], issues[n], |BugKeywords|, k) == MatchCount(issues[..n + 1], k) {
      MatchCountSnoc(issues, n, k);
    }
  }

  /** `table.items()`: one entry per key, in insertion order, each carrying that key's count. */
  function Items(order: seq<string>, counts: map<string, nat>): (r: seq<PatternCount>)
    requires forall k :: k in order ==> k in counts
    ensures |r| == |order| && forall i :: 0 <= i < |r| ==> r[i].keyword == order[i]
    ensures forall e :: e in r ==> e.keyword in counts && e.count == counts[e.keyword]
  {
    seq(|order|, i requires 0 <= i < |order| => PatternCount(order[i], counts[order[i]]))
  }

  /** The table is empty exactly when no issue mentions any of the keywords. */
  lemma {:induction false} EmptyTableIff(issues: seq<Issue>)
    ensures CountTable(issues) == map[] <==> forall i, k :: 0 <= i < |issues| && k in BugKeywords ==> !Mentions(issues[i], k)
  {
    forall k | k in BugKeywords {
      MatchCountZeroIff(issues, k);
    }
    if CountTable(issues) != map[] {
      var k :| k in CountTable(issues);
      assert MatchCount(issues, k) > 0;
    }
  }

  /** The entries of a permutation of `table.items()` are exactly the table's entries, once each. */
  lemma RankedEntries(order: seq<string>, counts: map<string, nat>, ranked: seq<PatternCount>)
    requires Distinct(order) && forall k :: k in order <==> k in counts
    requires multiset(ranked) == multiset(Items(order, counts))
    ensures forall e :: e in ranked ==> e.keyword in counts && e.count == counts[e.keyword]
    ensures forall k :: k in counts ==> PatternCount(k, counts[k]) in ranked
    ensures |ranked| == |order|
  {
    var items := Items(order, counts);
    forall e | e in ranked ensures e in items {
      assert e in multiset(ranked);
    }
    forall k | k in counts ensures PatternCount(k, counts[k]) in ranked {
      var i :| 0 <= i < |order| && order[i] == k;
      assert items[i] == PatternCount(k, counts[k]);
      assert items[i] in multiset(items);
    }
    assert |multiset(ranked)| == |multiset(items)|;
  }

  /** Ties in `table.items()` are in insertion order, since all of it is. */
  lemma ItemsInInsertionOrder(issues: seq<Issue>, order: seq<string>, counts: map<string, nat>)
    requires forall k :: k in order ==> k in counts
    requires forall i, j :: 0 <= i < j < |order| ==> SeenBefore(issues, order[i], order[j])
    ensures TiesOrdered(Items(order, counts), (x: PatternCount, y: PatternCount) => SeenBefore(issues, x.keyword, y.keyword))
  {
  }

  /** Ties ordered strictly by insertion leave no room for a keyword listed twice. */
  lemma RankedKeywordsDistinct(issues: seq<Issue>, ranked: seq<PatternCount>)
    requires forall e :: e in ranked ==> e.keyword in CountTable(issues) && e.count == CountTable(issues)[e.keyword]
    requires forall i, j :: 0 <= i < j < |ranked| && ranked[i].count == ranked[j].count ==> SeenBefore(issues, ranked[i].keyword, ranked[j].keyword)
    ensures forall i, j :: 0 <= i < j < |ranked| ==> ranked[i].keyword != ranked[j].keyword
  {
    forall i, j | 0 <= i < j < |ranked| ensures ranked[i].keyword != ranked[j].keyword {
      assert ranked[i] in ranked && ranked[j] in ranked;
    }
  }

  /**
   * The analysis end to end: count, rank by count, and choose between the
   * bar chart and the "No bug patterns found." message.
   */
  method Run(issues: seq<Issue>) returns (ranked: seq<PatternCount>, report: Report)
    ensures SortedByCountDesc(ranked)
    ensures forall e :: e in ranked ==> e.keyword in CountTable(issues) && e.count == CountTable(issues)[e.keyword]
    ensures forall k :: k in CountTable(issues) ==> PatternCount(k, CountTable(issues)[k]) in ranked
    ensures forall i, j :: 0 <= i < j < |ranked| ==> ranked[i].keyword != ranked[j].keyword
    ensures forall i, j :: 0 <= i < j < |ranked| && ranked[i].count == ranked[j].count ==> SeenBefore(issues, ranked[i].keyword, ranked[j].keyword)
    ensures |ranked| <= |BugKeywords| && TotalCount(ranked) <= |BugKeywords| * |issues|
    ensures report == (if ranked == [] then NoBugPatternsFound else BarChart(ranked))
    ensures report == NoBugPatternsFound <==> forall i, k :: 0 <= i < |issues| && k in BugKeywords ==> !Mentions(issues[i], k)
  {
    var counts, order := CountKeywords(issues);
    var items := Items(order, counts);
    ghost var before := (x: PatternCount, y: PatternCount) => SeenBefore(issues, x.keyword, y.keyword);
    ItemsInInsertionOrder(issues, order, counts);
    SortKeepsTies(items, before);
    ranked := SortByCountDesc(items);
    if |ranked| > 0 {
      report := BarChart(ranked);
    } else {
      report := NoBugPatternsFound;
    }

    RankedEntries(order, counts, ranked);
    RankedKeywordsDistinct(issues, ranked);
    DistinctSubsetLength(order, BugKeywords);
    TotalCountBound(ranked, |BugKeywords|, |issues|);
    EmptyTableIff(issues);
    if ranked != [] {
      assert ranked[0] in ranked;
    }
  }

  /** The issue with its title and every label upper-cased. */
  function UpperCased(issue: Issue): Issue
  {
    Issue(Upper(issue.title), seq(|issue.labels|, i requires 0 <= i < |issue.labels| => Upper(issue.labels[i])))
  }

  /** Two issues whose title and labels agree up to the case of letters. */
  predicate SameIssueIgnoringCase(x: Issue, y: Issue)
  {
    && SameIgnoringCase(x.title, y.title)
    && |x.labels| == |y.labels|
    && forall i :: 0 <= i < |x.labels| ==> SameIgnoringCase(x.labels[i], y.labels[i])
  }

  /** Issues that agree up to case produce the same issue text. */
  lemma IssueTextIgnoresCase(x: Issue, y: Issue)
    requires SameIssueIgnoringCase(x, y)
    ensures IssueText(x) == IssueText(y)
  {
    JoinIgnoresCase(" ", x.labels, y.labels);
    SameIgnoringCaseConcat(x.title, " ", y.title, " ");
    SameIgnoringCaseConcat(x.title + " ", Join(" ", x.labels), y.title + " ", Join(" ", y.labels));
    LowerAgreesWith(x.title + " " + Join(" ", x.labels), y.title + " " + Join(" ", y.labels));
  }

  lemma {:induction false} MatchCountIgnoresCase(xs: seq<Issue>, ys: seq<Issue>, keyword: string)
    requires |xs| == |ys|
    requires forall i :: 0 <= i < |xs| ==> SameIssueIgnoringCase(xs[i], ys[i])
    ensures MatchCount(xs, keyword) == MatchCount(ys, keyword)
  {
    if |xs| > 0 {
      var n := |xs| - 1;
      MatchCountIgnoresCase(xs[..n], ys[..n], keyword);
      IssueTextIgnoresCase(xs[n], ys[n]);
    }
  }

  /** Matching is case-insensitive: lists of issues that agree up to case give the same table. */
  lemma CountTableIgnoresCase(xs: seq<Issue>, ys: seq<Issue>)
    requires |xs| == |ys|
    requires forall i :: 0 <= i < |xs| ==> SameIssueIgnoringCase(xs[i], ys[i])
    ensures CountTable(xs) == CountTable(ys)
  {
    forall k {
      MatchCountIgnoresCase(xs, ys, k);
    }
  }

  /** Upper-casing every title and label leaves the table unchanged. */
  lemma UpperCasedSameTable(issues: seq<Issue>)
    ensures CountTable(seq(|issues|, i requires 0 <= i < |issues| => UpperCased(issues[i]))) == CountTable(issues)
  {
    var upper := seq(|issues|, i requires 0 <= i < |issues| => UpperCased(issues[i]));
    CountTableIgnoresCase(upper, issues);
  }

  /** A keyword in the title, in any case, is detected. */
  lemma TitleKeywordDetected(issue: Issue, keyword: string)
    requires Contains(Lower(issue.title), keyword)
    ensures Contains(IssueText(issue), keyword)
  {
    var rest := " " + Join(" ", issue.labels);
    assert issue.title + " " + Join(" ", issue.labels) == issue.title + rest;
    LowerConcat(issue.title, rest);
    ContainsPrefix(Lower(issue.title), Lower(rest), keyword);
  }

  /** A keyword in any one label, in any case, is detected. */
  lemma LabelKeywordDetected(issue: Issue, k: nat, keyword: string)
    requires k < |issue.labels| && Contains(Lower(issue.labels[k]), keyword)
    ensures Contains(IssueText(issue), keyword)
  {
    JoinContainsPart(" ", issue.labels, k, keyword);
    LowerConcat(issue.title + " ", Join(" ", issue.labels));
    ContainsSuffix(Lower(issue.title + " "), Lower(Join(" ", issue.labels)), keyword);
  }

  /**
   * The single space joining title and labels lets a two-word keyword span
   * them: neither "App not" nor "working" contains "not working", but the
   * issue with that title and that one label is counted for it.
   */
  lemma KeywordAcrossTitleAndLabel()
    ensures !Contains(Lower("App not"), "not working")
    ensures !Contains(Lower("working"), "not working")
    ensures Mentions(Issue("App not", ["working"]), "not working")
  {
    var issue := Issue("App not", ["working"]);
    assert Join(" ", issue.labels) == "working";
    assert issue.title + " " + Join(" ", issue.labels) == "App not working";
    var text := IssueText(issue);
    assert |text| == 15;
    assert text[4..15] == "not working";
    assert OccursAt(text, "not working", 4);
  }
}
