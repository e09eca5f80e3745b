/** The report assembled by `analyze_and_render` in app.py: one summary row
    per resume, the ranked keywords, the keyword × resume matrix, the tally of
    resumes missing each keyword and the eight largest gaps. The Streamlit
    calls that display these are not modelled; the methods return the data
    those calls receive. */
module Report {
  import opened Counting
  import opened Ordering
  import opened Analysis

  // ---------------------------------------------------------------------------
  // Resume labels

  function DigitChar(d: nat): char
    requires d < 10
  {
    (48 + d) as char
  }

  function DigitValue(c: char): nat
  {
    if '0' <= c <= '9' then c as int - 48 else 0
  }

  /** `str(n)`: the decimal digits of `n`, without leading zeros. */
  function Decimal(n: nat): (s: string)
    ensures |s| > 0 && forall i :: 0 <= i < |s| ==> '0' <= s[i] <= '9'
    decreases n
  {
    if n < 10 then [DigitChar(n)] else Decimal(n / 10) + [DigitChar(n % 10)]
  }

  /** `int(s)` for a string of decimal digits. */
  function DecimalValue(s: string): nat
    decreases |s|
  {
    if s == [] then 0 else 10 * DecimalValue(s[..|s| - 1]) + DigitValue(s[|s| - 1])
  }

  lemma {:induction false} DecimalRoundTrip(n: nat)
    ensures DecimalValue(Decimal(n)) == n
    decreases n
  {
    if n >= 10 {
      DecimalRoundTrip(n / 10);
      var s := Decimal(n);
      assert s[..|s| - 1] == Decimal(n / 10);
    }
  }

  /** f"Resume {idx+1}": the label of a resume that has none of its own. */
  function FallbackLabel(idx: nat): string
  {
    "Resume " + Decimal(idx + 1)
  }

  /** Fallback labels of different positions differ. */
  lemma FallbackLabelsDistinct(i: nat, j: nat)
    requires i != j
    ensures FallbackLabel(i) != FallbackLabel(j)
  {
    assert FallbackLabel(i)[7..] == Decimal(i + 1);
    assert FallbackLabel(j)[7..] == Decimal(j + 1);
    DecimalRoundTrip(i + 1);
    DecimalRoundTrip(j + 1);
  }

  /** The summary label of resume `idx`: its own label when there is one. */
  function LabelFor(labels: seq<string>, idx: nat): string
  {
    if idx < |labels| then labels[idx] else FallbackLabel(idx)
  }

  // ---------------------------------------------------------------------------
  // Summary rows and the per-resume results

  /** One row of the summary table; the percent is kept exact (its one-decimal
      formatting is presentation). */
  datatype SummaryRow = SummaryRow(resume: string, matchPercent: real, matchedCount: nat, missingCount: nat)

  /** The summary row of one analysed resume. */
  function SummaryOf(name: string, r: ResumeResult): SummaryRow
  {
    SummaryRow(name, r.matchPercent, |r.matched|, |r.missing|)
  }

  /** The summary table: one row per resume, in input order. */
  function SummaryRows(resumes: seq<seq<Token>>, labels: seq<string>, keywords: set<Token>): seq<SummaryRow>
  {
    seq(|resumes|, i requires 0 <= i < |resumes| => SummaryOf(LabelFor(labels, i), AnalyzeResume(resumes[i], keywords)))
  }

  /** Each summary row carries the resume's own label, or else one built from
      its position; its counts split the keyword set; its percent is between 0
      and 100, and 0 without keywords. */
  lemma SummaryRowsMeaning(resumes: seq<seq<Token>>, labels: seq<string>, keywords: set<Token>, i: int)
    requires 0 <= i < |resumes|
    ensures |SummaryRows(resumes, labels, keywords)| == |resumes|
    ensures var row := SummaryRows(resumes, labels, keywords)[i];
      && row.resume == (if i < |labels| then labels[i] else "Resume " + Decimal(i + 1))
      && row.matchedCount + row.missingCount == |keywords|
      && (keywords != {} ==> row.matchPercent == 100.0 * row.matchedCount as real / |keywords| as real)
      && 0.0 <= row.matchPercent <= 100.0
      && (keywords == {} ==> row.matchPercent == 0.0)
  {
    var r := AnalyzeResume(resumes[i], keywords);
    assert SummaryRows(resumes, labels, keywords)[i] == SummaryOf(LabelFor(labels, i), r);
  }

  /** The counts of a summary row are the numbers of keywords the resume contains and lacks. */
  lemma SummaryCounts(resumes: seq<seq<Token>>, labels: seq<string>, keywords: set<Token>, i: int)
    requires 0 <= i < |resumes|
    ensures SummaryRows(resumes, labels, keywords)[i].matchedCount == |set w | w in keywords && w in resumes[i]|
    ensures SummaryRows(resumes, labels, keywords)[i].missingCount == |set w | w in keywords && w !in resumes[i]|
  {
    var r := AnalyzeResume(resumes[i], keywords);
    assert r.matched == set w | w in keywords && w in resumes[i];
    assert r.missing == set w | w in keywords && w !in resumes[i];
  }

  /** The resumes' frequency tables, in input order. */
  function CountsList(resumes: seq<seq<Token>>): seq<map<Token, nat>>
  {
    seq(|resumes|, i requires 0 <= i < |resumes| => Tally(resumes[i]))
  }

  /** The (matched, missing) pair of each resume, in input order. */
  function MatchedMissing(resumes: seq<seq<Token>>, keywords: set<Token>): seq<(set<Token>, set<Token>)>
  {
    seq(|resumes|, i requires 0 <= i < |resumes| =>
      var r := AnalyzeResume(resumes[i], keywords);
      (r.matched, r.missing))
  }

  /** Extending the prefix of the summary rows by resume `idx`. */
  lemma SummaryStep(resumes: seq<seq<Token>>, labels: seq<string>, keywords: set<Token>, idx: int)
    requires 0 <= idx < |resumes|
    ensures SummaryRows(resumes, labels, keywords)[..idx + 1]
         == SummaryRows(resumes, labels, keywords)[..idx] + [SummaryOf(LabelFor(labels, idx), AnalyzeResume(resumes[idx], keywords))]
  {
    var rows := SummaryRows(resumes, labels, keywords);
    assert rows[..idx + 1] == rows[..idx] + [rows[idx]];
  }

  /** Extending the prefix of the frequency tables by resume `idx`. */
  lemma CountsStep(resumes: seq<seq<Token>>, idx: int)
    requires 0 <= idx < |resumes|
    ensures CountsList(resumes)[..idx + 1] == CountsList(resumes)[..idx] + [Tally(resumes[idx])]
  {
    var tables := CountsList(resumes);
    assert tables[..idx + 1] == tables[..idx] + [tables[idx]];
  }

  /** Extending the prefix of the (matched, missing) pairs by resume `idx`. */
  lemma PairsStep(resumes: seq<seq<Token>>, keywords: set<Token>, idx: int)
    requires 0 <= idx < |resumes|
    ensures var r := AnalyzeResume(resumes[idx], keywords);
      MatchedMissing(resumes, keywords)[..idx + 1] == MatchedMissing(resumes, keywords)[..idx] + [(r.matched, r.missing)]
  {
    var pairs := MatchedMissing(resumes, keywords);
    assert pairs[..idx + 1] == pairs[..idx] + [pairs[idx]];
  }

  /** The per-resume loop: analyses each resume in turn and appends its
      summary row, its frequency table and its (matched, missing) pair. */
  method AnalyzeResumes(resumes: seq<seq<Token>>, labels: seq<string>, keywords: set<Token>)
    returns (summaryRows: seq<SummaryRow>, countsList: seq<map<Token, nat>>, matchedMissing: seq<(set<Token>, set<Token>)>)
    ensures summaryRows == SummaryRows(resumes, labels, keywords)
    ensures countsList == CountsList(resumes)
    ensures matchedMissing == MatchedMissing(resumes, keywords)
  {
    summaryRows, countsList, matchedMissing := [], [], [];
    ghost var rows, tables, pairs := SummaryRows(resumes, labels, keywords), CountsList(resumes), MatchedMissing(resumes, keywords);
    for idx := 0 to |resumes|
      invariant summaryRows == rows[..idx]
      invariant countsList == tables[..idx]
      invariant matchedMissing == pairs[..idx]
    {
      var name := LabelFor(labels, idx);
      var r := AnalyzeResume(resumes[idx], keywords);
      summaryRows := summaryRows + [SummaryOf(name, r)];
      countsList := countsList + [r.counts];
      matchedMissing := matchedMissing + [(r.matched, r.missing)];
      SummaryStep(resumes, labels, keywords, idx);
      CountsStep(resumes, idx);
      PairsStep(resumes, keywords, idx);
    }
    assert rows[..|resumes|] == rows && tables[..|resumes|] == tables && pairs[..|resumes|] == pairs;
  }

  // ---------------------------------------------------------------------------
  // Keyword ranking

  /** The ranking key `(-jd_word_counts[w], w)` without its final word component. */
  function RankKey(jdCounts: map<Token, nat>): Token -> seq<int>
  {
    w => [-(Get(jdCounts, w) as int)]
  }

  /** In a ranking, job counts never increase, and equal counts are in ascending string order. */
  lemma RankingOrder(ranked: seq<Token>, keywords: set<Token>, jdCounts: map<Token, nat>, i: int, j: int)
    requires SortedOf(ranked, keywords, RankKey(jdCounts))
    requires 0 <= i < j < |ranked|
    ensures Get(jdCounts, ranked[i]) > Get(jdCounts, ranked[j])
         || (Get(jdCounts, ranked[i]) == Get(jdCounts, ranked[j]) && StrLess(ranked[i], ranked[j]))
  {
    var key := RankKey(jdCounts);
    SortedOfStrict(ranked, keywords, key, i, j);
    var a, b := key(ranked[i]), key(ranked[j]);
    assert a[1..] == [] && b[1..] == [];
  }

  /** The ranking is determined by the keyword set and the job counts alone. */
  lemma RankingUnique(a: seq<Token>, b: seq<Token>, keywords: set<Token>, jdCounts: map<Token, nat>)
    requires SortedOf(a, keywords, RankKey(jdCounts)) && SortedOf(b, keywords, RankKey(jdCounts))
    ensures a == b
  {
    SortedUnique(a, b, RankKey(jdCounts));
  }

  /** Equal job counts are ordered alphabetically: python and sql (5 each) before java (3). */
  lemma RankingExample(ranked: seq<Token>)
    requires SortedOf(ranked, {"python", "sql", "java"}, RankKey(map["python" := 5, "sql" := 5, "java" := 3]))
    ensures ranked == ["python", "sql", "java"]
  {
    var key := RankKey(map["python" := 5, "sql" := 5, "java" := 3]);
    var expected := ["python", "sql", "java"];
    assert key("python") == [-5] && key("sql") == [-5] && key("java") == [-3];
    assert CodePoints("sql")[0] == 's' as int && CodePoints("python")[0] == 'p' as int;
    assert !StrLess("sql", "python");
    assert !LexLess([-3], [-5]);
    assert Sorted(expected, key);
    assert multiset(expected) == multiset({"python", "sql", "java"});
    SortedUnique(ranked, expected, key);
  }

  // ---------------------------------------------------------------------------
  // Keyword × resume matrix

  /** A matrix cell: the keyword in the "Keyword" column, counts elsewhere. */
  datatype Cell = Text(text: string) | Number(n: nat)

  /** A matrix row, keyed by column name. */
  type Row = map<string, Cell>

  /** Resume `i` is the last of the first `n` resumes to carry its label. */
  predicate LastWithLabel(labels: seq<string>, n: nat, i: nat)
    requires i < n <= |labels|
  {
    forall j :: i < j < n ==> labels[j] != labels[i]
  }

  /** The row of one keyword after the columns of the given resumes have
      been filled in: a "Keyword" column holding the keyword and one column per
      label, where a label's column holds the count of the last resume carrying
      that label (a later resume with the same label overwrites an earlier
      one, and a resume labelled "Keyword" overwrites the keyword). */
  function MatrixRow(keyword: Token, countsList: seq<map<Token, nat>>, labels: seq<string>): (row: Row)
    requires |countsList| <= |labels|
    ensures forall k :: k in row <==> k == "Keyword" || k in labels[..|countsList|]
    ensures "Keyword" !in labels[..|countsList|] ==> row["Keyword"] == Text(keyword)
    decreases |countsList|
  {
    if countsList == [] then map["Keyword" := Text(keyword)]
    else
      var n := |countsList| - 1;
      assert labels[..n + 1] == labels[..n] + [labels[n]];
      MatrixRow(keyword, countsList[..n], labels)[labels[n] := Number(Get(countsList[n], keyword))]
  }

  /** A label's column holds the count of the last resume carrying that label. */
  lemma {:induction false} MatrixRowCell(keyword: Token, countsList: seq<map<Token, nat>>, labels: seq<string>, i: nat)
    requires |countsList| <= |labels| && i < |countsList|
    requires LastWithLabel(labels, |countsList|, i)
    ensures labels[i] in MatrixRow(keyword, countsList, labels)
    ensures MatrixRow(keyword, countsList, labels)[labels[i]] == Number(Get(countsList[i], keyword))
    decreases |countsList|
  {
    var n := |countsList| - 1;
    var prev := MatrixRow(keyword, countsList[..n], labels);
    assert MatrixRow(keyword, countsList, labels) == prev[labels[n] := Number(Get(countsList[n], keyword))];
    if i < n {
      assert labels[n] != labels[i];
      assert LastWithLabel(labels, n, i);
      MatrixRowCell(keyword, countsList[..n], labels, i);
      assert countsList[..n][i] == countsList[i];
    }
  }

  /** The matrix before the DataFrame coercion: one row per ranked keyword, in ranking order. */
  function Matrix(sortedKeywords: seq<Token>, countsList: seq<map<Token, nat>>, labels: seq<string>): seq<Row>
    requires |countsList| <= |labels|
  {
    seq(|sortedKeywords|, r requires 0 <= r < |sortedKeywords| => MatrixRow(sortedKeywords[r], countsList, labels))
  }

  /** Every label of a filled-in resume names a column holding a count. */
  lemma {:induction false} MatrixRowLabelsNumeric(keyword: Token, countsList: seq<map<Token, nat>>, labels: seq<string>, i: nat)
    requires |countsList| <= |labels| && i < |countsList|
    ensures labels[i] in MatrixRow(keyword, countsList, labels)
    ensures MatrixRow(keyword, countsList, labels)[labels[i]].Number?
    decreases |countsList|
  {
    var n := |countsList| - 1;
    var prev := MatrixRow(keyword, countsList[..n], labels);
    assert MatrixRow(keyword, countsList, labels) == prev[labels[n] := Number(Get(countsList[n], keyword))];
    if i < n && labels[i] != labels[n] {
      MatrixRowLabelsNumeric(keyword, countsList[..n], labels, i);
    }
  }

  /** The matrix loop: one row per ranked keyword, each filled resume by
      resume, keyed by the resume's label. Line 133 reads `resume_labels[i]`
      with no fallback, so every resume needs a label here. */
  method BuildMatrix(sortedKeywords: seq<Token>, countsList: seq<map<Token, nat>>, labels: seq<string>)
    returns (data: seq<Row>)
    requires |countsList| <= |labels|
    ensures data == Matrix(sortedKeywords, countsList, labels)
  {
    data := [];
    for k := 0 to |sortedKeywords|
      invariant |data| == k
      invariant forall r :: 0 <= r < k ==> data[r] == MatrixRow(sortedKeywords[r], countsList, labels)
    {
      var keyword := sortedKeywords[k];
      var row: Row := map["Keyword" := Text(keyword)];
      assert row == MatrixRow(keyword, countsList[..0], labels);
      for i := 0 to |countsList|
        invariant row == MatrixRow(keyword, countsList[..i], labels)
      {
        assert countsList[..i + 1][..i] == countsList[..i];
        row := row[labels[i] := Number(Get(countsList[i], keyword))];
      }
      assert countsList[..|countsList|] == countsList;
      data := data + [row];
    }
    assert data == Matrix(sortedKeywords, countsList, labels);
  }

  /** Two resumes under one label share one column, holding the later resume's count. */
  lemma DuplicateLabelsCollapse(keyword: Token, first: map<Token, nat>, second: map<Token, nat>, name: string)
    requires name != "Keyword"
    ensures MatrixRow(keyword, [first, second], [name, name])
         == map["Keyword" := Text(keyword), name := Number(Get(second, keyword))]
  {
  }

  // ---------------------------------------------------------------------------
  // Gap insight

  /** The number of resumes whose missing set contains `w`. */
  function MissCount(matchedMissing: seq<(set<Token>, set<Token>)>, w: Token): (n: nat)
    ensures n <= |matchedMissing|
    ensures n > 0 <==> exists i :: 0 <= i < |matchedMissing| && w in matchedMissing[i].1
    decreases |matchedMissing|
  {
    if matchedMissing == [] then 0
    else
      var last := |matchedMissing| - 1;
      var prefix := matchedMissing[..last];
      assert forall i :: 0 <= i < last ==> prefix[i] == matchedMissing[i];
      MissCount(prefix, w) + (if w in matchedMissing[last].1 then 1 else 0)
  }

  /** The `all_missing_counts` loop: `Counter.update(missing)` for each
      resume, adding one for every keyword of its missing set. */
  method TallyMissing(matchedMissing: seq<(set<Token>, set<Token>)>) returns (missCounts: map<Token, nat>)
    ensures forall w :: Get(missCounts, w) == MissCount(matchedMissing, w)
    ensures forall w :: w in missCounts <==> MissCount(matchedMissing, w) > 0
  {
    missCounts := map[];
    for i := 0 to |matchedMissing|
      invariant forall w :: Get(missCounts, w) == MissCount(matchedMissing[..i], w)
      invariant forall w :: w in missCounts ==> missCounts[w] > 0
    {
      assert matchedMissing[..i + 1][..i] == matchedMissing[..i];
      var missing := matchedMissing[i].1;
      var rest := missing;
      while rest != {}
        invariant rest <= missing
        invariant forall w :: Get(missCounts, w) == MissCount(matchedMissing[..i], w) + (if w in missing - rest then 1 else 0)
        invariant forall w :: w in missCounts ==> missCounts[w] > 0
        decreases |rest|
      {
        var w :| w in rest;
        missCounts := missCounts[w := Get(missCounts, w) + 1];
        rest := rest - {w};
      }
    }
    assert matchedMissing[..|matchedMissing|] == matchedMissing;
  }

  /** The gap key `(-all_missing_counts[w], -jd_word_counts[w], w)` without its final word component. */
  function GapKey(missCounts: map<Token, nat>, jdCounts: map<Token, nat>): Token -> seq<int>
  {
    w => [-(Get(missCounts, w) as int), -(Get(jdCounts, w) as int)]
  }

  /** How many gaps the insight shows. */
  const TopGapCount := 8

  function Min(a: int, b: int): int
  {
    if a < b then a else b
  }

  /** `top` holds the first min(8, n) tallied keywords of the gap order, whatever order the tally is read in. */
  ghost predicate IsTopGaps(top: seq<Token>, missCounts: map<Token, nat>, jdCounts: map<Token, nat>)
  {
    && |top| == Min(TopGapCount, |missCounts|)
    && forall all :: SortedOf(all, missCounts.Keys, GapKey(missCounts, jdCounts)) ==> top <= all
  }

  /** `sorted(all_missing_counts, key=...)[:8]`. */
  method TopGaps(missCounts: map<Token, nat>, jdCounts: map<Token, nat>) returns (top: seq<Token>)
    ensures IsTopGaps(top, missCounts, jdCounts)
    ensures forall i, j :: 0 <= i < j < |top| ==> Before(GapKey(missCounts, jdCounts), top[i], top[j])
    ensures forall w, v :: w in top && v in missCounts && v !in top ==> Before(GapKey(missCounts, jdCounts), w, v)
  {
    var key := GapKey(missCounts, jdCounts);
    var all := SortSet(missCounts.Keys, key);
    assert |all| == |multiset(all)| == |multiset(missCounts.Keys)| == |missCounts.Keys| == |missCounts|;
    top := all[..Min(TopGapCount, |all|)];
    forall other | SortedOf(other, missCounts.Keys, key) ensures top <= other {
      SortedUnique(all, other, key);
    }
    forall i, j | 0 <= i < j < |top| ensures Before(key, top[i], top[j]) {
      SortedOfStrict(all, missCounts.Keys, key, i, j);
    }
    forall w, v | w in top && v in missCounts && v !in top ensures Before(key, w, v) {
      var i :| 0 <= i < |top| && top[i] == w;
      assert v in multiset(all);
      var j :| 0 <= j < |all| && all[j] == v;
      SortedOfStrict(all, missCounts.Keys, key, i, j);
    }
  }

  /** Every resume contains every keyword. */
  ghost predicate NothingMissing(resumes: seq<seq<Token>>, keywords: set<Token>)
  {
    forall i, w :: 0 <= i < |resumes| && w in keywords ==> w in resumes[i]
  }

  /** The missing tally is empty exactly when every resume contains every keyword. */
  lemma NoGapsIffNothingMissing(resumes: seq<seq<Token>>, keywords: set<Token>, missCounts: map<Token, nat>)
    requires forall w :: w in missCounts <==> MissCount(MatchedMissing(resumes, keywords), w) > 0
    ensures missCounts == map[] <==> NothingMissing(resumes, keywords)
  {
    var mm := MatchedMissing(resumes, keywords);
    if missCounts != map[] {
      var w :| w in missCounts;
      var i :| 0 <= i < |mm| && w in mm[i].1;
      assert w in AnalyzeResume(resumes[i], keywords).missing;
    }
    if !NothingMissing(resumes, keywords) {
      var i, w :| 0 <= i < |resumes| && w in keywords && w !in resumes[i];
      assert w in AnalyzeResume(resumes[i], keywords).missing;
      assert w in mm[i].1;
      assert MissCount(mm, w) > 0;
    }
  }

  // ---------------------------------------------------------------------------
  // The whole report

  /** What `analyze_and_render` produces: the full report, or the summary
      alone when the matrix loop fails at `resume_labels[i]` (IndexError). */
  datatype Outcome =
    | Rendered(summary: seq<SummaryRow>, sortedKeywords: seq<Token>, matrix: seq<Row>,
               missCounts: map<Token, nat>, topGaps: seq<Token>)
    | IndexError(summary: seq<SummaryRow>)

  /** `analyze_and_render` without its display calls, with the DataFrame
      coercion as evidently intended (a label that names no column is skipped). */
  method AnalyzeAndRender(jobCleaned: seq<Token>, nounsVerbs: seq<Token> -> seq<Token>,
                          resumes: seq<seq<Token>>, labels: seq<string>, modeLabel: string)
    returns (out: Outcome)
    ensures var job := ExtractKeywordsFromJd(jobCleaned, ModeOf(modeLabel), nounsVerbs);
      && out.summary == SummaryRows(resumes, labels, job.keywords)
      && (out.IndexError? <==> |labels| < |resumes| && job.keywords != {})
      && (out.Rendered? ==>
        && SortedOf(out.sortedKeywords, job.keywords, RankKey(job.counts))
        && |out.matrix| == |out.sortedKeywords| == |job.keywords|
        && (|resumes| <= |labels| ==>
              out.matrix == CoerceLabelColumns(Matrix(out.sortedKeywords, CountsList(resumes), labels), labels))
        && (|resumes| == |labels| ==> out.matrix == Matrix(out.sortedKeywords, CountsList(resumes), labels))
        && (forall w :: Get(out.missCounts, w) == MissCount(MatchedMissing(resumes, job.keywords), w))
        && (forall w :: w in out.missCounts <==> MissCount(MatchedMissing(resumes, job.keywords), w) > 0)
        && IsTopGaps(out.topGaps, out.missCounts, job.counts)
        && (forall i, j :: 0 <= i < j < |out.topGaps| ==>
              Before(GapKey(out.missCounts, job.counts), out.topGaps[i], out.topGaps[j]))
        && (forall w, v :: w in out.topGaps && v in out.missCounts && v !in out.topGaps ==>
              Before(GapKey(out.missCounts, job.counts), w, v))
        && (out.topGaps == [] <==> NothingMissing(resumes, job.keywords)))
  {
    var job := ExtractKeywordsFromJd(jobCleaned, ModeOf(modeLabel), nounsVerbs);
    var summaryRows, countsList, matchedMissing := AnalyzeResumes(resumes, labels, job.keywords);
    var sortedKeywords := SortSet(job.keywords, RankKey(job.counts));
    assert |sortedKeywords| == |multiset(sortedKeywords)| == |multiset(job.keywords)| == |job.keywords|;
    if |labels| < |resumes| && sortedKeywords != [] {
      return IndexError(summaryRows);
    }
    var data: seq<Row>;
    if |resumes| <= |labels| {
      data := BuildMatrix(sortedKeywords, countsList, labels);
      if |resumes| == |labels| {
        MatrixCoercion(sortedKeywords, countsList, labels);
      }
    } else {
      data := [];
    }
    var matrix := CoerceLabelColumns(data, labels);
    var missCounts := TallyMissing(matchedMissing);
    var topGaps := TopGaps(missCounts, job.counts);
    assert topGaps == [] <==> missCounts == map[];
    NoGapsIffNothingMissing(resumes, job.keywords, missCounts);
    out := Rendered(summaryRows, sortedKeywords, matrix, missCounts, topGaps);
  }

  // ---------------------------------------------------------------------------
  // The DataFrame coercion of lines 135-137

  /** The columns of `pd.DataFrame(data)`: every key of every row. */
  function FrameColumns(data: seq<Row>): set<string>
  {
    set r, k | r in data && k in r :: k
  }

  /** One cell of `pd.to_numeric(df[col], errors="coerce").fillna(0).astype(int)`:
      a count stays; a word (cleaned tokens are alphabetic, so not numeric) or
      a cell the row lacks becomes 0. */
  function CoerceCell(row: Row, col: string): Row
  {
    if col in row && row[col].Number? then row else row[col := Number(0)]
  }

  /** `df[col] = ...` for one column that exists. */
  function CoerceColumn(data: seq<Row>, col: string): seq<Row>
  {
    seq(|data|, r requires 0 <= r < |data| => CoerceCell(data[r], col))
  }

  /** Coercing a column that exists adds no column. */
  lemma CoerceColumnKeepsColumns(data: seq<Row>, col: string)
    requires col in FrameColumns(data)
    ensures FrameColumns(CoerceColumn(data, col)) == FrameColumns(data)
  {
    var coerced := CoerceColumn(data, col);
    forall k | k in FrameColumns(coerced) ensures k in FrameColumns(data) {
      var row :| row in coerced && k in row;
      var r :| 0 <= r < |coerced| && coerced[r] == row;
      assert k == col || k in data[r];
    }
    forall k | k in FrameColumns(data) ensures k in FrameColumns(coerced) {
      var row :| row in data && k in row;
      var r :| 0 <= r < |data| && data[r] == row;
      assert k in coerced[r];
    }
  }

  /** Result of the coercion loop. */
  datatype Coerced = Coerced(frame: seq<Row>) | KeyError(column: string)

  /** Lines 136-137 as written: `df[col]` for every label in turn; a label
      that names no column raises KeyError. */
  function CoerceAsWritten(data: seq<Row>, labels: seq<string>): (c: Coerced)
    ensures c.Coerced? <==> forall i :: 0 <= i < |labels| ==> labels[i] in FrameColumns(data)
    ensures c.KeyError? ==> c.column in labels && c.column !in FrameColumns(data)
    decreases |labels|
  {
    if labels == [] then Coerced(data)
    else if labels[0] !in FrameColumns(data) then KeyError(labels[0])
    else
      CoerceColumnKeepsColumns(data, labels[0]);
      var rest := CoerceAsWritten(CoerceColumn(data, labels[0]), labels[1..]);
      assert forall i :: 1 <= i < |labels| ==> labels[i] == labels[1..][i - 1];
      rest
  }

  /** The coercion as evidently intended: a label that names no column
      (there are none in an empty matrix) is skipped. */
  function CoerceLabelColumns(data: seq<Row>, labels: seq<string>): (c: seq<Row>)
    ensures |c| == |data|
    decreases |labels|
  {
    if labels == [] then data
    else if labels[0] !in FrameColumns(data) then CoerceLabelColumns(data, labels[1..])
    else CoerceLabelColumns(CoerceColumn(data, labels[0]), labels[1..])
  }

  /** Wherever the coercion as written succeeds, the corrected one gives the same frame. */
  lemma {:induction false} CoercionAgrees(data: seq<Row>, labels: seq<string>)
    requires CoerceAsWritten(data, labels).Coerced?
    ensures CoerceAsWritten(data, labels).frame == CoerceLabelColumns(data, labels)
    decreases |labels|
  {
    if labels != [] {
      CoerceColumnKeepsColumns(data, labels[0]);
      CoercionAgrees(CoerceColumn(data, labels[0]), labels[1..]);
    }
  }

  /** A frame whose label cells all hold counts comes through the coercion unchanged. */
  lemma {:induction false} CoercionKeepsCounts(data: seq<Row>, labels: seq<string>)
    requires forall r, i :: 0 <= r < |data| && 0 <= i < |labels| ==> labels[i] in data[r] && data[r][labels[i]].Number?
    ensures CoerceLabelColumns(data, labels) == data
    decreases |labels|
  {
    if labels != [] {
      assert CoerceColumn(data, labels[0]) == data;
      assert forall i :: 0 <= i < |labels[1..]| ==> labels[1..][i] == labels[i + 1];
      CoercionKeepsCounts(data, labels[1..]);
    }
  }

  /** With one label per resume, every label names a column of counts in
      every row, so the coercion leaves the matrix as built. */
  lemma MatrixCoercion(sortedKeywords: seq<Token>, countsList: seq<map<Token, nat>>, labels: seq<string>)
    requires |countsList| == |labels|
    ensures CoerceLabelColumns(Matrix(sortedKeywords, countsList, labels), labels) == Matrix(sortedKeywords, countsList, labels)
  {
    var data: seq<Row> := Matrix(sortedKeywords, countsList, labels);
    forall r: int, i: int | 0 <= r < |data| && 0 <= i < |labels| ensures labels[i] in data[r] && data[r][labels[i]].Number? {
      MatrixRowLabelsNumeric(sortedKeywords[r], countsList, labels, i);
    }
    CoercionKeepsCounts(data, labels);
  }

  /** With one label per resume and at least one keyword, the coercion as
      written succeeds and keeps the matrix. */
  lemma MatrixCoercionAsWritten(sortedKeywords: seq<Token>, countsList: seq<map<Token, nat>>, labels: seq<string>)
    requires |countsList| == |labels| && sortedKeywords != []
    ensures CoerceAsWritten(Matrix(sortedKeywords, countsList, labels), labels)
         == Coerced(Matrix(sortedKeywords, countsList, labels))
  {
    var data: seq<Row> := Matrix(sortedKeywords, countsList, labels);
    forall i | 0 <= i < |labels| ensures labels[i] in FrameColumns(data) {
      MatrixRowLabelsNumeric(sortedKeywords[0], countsList, labels, i);
      assert labels[i] in data[0];
    }
    CoercionAgrees(data, labels);
    MatrixCoercion(sortedKeywords, countsList, labels);
  }

  /** A label beyond the resumes names no column unless an earlier label or
      "Keyword" already does: with one resume labelled "r" and a second label
      "s", the coercion as written fails on "s". */
  lemma ExtraLabelRaisesKeyError()
    ensures CoerceAsWritten(Matrix(["a"], [Tally(["a"])], ["r", "s"]), ["r", "s"]) == KeyError("s")
  {
    var data := Matrix(["a"], [Tally(["a"])], ["r", "s"]);
    var row := MatrixRow("a", [Tally(["a"])], ["r", "s"]);
    assert [Tally(["a"])][..0] == [];
    assert row == map["Keyword" := Text("a"), "r" := Number(1)];
    assert data == [row];
    assert "r" in row;
    assert "s" !in FrameColumns(data);
  }

  /** A job description without keywords (for instance one made only of stop
      words and numbers, such as "2024 100%") ranks no keyword and gives an empty matrix, which has
      no columns at all: the coercion as written then fails on the first
      resume label, while the corrected one keeps the empty matrix. */
  lemma EmptyMatrixRaisesKeyError(jobCleaned: seq<Token>, nounsVerbs: seq<Token> -> seq<Token>,
                                  labels: seq<string>, modeLabel: string)
    requires ExtractKeywordsFromJd(jobCleaned, ModeOf(modeLabel), nounsVerbs).keywords == {}
    requires |labels| > 0
    ensures forall ranked ::
      (SortedOf(ranked, {}, RankKey(ExtractKeywordsFromJd(jobCleaned, ModeOf(modeLabel), nounsVerbs).counts)) ==> ranked == [])
    ensures CoerceAsWritten([], labels) == KeyError(labels[0])
    ensures CoerceLabelColumns([], labels) == []
  {
    forall ranked | SortedOf(ranked, {}, RankKey(ExtractKeywordsFromJd(jobCleaned, ModeOf(modeLabel), nounsVerbs).counts))
      ensures ranked == []
    {
      assert |ranked| == |multiset(ranked)|;
    }
    EmptyFrameKept(labels);
  }

  /** The corrected coercion leaves an empty frame empty. */
  lemma EmptyFrameKept(labels: seq<string>)
    ensures CoerceLabelColumns([], labels) == []
  {
  }
}
