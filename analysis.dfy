/** The job-description and resume analysis steps of app.py
    (`extract_keywords_from_jd`, `analyze_resume`, and the choice of mode).
    Text cleaning and part-of-speech tagging happen outside: the steps receive
    the cleaned token sequences, and the noun/verb filter as a function. */
module Analysis {
  import opened Counting

  /** Keyword extraction mode. */
  datatype Mode = All | NounsVerbs

  /** The mode selected by the radio label: "all" exactly when the label starts with "All". */
  function ModeOf(modeLabel: string): (m: Mode)
    ensures m == All <==> |modeLabel| >= 3 && modeLabel[0] == 'A' && modeLabel[1] == 'l' && modeLabel[2] == 'l'
  {
    if "All" <= modeLabel then All else NounsVerbs
  }

  /** The job description's keywords and its frequency table. */
  datatype JobProfile = JobProfile(keywords: set<Token>, counts: map<Token, nat>)

  /** The token sequence keywords are drawn from: the cleaned job tokens,
      narrowed by the noun/verb filter in that mode. */
  function KeywordSource(jobCleaned: seq<Token>, mode: Mode, nounsVerbs: seq<Token> -> seq<Token>): seq<Token>
  {
    if mode == NounsVerbs then nounsVerbs(jobCleaned) else jobCleaned
  }

  /** `extract_keywords_from_jd`: the keyword set is the set of source tokens
      and the table counts each source token's occurrences; both are taken
      from the same (possibly filtered) sequence. */
  function ExtractKeywordsFromJd(jobCleaned: seq<Token>, mode: Mode, nounsVerbs: seq<Token> -> seq<Token>): (job: JobProfile)
    ensures var source := KeywordSource(jobCleaned, mode, nounsVerbs);
      && (forall w :: w in job.keywords <==> w in source)
      && (forall w :: Get(job.counts, w) == multiset(source)[w])
      && job.counts.Keys == job.keywords
      && (forall w :: w in job.keywords ==> job.counts[w] >= 1)
  {
    var source := KeywordSource(jobCleaned, mode, nounsVerbs);
    assert forall w :: w in source ==> w in multiset(source);
    JobProfile((set w | w in source), Tally(source))
  }

  /** The job counts add up to the length of the sequence the keywords come from. */
  lemma JobCountsTotal(jobCleaned: seq<Token>, mode: Mode, nounsVerbs: seq<Token> -> seq<Token>)
    ensures Total(ExtractKeywordsFromJd(jobCleaned, mode, nounsVerbs).counts)
         == |KeywordSource(jobCleaned, mode, nounsVerbs)|
  {
    TallyTotal(KeywordSource(jobCleaned, mode, nounsVerbs));
  }

  /** `calculate_match_percent`: the share of keywords matched, in percent,
      and exactly 0.0 when there are no keywords. */
  function MatchPercent(matched: set<Token>, total: nat): (p: real)
    ensures total == 0 ==> p == 0.0
    ensures total > 0 ==> p * total as real == 100.0 * |matched| as real
    ensures |matched| <= total ==> 0.0 <= p <= 100.0
  {
    if total == 0 then 0.0 else 100.0 * |matched| as real / total as real
  }

  /** What `analyze_resume` returns for one resume. */
  datatype ResumeResult = ResumeResult(matched: set<Token>, missing: set<Token>, matchPercent: real, counts: map<Token, nat>)

  /** `analyze_resume`: the keywords split into those the resume's cleaned
      tokens contain and those they lack, the match percent, and the
      resume's own frequency table. Resumes are never noun/verb filtered. */
  function AnalyzeResume(resumeCleaned: seq<Token>, keywords: set<Token>): (r: ResumeResult)
    ensures forall w :: w in r.matched <==> w in keywords && w in resumeCleaned
    ensures forall w :: w in r.missing <==> w in keywords && w !in resumeCleaned
    ensures r.matched + r.missing == keywords && r.matched !! r.missing
    ensures |r.matched| + |r.missing| == |keywords|
    ensures keywords != {} ==> r.matchPercent == 100.0 * |r.matched| as real / |keywords| as real
    ensures 0.0 <= r.matchPercent <= 100.0
    ensures keywords == {} ==> r.matchPercent == 0.0
    ensures forall w :: Get(r.counts, w) == multiset(resumeCleaned)[w]
  {
    var present := set w | w in resumeCleaned;
    var matched := keywords * present;
    var missing := keywords - present;
    assert matched + missing == keywords && matched !! missing;
    ResumeResult(matched, missing, MatchPercent(matched, |keywords|), Tally(resumeCleaned))
  }
}
