# Resume keyword matcher: report assembly

A Dafny model of the report that `analyze_and_render` in `app.py` assembles
for one job description and a list of resumes. It covers four parts:

- the job description's keyword set and frequency table (`extract_keywords_from_jd`);
- the per-resume analysis (`analyze_resume`) and the summary rows;
- the keyword ranking and the keyword × resume matrix;
- the tally of resumes missing each keyword and the eight largest gaps.

The model is split into four modules:

- `Counting` (`counting.dfy`): `collections.Counter` as a map from token to count.
  - A token the map lacks reads as 0.
  - The counts add up to the length of the counted sequence.
- `Ordering` (`ordering.dfy`): Python's `sorted(..., key=lambda w: (-n1, ..., w))` over a set.
  - Tuples of integers and strings are compared lexicographically; strings by code point.
  - The set is read in an unspecified order (a method loop), then insertion-sorted.
  - Any two sorted arrangements of the same set are equal, so the result does not depend on that order.
- `Analysis` (`analysis.dfy`): the radio-label-to-mode choice, keyword extraction and resume matching.
- `Report` (`report.dfy`):
  - the resume loop that builds the summary rows, the frequency tables and the (matched, missing) pairs;
  - the ranking;
  - the nested matrix loops;
  - the `Counter.update` loop over the missing sets;
  - the top-8 selection;
  - the DataFrame coercion of the matrix;
  - the whole pipeline, as `AnalyzeAndRender`.

Text cleaning and part-of-speech tagging come from `text_utils`, which is not
part of this model. They enter as parameters:

- the cleaned token sequences of the job and of each resume;
- the noun/verb filter, as a function on token sequences.

Three `text_utils` helpers follow their documented behaviour:

- `extract_keywords` is the set of the tokens;
- `match_keywords` is set intersection and difference;
- `calculate_match_percent` is `100 * |matched| / total`, or `0.0` when there are no keywords.

Where the source fails, the model either returns an error value or follows the evidently intended behaviour:

- Line 133 reads `resume_labels[i]` with no fallback. The matrix step therefore requires at least as many labels as resumes.
- At the top level, `AnalyzeAndRender` returns `IndexError` exactly when there are fewer labels than resumes and at least one keyword. With no keywords the matrix loop never runs, so it cannot fail.
- Line 137 raises KeyError when a label names no column of the matrix. This happens in two cases, and `AnalyzeAndRender` renders through the corrected coercion in both; the as-written failure is kept in `CoerceAsWritten`.
  - There are no keywords and at least one label: the empty matrix has no columns (see Findings).
  - There are more labels than resumes, and a label beyond the resumes is neither an earlier label nor "Keyword". The app's callers always pass one label per resume (lines 216-217 and 248-249), so this case is not reached there.
- Matrix columns are keyed by label. Two resumes with the same label share one column, and the later one's count wins. A resume labelled `Keyword` overwrites the keyword cell.

## Model

| member | source | states |
|---|---|---|
| Counting.Tally | app.py:54 | `Counter(s)`: every token reads as its number of occurrences in `s`, and the table's keys are exactly the tokens of `s` |
| Counting.TallyTotal | app.py:54 | the counts of `Counter(s)` add up to the length of `s` |
| Ordering.SortBy | app.py:129 | the sort is a permutation of its input |
| Ordering.SortBySorted | app.py:129 | the sort leaves no element before one that should precede it |
| Ordering.SortedUnique | app.py:129 | two sorted arrangements of the same elements are equal, so the set's iteration order does not matter |
| Ordering.SortedOfStrict | app.py:129 | in a sorted arrangement of a set, every earlier element strictly precedes every later one (the word breaks all ties) |
| Ordering.BeforeTotal | app.py:129 | two different words are always ordered one way or the other by a key ending in the word |
| Ordering.BeforeTransitive | app.py:129 | the key order is transitive |
| Ordering.SortSet | app.py:129 | `sorted(keys, key=...)` lists each key of the set exactly once, in sorted order |
| Analysis.ModeOf | app.py:99 | the mode is "all" exactly when the label starts with "All", otherwise noun/verb |
| Analysis.ExtractKeywordsFromJd | app.py:44-55 | the keywords are the tokens of the (filtered in noun/verb mode) job sequence; the table counts each one's occurrences in that same sequence, every keyword at least once, and reads 0 for any other token |
| Analysis.JobCountsTotal | app.py:50-54 | the job counts add up to the length of the sequence the keywords are drawn from |
| Analysis.MatchPercent | app.py:64 | 0.0 without keywords, otherwise percent × total = 100 × matched, and within [0, 100] |
| Analysis.AnalyzeResume | app.py:57-66 | matched holds the keywords the resume contains and missing those it lacks; together they partition the keywords; the percent is 100 × matched / keywords, within [0, 100], and 0 without keywords; the resume's table counts its own unfiltered tokens |
| Report.DecimalRoundTrip | app.py:108 | `str(n)` read back as a number gives `n` |
| Report.FallbackLabelsDistinct | app.py:108 | the fallback labels `Resume {idx+1}` of different positions differ |
| Report.SummaryRowsMeaning | app.py:107-119 | one summary row per resume in input order, labelled with the resume's label when it exists and `Resume {idx+1}` otherwise (`LabelFor`, `FallbackLabel`); its two counts add up to the number of keywords; its percent is 100 × `#Matched` / keywords, within [0, 100], and 0 without keywords |
| Report.SummaryCounts | app.py:117-118 | `#Matched` is the number of keywords the resume contains and `#Missing` the number it lacks |
| Report.AnalyzeResumes | app.py:103-121 | the resume loop builds exactly the summary rows, frequency tables and (matched, missing) pairs, one per resume in input order |
| Report.RankingOrder | app.py:129 | under the key `RankKey` (`-jd_word_counts[w]`, then the word), in the ranking, an earlier keyword has a larger job count, or the same count and a smaller string |
| Report.RankingUnique | app.py:129 | the ranking is determined by the keyword set and the job counts alone |
| Report.RankingExample | app.py:129 | with counts python 5, sql 5 and java 3, the ranking is python, sql, java |
| Report.MatrixRow | app.py:131-133 | a row's columns are "Keyword" and the labels of the resumes filled in; without a resume labelled "Keyword" that cell holds the keyword |
| Report.MatrixRowCell | app.py:132-133 | a label's cell holds the count (0 when absent) of the last resume carrying that label |
| Report.MatrixRowLabelsNumeric | app.py:133 | every label of a filled-in resume names a cell holding a count |
| Report.DuplicateLabelsCollapse | app.py:131-133 | two resumes under one label give one column holding the later resume's count |
| Report.BuildMatrix | app.py:128-134 | the nested loops build one row per ranked keyword in ranking order, each the row described by `MatrixRow`; requires a label for every resume |
| Report.MissCount | app.py:147-149 | the number of resumes missing a keyword is at most the number of resumes, and positive exactly when some resume misses it |
| Report.TallyMissing | app.py:147-149 | the `Counter.update` loop reads, for every keyword, the number of resumes missing it, and holds exactly the keywords some resume misses |
| Report.TopGaps | app.py:151-154 | the gaps are the first min(8, n) tallied keywords under the key `GapKey` (more misses, higher job count, smaller string), for any iteration order; they are listed in that order, and each comes before every tallied keyword left out |
| Report.NoGapsIffNothingMissing | app.py:147-156 | the missing tally is empty exactly when every resume contains every keyword |
| Report.AnalyzeAndRender | app.py:69-154 | the whole report: summary rows, an IndexError exactly when labels run short and keywords exist, the ranking, the matrix (as built when there is one label per resume), the gap tally (its keys exactly the keywords some resume misses, each with the number of resumes missing it), the top gaps in gap order and ahead of every tallied keyword left out, and no gaps exactly when nothing is missing |
| Report.CoerceColumnKeepsColumns | app.py:137 | coercing an existing column adds no column |
| Report.CoerceAsWritten | app.py:135-137 | the coercion as written succeeds exactly when every label names a column of the frame, and otherwise fails on a label that names none |
| Report.CoerceLabelColumns | app.py:136-137 | the corrected coercion keeps the number of rows |
| Report.CoercionAgrees | app.py:136-137 | wherever the coercion as written succeeds, the corrected one yields the same frame |
| Report.CoercionKeepsCounts | app.py:137 | a frame whose label cells all hold counts is left unchanged |
| Report.MatrixCoercion | app.py:133-137 | with one label per resume, the coercion leaves the matrix as built |
| Report.MatrixCoercionAsWritten | app.py:128-137 | with one label per resume and at least one keyword, the coercion as written succeeds and keeps the matrix |
| Report.EmptyMatrixRaisesKeyError | app.py:128-137 | a job without keywords ranks nothing; the empty matrix then makes the coercion as written raise KeyError on the first label, while the corrected one keeps the empty matrix |
| Report.ExtraLabelRaisesKeyError | app.py:133-137 | with one resume labelled "r" and a second label "s", the coercion as written raises KeyError on "s" |
| Report.EmptyFrameKept | app.py:136-137 | the corrected coercion leaves an empty frame empty |

## Left out

- Streamlit display is not modelled: expanders, tables, the data frame's height formula, markdown and the 5000-character truncation of displayed texts. The methods return the data these calls receive.
- File reading (`read_uploaded_file`, `read_sample_file`) is not modelled. It is I/O through PyPDF2 and the filesystem; texts enter already cleaned.
- Session state, buttons, upload validation (one to three resumes) and the demo flow are not modelled. They are UI event handling. The model accepts any number of resumes and labels.
- The internals of `text_utils` are not part of this model: lower-casing, punctuation removal, stop words and NLTK tagging. The cleaned token sequences and the noun/verb filter are parameters.
- The `Match %` column is kept as an exact real. Its one-decimal string formatting is floating-point presentation.
- The column order of a matrix row (dict insertion order) is not modelled; a row is a map from column name to cell.
- Report.CoerceAsWritten, Report.CoerceLabelColumns: `pd.to_numeric` (the helper `CoerceCell`) is modelled only on the cells the matrix can hold. A count stays a count. A keyword (cleaned tokens are alphabetic) or a missing cell becomes 0. Parsing of words such as "inf" is not modelled.
- Report.AnalyzeAndRender: where the source raises KeyError at line 137, the model renders instead. With no keywords and at least one label it renders an empty matrix (see Findings). With a label beyond the resumes that names no column, it skips that label. Its matrix is stated in full only when there are at least as many labels as resumes (otherwise, without keywords, it is empty). When there are more labels than resumes, the extra labels go through the corrected coercion.

## Findings

| source | as written | input that shows it | evidently intended | confidence | as-written member | corrected member |
|---|---|---|---|---|---|---|
| app.py:135-137 | `df[col]` for every resume label, on a DataFrame built from the matrix rows | a job description made only of stop words and numbers (for instance "2024 100%", which cleaning empties), or a noun/verb-mode text the tagger keeps nothing of, and one resume: the matrix is empty, the DataFrame has no columns, and `df[label]` raises KeyError | the report renders with an empty matrix | not executed | Report.EmptyMatrixRaisesKeyError | Report.CoerceLabelColumns |
