/** The analyzer: resolves each logged record into one report row (best
    quartile over its categories, eligibility label, index summary) and
    orders the rows by eligibility and then by quartile score. */
module Analysis {
  import opened Common
  import opened Records
  import Extraction
  import Sorting

  /** `"Q1"` to `"Q4"` for 1 to 4. */
  function QuartileLabel(n: nat): string
    requires 1 <= n <= 4
  {
    ["Q1", "Q2", "Q3", "Q4"][n - 1]
  }

  /** `quartile_map.get(q, 99)`: the quartile's number, 99 for "N/A" and for
      any other text. */
  function QuartileScore(q: string): (s: nat)
    ensures s < 99 ==> 1 <= s <= 4 && QuartileLabel(s) == q
    ensures s >= 99 ==> s == 99 && forall n :: 1 <= n <= 4 ==> QuartileLabel(n) != q
  {
    if q == "Q1" then 1
    else if q == "Q2" then 2
    else if q == "Q3" then 3
    else if q == "Q4" then 4
    else 99
  }

  /** The number of a quartile label is the one it was made from. */
  lemma QuartileRoundTrip(n: nat)
    requires 1 <= n <= 4
    ensures QuartileScore(QuartileLabel(n)) == n
  {
  }

  /** The entry taken as a category's latest: the first, or the second when
      the first is a leftover header row and there is a second. */
  function Latest(hist: seq<YearEntry>): YearEntry
    requires hist != []
  {
    if Contains(hist[0].year, HeaderMarker) && |hist| > 1 then hist[1] else hist[0]
  }

  /** The running best of the resolution loop: `best_score`, `best_q`,
      `best_year` and `best_rank`. */
  datatype Best = Best(score: nat, quartile: string, year: string, rank: string)

  const NoBest := Best(99, "N/A", "N/A", "N/A")

  /** The score a category offers: its latest entry's, or 99 (never an
      improvement) when its history is empty. */
  function CatScore(c: CategoryRanking): nat {
    if c.history == [] then 99 else QuartileScore(Latest(c.history).quartile)
  }

  function EntryBest(e: YearEntry): Best {
    Best(QuartileScore(e.quartile), e.quartile, e.year, e.rank)
  }

  /** One iteration of the loop over the categories. */
  function Consider(b: Best, c: CategoryRanking): Best {
    if c.history == [] then b
    else
      var latest := Latest(c.history);
      if QuartileScore(latest.quartile) < b.score then EntryBest(latest) else b
  }

  /** The loop over all categories, from the initial best. */
  function BestOf(cats: seq<CategoryRanking>): Best
    decreases |cats|
  {
    if cats == [] then NoBest else Consider(BestOf(cats[..|cats| - 1]), cats[|cats| - 1])
  }

  /** Category `i` is the first to reach `b`'s score, and `b` is its latest
      entry. */
  predicate FirstBestAt(cats: seq<CategoryRanking>, b: Best, i: int) {
    && 0 <= i < |cats| && cats[i].history != []
    && b == EntryBest(Latest(cats[i].history))
    && forall j :: 0 <= j < i ==> b.score < CatScore(cats[j])
  }

  /** The intended best of a category list, stated without the loop: its
      score is no more than any category's, and it is that of the first
      category reaching the minimum, or nothing when no category scores
      below 99. */
  predicate IsBestOf(cats: seq<CategoryRanking>, b: Best) {
    && (forall i :: 0 <= i < |cats| ==> b.score <= CatScore(cats[i]))
    && (b.score < 99 ==> exists i :: 0 <= i < |cats| && FirstBestAt(cats, b, i))
    && (b.score >= 99 ==> b == NoBest)
  }

  /** The loop computes the first best category's entry. */
  lemma {:induction false} BestOfIsFirstMinimum(cats: seq<CategoryRanking>)
    ensures IsBestOf(cats, BestOf(cats))
    decreases |cats|
  {
    if cats != [] {
      var init := cats[..|cats| - 1];
      var c := cats[|cats| - 1];
      BestOfIsFirstMinimum(init);
      var b0 := BestOf(init);
      var b := BestOf(cats);
      assert forall j :: 0 <= j < |init| ==> cats[j] == init[j];
      if b != b0 {
        assert FirstBestAt(cats, b, |init|);
      } else if b.score < 99 {
        var i :| 0 <= i < |init| && FirstBestAt(init, b0, i);
        assert FirstBestAt(cats, b, i);
      }
    }
  }

  /** At most one best satisfies the description, so it determines the
      loop's result. */
  lemma BestIsUnique(cats: seq<CategoryRanking>, b1: Best, b2: Best)
    requires IsBestOf(cats, b1) && IsBestOf(cats, b2)
    ensures b1 == b2
  {
    if b1.score < 99 || b2.score < 99 {
      if b1.score < 99 {
        var i1 :| 0 <= i1 < |cats| && FirstBestAt(cats, b1, i1);
        assert b2.score <= CatScore(cats[i1]);
      }
      if b2.score < 99 {
        var i2 :| 0 <= i2 < |cats| && FirstBestAt(cats, b2, i2);
        assert b1.score <= CatScore(cats[i2]);
      }
      var i1 :| 0 <= i1 < |cats| && FirstBestAt(cats, b1, i1);
      var i2 :| 0 <= i2 < |cats| && FirstBestAt(cats, b2, i2);
      assert CatScore(cats[i1]) == b1.score == b2.score == CatScore(cats[i2]);
    }
  }

  /** The best quartile is "N/A" or one of Q1 to Q4, and it carries the best
      score. */
  lemma BestQuartileKnown(cats: seq<CategoryRanking>)
    ensures BestOf(cats).quartile in {"Q1", "Q2", "Q3", "Q4", "N/A"}
    ensures QuartileScore(BestOf(cats).quartile) == BestOf(cats).score <= 99
  {
    BestOfIsFirstMinimum(cats);
    var b := BestOf(cats);
    if b.score < 99 {
      var i :| 0 <= i < |cats| && FirstBestAt(cats, b, i);
    }
  }

  const PassLabel := "\U{2705} PASS"
  const PartialLabel := "\U{26A0}\U{FE0F} Q3/Q4"
  const NotIndexedLabel := "\U{274C} Not Indexed"

  /** The eligibility label: PASS for an indexed journal in the top two
      quartiles, "Not Indexed" without either index, "Q3/Q4" otherwise. */
  function Requirement(bestQ: string, indexed: bool): (status: string)
    ensures status == PassLabel <==> indexed && QuartileScore(bestQ) <= 2
    ensures status == NotIndexedLabel <==> !indexed
    ensures status == PartialLabel <==> indexed && QuartileScore(bestQ) > 2
  {
    if (bestQ == "Q1" || bestQ == "Q2") && indexed then PassLabel
    else if !indexed then NotIndexedLabel
    else PartialLabel
  }

  /** The names of the indexes a record is in. */
  function Indexes(scie: bool, ssci: bool): seq<string> {
    (if scie then ["SCIE"] else []) + (if ssci then ["SSCI"] else [])
  }

  /** The index summary: the names joined by " + ", or "None". */
  function IndexSummary(scie: bool, ssci: bool): string {
    var names := Indexes(scie, ssci);
    if names != [] then Join(" + ", names) else "None"
  }

  /** The four possible index summaries. */
  lemma IndexSummaryCases(scie: bool, ssci: bool)
    ensures IndexSummary(scie, ssci) ==
      if scie && ssci then "SCIE + SSCI" else if scie then "SCIE" else if ssci then "SSCI" else "None"
  {
    if scie && ssci {
      assert Indexes(scie, ssci) == ["SCIE", "SSCI"];
      assert Indexes(scie, ssci)[1..] == ["SSCI"];
      assert Join(" + ", ["SSCI"]) == "SSCI";
    }
  }

  /** A category name, as the loop appends it to `cats`. */
  function CategoryName(c: CategoryRanking): seq<string> {
    [c.category]
  }

  function CategoryNames(cats: seq<CategoryRanking>): seq<string> {
    FlatMap(CategoryName, cats)
  }

  /** A row of the report. */
  datatype ReportRow = ReportRow(
    title: string,
    issn: string,
    requirement: string,
    bestQuartile: string,
    indexes: string,
    rank: string,
    year: string,
    categories: string,
    crawlStatus: string)

  /** The specification of the per-record resolution. */
  function RowOf(rec: Record): ReportRow {
    var b := BestOf(rec.rankings);
    ReportRow(
      rec.journalName, rec.issn,
      Requirement(b.quartile, rec.scieCheck || rec.ssciCheck),
      b.quartile,
      IndexSummary(rec.scieCheck, rec.ssciCheck),
      b.rank, b.year,
      Join(" | ", CategoryNames(rec.rankings)),
      StatusLabel(rec.status))
  }

  /** The resolution loop for one record. */
  method ResolveRecord(rec: Record) returns (row: ReportRow)
    ensures row == RowOf(rec)
  {
    var indexes: seq<string> := [];
    if rec.scieCheck {
      indexes := indexes + ["SCIE"];
    }
    if rec.ssciCheck {
      indexes := indexes + ["SSCI"];
    }
    var indexStr := if indexes != [] then Join(" + ", indexes) else "None";
    var bestQ, bestScore, bestYear, bestRank := "N/A", 99, "N/A", "N/A";
    var cats: seq<string> := [];
    var rankings := rec.rankings;
    for i := 0 to |rankings|
      invariant cats == CategoryNames(rankings[..i])
      invariant Best(bestScore, bestQ, bestYear, bestRank) == BestOf(rankings[..i])
    {
      FlatMapSnoc(CategoryName, rankings, i);
      assert rankings[..i + 1][..i] == rankings[..i];
      var cat := rankings[i];
      cats := cats + [cat.category];
      var hist := cat.history;
      if hist == [] {
        continue;
      }
      var latest := hist[0];
      if Contains(latest.year, HeaderMarker) && |hist| > 1 {
        latest := hist[1];
      }
      var score := QuartileScore(latest.quartile);
      if score < bestScore {
        bestScore, bestQ, bestYear, bestRank := score, latest.quartile, latest.year, latest.rank;
      }
    }
    assert rankings[..|rankings|] == rankings;
    var requirement := Requirement(bestQ, rec.scieCheck || rec.ssciCheck);
    row := ReportRow(rec.journalName, rec.issn, requirement, bestQ, indexStr,
                     bestRank, bestYear, Join(" | ", cats), StatusLabel(rec.status));
  }

  /** PASS exactly when the record is indexed and some category's latest
      entry is Q1 or Q2; "Not Indexed" exactly when neither flag is set. */
  lemma Eligibility(rec: Record)
    ensures RowOf(rec).requirement == PassLabel <==>
      (rec.scieCheck || rec.ssciCheck)
      && exists i :: 0 <= i < |rec.rankings| && CatScore(rec.rankings[i]) <= 2
    ensures RowOf(rec).requirement == NotIndexedLabel <==> !rec.scieCheck && !rec.ssciCheck
    ensures RowOf(rec).requirement in {PassLabel, PartialLabel, NotIndexedLabel}
  {
    var cats := rec.rankings;
    BestOfIsFirstMinimum(cats);
    BestQuartileKnown(cats);
    var b := BestOf(cats);
    if b.score < 99 {
      var i :| 0 <= i < |cats| && FirstBestAt(cats, b, i);
      assert CatScore(cats[i]) == b.score;
    }
  }

  /** A record without rankings, or whose histories are all empty, has no
      best quartile and never passes. */
  lemma NoRankingsNeverPass(rec: Record)
    requires forall i :: 0 <= i < |rec.rankings| ==> rec.rankings[i].history == []
    ensures RowOf(rec).bestQuartile == "N/A" && RowOf(rec).rank == "N/A" && RowOf(rec).year == "N/A"
    ensures RowOf(rec).requirement == (if rec.scieCheck || rec.ssciCheck then PartialLabel else NotIndexedLabel)
  {
    BestOfIsFirstMinimum(rec.rankings);
  }

  /** Extracted histories hold no header row, so the header skip never
      fires on them: a category's latest entry is its first. */
  lemma LatestOfExtracted(c: Extraction.Container, k: nat)
    requires k < |Extraction.Extract(Some(c)).rankings|
    requires Extraction.Extract(Some(c)).rankings[k].history != []
    ensures var h := Extraction.Extract(Some(c)).rankings[k].history;
      Latest(h) == h[0]
  {
    var rk := Extraction.Extract(Some(c)).rankings[k];
    Extraction.RankingsMembers(c.slides, rk);
    var i :| 0 <= i < |c.slides| && c.slides[i].category.Some?
             && rk == CategoryRanking(c.slides[i].category.value, Extraction.History(c.slides[i].rows));
    Extraction.HistoryMembers(c.slides[i].rows, rk.history[0]);
  }

  /** The eligibility sort column: PASS 0, Q3/Q4 1, Not Indexed 2,
      anything else 3. */
  function SortScore(requirement: string): nat {
    if requirement == PassLabel then 0
    else if requirement == PartialLabel then 1
    else if requirement == NotIndexedLabel then 2
    else 3
  }

  /** The two sort columns as one number. */
  function Key(r: ReportRow): nat {
    100 * SortScore(r.requirement) + QuartileScore(r.bestQuartile)
  }

  /** Ordering by the key is ordering by eligibility and then by quartile
      score, as the two-column sort does. */
  lemma KeyIsLexicographic(a: ReportRow, b: ReportRow)
    ensures Key(a) <= Key(b) <==>
      SortScore(a.requirement) < SortScore(b.requirement)
      || (SortScore(a.requirement) == SortScore(b.requirement)
          && QuartileScore(a.bestQuartile) <= QuartileScore(b.bestQuartile))
  {
  }

  /** Every row the resolution produces has a listed eligibility label and a
      listed best quartile, so the fallback sort values are never used. */
  lemma FallbackUnreachable(rec: Record)
    ensures SortScore(RowOf(rec).requirement) <= 2
    ensures RowOf(rec).bestQuartile in {"Q1", "Q2", "Q3", "Q4", "N/A"}
  {
    BestQuartileKnown(rec.rankings);
  }

  /** The report order: `sort_values(by=['Sort_Score', 'Q_Score'])`, which
      is stable for several columns. */
  function SortRows(rows: seq<ReportRow>): seq<ReportRow> {
    Sorting.SortBy(Key, rows)
  }

  /** The rows one log line contributes: one for a parsed record, none for a
      blank or unparsable line. */
  function LineRows(line: Option<Record>): seq<ReportRow> {
    if line.Some? then [RowOf(line.value)] else []
  }

  function Rows(lines: seq<Option<Record>>): seq<ReportRow> {
    FlatMap(LineRows, lines)
  }

  /** How the analysis ends: no log file, a log with no record, or a report. */
  datatype Outcome = NoDataFiles | NoValidData | Report(rows: seq<ReportRow>)

  /** The specification of the analysis of the newest log, `None` when there
      is no log file. */
  function AnalysisOf(target: Option<seq<Option<Record>>>): Outcome {
    match target
    case None => NoDataFiles
    case Some(lines) =>
      var rows := Rows(lines);
      if rows == [] then NoValidData else Report(SortRows(rows))
  }

  /** `run_analysis`: the loop over the log lines, then the sort. */
  method RunAnalysis(target: Option<seq<Option<Record>>>) returns (outcome: Outcome)
    ensures outcome == AnalysisOf(target)
  {
    if target.None? {
      return NoDataFiles;
    }
    var lines := target.value;
    var rows: seq<ReportRow> := [];
    for i := 0 to |lines|
      invariant rows == Rows(lines[..i])
    {
      FlatMapSnoc(LineRows, lines, i);
      if lines[i].Some? {
        var row := ResolveRecord(lines[i].value);
        rows := rows + [row];
      }
    }
    assert lines[..|lines|] == lines;
    if rows == [] {
      return NoValidData;
    }
    outcome := Report(SortRows(rows));
  }

  /** A report holds exactly the rows of the parsed records, once each, in
      key order and stably; there is no report exactly when no line
      parsed. */
  lemma ReportOrder(lines: seq<Option<Record>>, k: nat)
    ensures AnalysisOf(Some(lines)).NoValidData? <==> forall i :: 0 <= i < |lines| ==> lines[i].None?
    ensures AnalysisOf(Some(lines)).Report? ==>
      var out := AnalysisOf(Some(lines)).rows;
      && Sorting.SortedBy(Key, out)
      && multiset(out) == multiset(Rows(lines))
      && Sorting.WithKey(Key, out, k) == Sorting.WithKey(Key, Rows(lines), k)
  {
    Sorting.SortSorted(Key, Rows(lines));
    Sorting.SortPermutation(Key, Rows(lines));
    Sorting.SortStable(Key, Rows(lines), k);
    if Rows(lines) == [] {
      forall i | 0 <= i < |lines|
        ensures lines[i].None?
      {
        if lines[i].Some? {
          FlatMapMember(LineRows, lines, RowOf(lines[i].value));
        }
      }
    } else {
      var y := Rows(lines)[0];
      FlatMapMember(LineRows, lines, y);
    }
  }
}
