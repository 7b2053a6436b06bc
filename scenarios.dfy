/** Worked cases that follow one journal from the crawl through the ledger
    to its report row. */
module Scenarios {
  import opened Common
  import opened Records
  import Extraction
  import Ledger
  import Spider
  import Analysis

  const J1 := Task("1234-5678", "J1")

  /** A successful crawl of an SCIE journal ranked Q1 in one category
      passes, with that entry's rank and year. */
  lemma IndexedQ1Passes()
    ensures var d := Extraction.Details([CategoryRanking("CS", [YearEntry("2023", "5/50", "Q1")])], ["SCIE"], true, false);
      var row := Analysis.RowOf(Spider.SuccessRecord(J1, d));
      && row.requirement == Analysis.PassLabel && row.bestQuartile == "Q1"
      && row.rank == "5/50" && row.year == "2023" && row.indexes == "SCIE"
  {
    var cats := [CategoryRanking("CS", [YearEntry("2023", "5/50", "Q1")])];
    assert !Contains("2023", HeaderMarker) by {
      ContainsAt("2023", HeaderMarker);
    }
    assert cats[..0] == [];
    Analysis.IndexSummaryCases(true, false);
  }

  /** A detail page without a ranking container still yields a "Success"
      record, with no flags and no rankings; its row is "Not Indexed". */
  lemma NoContainerNotIndexed(o: Spider.Observation)
    requires o.urlPresent && o.searchBoxFound && o.resultRowFound && o.markerFound
    requires o.detailPage.None? && o.fault.None?
    ensures var r := Spider.Step(J1, o);
      && r == Spider.StepResult(Some(Record("1234-5678", "J1", Success, false, false, [])), Spider.Continue)
      && Analysis.RowOf(r.appended.value).requirement == Analysis.NotIndexedLabel
  {
    Spider.NormalPath(J1, o);
    Analysis.Eligibility(Spider.Step(J1, o).appended.value);
  }

  /** A search without a result row logs "Not Found"; the ledger then counts
      the journal as completed, so the next run skips it, and its row is
      "Not Indexed". */
  lemma NotFoundIsCompleted(o: Spider.Observation)
    requires o.urlPresent && o.searchBoxFound && !o.resultRowFound && o.fault.None?
    ensures var r := Spider.Step(J1, o);
      && r.appended == Some(Spider.NotFoundRecord(J1)) && r.verdict == Spider.Continue
      && "1234-5678" in Ledger.Completed([[Ledger.LineOf(r.appended.value)]])
      && Ledger.PendingTasks([J1], Ledger.Completed([[Ledger.LineOf(r.appended.value)]])) == []
      && Analysis.RowOf(r.appended.value).requirement == Analysis.NotIndexedLabel
  {
    var rec := Spider.NotFoundRecord(J1);
    Spider.NormalPath(J1, o);
    assert Strip("1234-5678") == "1234-5678" by {
      assert StripLeft("1234-5678") == "1234-5678";
      assert StripRight("1234-5678") == "1234-5678";
    }
    var files := [[Ledger.LineOf(rec)]];
    assert Ledger.RecordsIssn(files, 0, 0, "1234-5678");
    Ledger.CompletedMembers(files, "1234-5678");
    Ledger.NothingPending([J1], Ledger.Completed(files));
    Analysis.Eligibility(rec);
  }

  /** With categories ranked Q3 and then Q1, the Q1 entry is the best
      although it comes second. */
  lemma LaterBetterCategoryWins()
    ensures var e3 := YearEntry("2023", "40/50", "Q3");
      var e1 := YearEntry("2023", "2/80", "Q1");
      Analysis.BestOf([CategoryRanking("A", [e3]), CategoryRanking("B", [e1])])
        == Analysis.Best(1, "Q1", "2023", "2/80")
  {
    var e3 := YearEntry("2023", "40/50", "Q3");
    var e1 := YearEntry("2023", "2/80", "Q1");
    var cats := [CategoryRanking("A", [e3]), CategoryRanking("B", [e1])];
    assert !Contains("2023", HeaderMarker) by {
      ContainsAt("2023", HeaderMarker);
    }
    assert cats[..1][..0] == [] && cats[..1] == [cats[0]];
    assert Analysis.Latest([e3]) == e3 && Analysis.Latest([e1]) == e1;
    assert Analysis.BestOf(cats[..1]) == Analysis.Best(3, "Q3", "2023", "40/50");
  }

  /** A leftover header row first in a history with a second entry is
      skipped. */
  lemma HeaderRowSkipped(e: YearEntry, rest: seq<YearEntry>, rank: string, quartile: string)
    ensures Analysis.Latest([YearEntry(HeaderMarker, rank, quartile), e] + rest) == e
  {
    assert IsPrefix(HeaderMarker, HeaderMarker);
  }

  /** A journal listed with a trailing space is crawled again although its
      record is in the log. */
  lemma PaddedJournalRecrawled()
    ensures var t := Task("1234-5678 ", "J1");
            Ledger.PendingTasks([t], Ledger.Completed([[Ledger.Issn("1234-5678 ")]])) == [t]
  {
    var t := Task("1234-5678 ", "J1");
    assert Strip("1234-5678 ") == "1234-5678" by {
      assert StripLeft("1234-5678 ") == "1234-5678 ";
      assert StripRight("1234-5678 ") == StripRight("1234-5678");
    }
    assert Ledger.Completed([[Ledger.Issn("1234-5678 ")]]) == {"1234-5678"} by {
      assert [[Ledger.Issn("1234-5678 ")]][..0] == [];
      assert [Ledger.Issn("1234-5678 ")][..0] == [];
    }
    assert [t][..0] == [];
  }
}
