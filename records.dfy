/** The data the scraper produces and the analyzer consumes: work items, the
    ranking history of one subject category, and the record appended to the
    result log for each processed journal (one JSON object per line). */
module Records {

  /** The text marking the header row of a ranking table. */
  const HeaderMarker := "JCR YEAR"

  /** One row of a ranking table: `{"year", "rank", "quartile"}`. */
  datatype YearEntry = YearEntry(year: string, rank: string, quartile: string)

  /** `{"category", "history"}`: the rows of one subject category, newest
      first as the page renders them. */
  datatype CategoryRanking = CategoryRanking(category: string, history: seq<YearEntry>)

  /** A work item from the input spreadsheet: its `eISSN` and `Journal Title`. */
  datatype Task = Task(eissn: string, title: string)

  datatype CrawlStatus = Success | NotFound | Timeout

  /** The `status` string written into the log. */
  function StatusLabel(s: CrawlStatus): string {
    match s
    case Success => "Success"
    case NotFound => "Not Found"
    case Timeout => "Timeout"
  }

  /** A logged record: `issn`, `journal_name`, `status`, and for a successful
      crawl `scie_check`, `ssci_check` and `rankings`. A "Not Found" or
      "Timeout" line has none of the last three keys; the analyzer reads them
      with the defaults False, False and [], which is what such a record
      holds here. */
  datatype Record = Record(
    issn: string,
    journalName: string,
    status: CrawlStatus,
    scieCheck: bool,
    ssciCheck: bool,
    rankings: seq<CategoryRanking>)
}
