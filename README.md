# JCR journal-ranking tool — a verified model of its core

The tool reads a list of journals (eISSN and title) and crawls the Journal
Citation Reports web interface for each one. Each Not Found, Timeout or
Success outcome goes into an append-only JSON-lines result log. It then
turns the newest log into a report saying whether each journal meets an
eligibility rule: indexed in SCIE or SSCI, and ranked Q1 or Q2 in at least
one category.

This project models the decision and data-reduction code of `jcr_tool.py` in
Dafny and proves what that code promises:

- **`extraction.dfy`** (`extract_jcr_details`) reads a snapshot of the rendered
  ranking container. It produces editions, the SCIE/SSCI flags and one ranking
  history per subject category. The extractor's three loops are methods proved
  equal to a specification function (`Extract`).
- **`ledger.dfy`** (`get_completed_issns` and the resume filter) collects the
  identifiers already in earlier logs and filters out the tasks already done.
  The scan is a nested loop proved equal to `Completed`. The filter is a pure
  function.
- **`spider.dfy`** (the `run_spider` loop) abstracts each browser wait as an
  observation. It classifies each task as Not Found, Timeout, Success,
  exception-and-continue or abort. The loop is a method proved equal to a
  recursive specification (`Run`).
- **`analysis.dfy`** (`run_analysis`) resolves each record's best quartile and
  its eligibility label, then orders the rows. The resolution loop is a method
  proved equal to `RowOf`. The best value is also proved equal to an
  independent, loop-free description (`IsBestOf`).
- **`sorting.dfy`**: the two-column `sort_values`, modelled as a stable sort by
  one numeric key.
- **`common.dfy`**: shared pieces:
  - Python's `str.strip()`, with the `str.isspace()` character set;
  - `sub in s` on strings;
  - `sep.join`;
  - the "append zero or more items per element" loop shape.
- **`scenarios.dfy`**: worked cases that follow one journal from the crawl to
  its report row.

The models take these abstractions:

- **Log lines.** Each line of a log is already decoded. In the ledger it is
  unparsable, an object without `issn`, or an object with an `issn` string. In
  the analyzer it is `None` (blank or not JSON) or a record.
- **Browser.** Every browser interaction is replaced by what it observed:
  - whether the page has a URL;
  - whether the search box, the result row and the detail marker appeared;
  - the detail page snapshot;
  - the first stage, if any, at which an exception escaped, with its message.
- **Exit.** `sys.exit(1)` is modelled as an `Abort` verdict and exit code 1.

## Model

| member | source | states |
|---|---|---|
| Common.StripLeftKeepsSuffix | jcr_tool.py:196 | what `lstrip` keeps is a suffix of the input; everything removed is white space and the kept part does not start with white space |
| Common.StripRightKeepsPrefix | jcr_tool.py:196 | what `rstrip` keeps is a prefix of the input; everything removed is white space and the kept part does not end with white space |
| Common.StripTrims | jcr_tool.py:254 | a stripped string has no white space at either end, and stripping twice equals stripping once |
| Common.ContainsAt | jcr_tool.py:199 | `sub in s` holds exactly when `sub` occurs at some position of `s` |
| Common.ContainsTransitive | jcr_tool.py:386 | a string containing `m` contains every substring of `m` |
| Extraction.ExtractDetails | jcr_tool.py:181-226 | the extractor returns exactly `Extract(page)`: empty editions and rankings and both flags false without a container; otherwise the editions, both flags and the rankings |
| Extraction.ReadEditions | jcr_tool.py:194-202 | the edition loop yields the non-empty stripped edition texts; each flag is raised exactly when some listed edition names its index |
| Extraction.ReadRankings | jcr_tool.py:204-224 | the slide loop yields one ranking per slide with a category element |
| Extraction.ReadHistory | jcr_tool.py:211-223 | the row loop yields the entries of the kept rows |
| Extraction.HistoryIsFilter | jcr_tool.py:213-223 | a history splits over concatenated row lists; one row yields its entry (missing rank or quartile as "N/A") exactly when it has a year cell without "JCR YEAR" |
| Extraction.HistoryMembers | jcr_tool.py:213-223 | an entry is in a history exactly when some kept row yields it; no entry's year contains "JCR YEAR" |
| Extraction.RankingsIsFilter | jcr_tool.py:204-224 | the rankings split over concatenated slide lists; a slide without a category element contributes nothing |
| Extraction.RankingsMembers | jcr_tool.py:204-224 | a ranking is listed exactly when some slide with a category element has that category and that history |
| Extraction.EditionsIsFilter | jcr_tool.py:194-198 | editions keep order, split over concatenation, and a text contributes its stripped form exactly when that is non-empty |
| Extraction.EditionsMembers | jcr_tool.py:194-198 | an edition is listed exactly when it is the non-empty stripped text of some edition element |
| Extraction.IndexFlags | jcr_tool.py:199-202 | `is_scie` holds exactly when some non-empty stripped edition text contains "Science Citation Index Expanded" or "SCIE"; likewise `is_ssci` with "Social Sciences Citation Index" or "SSCI" |
| Ledger.ScanCompleted | jcr_tool.py:240-259 | the nested scan over files and lines computes exactly `Completed(files)` |
| Ledger.FileIssnsMembers | jcr_tool.py:248-256 | one file adds exactly the stripped truthy `issn` values of its parsed lines |
| Ledger.CompletedMembers | jcr_tool.py:240-259 | the completed set is exactly the stripped truthy `issn` values of the parsed lines of all files; malformed lines add nothing |
| Ledger.CompletedAppend | jcr_tool.py:245-258 | scanning two groups of files gives the union of scanning each |
| Ledger.ScanIdempotent | jcr_tool.py:240-259 | scanning every log twice yields the same set as scanning once |
| Ledger.PendingIsFilter | jcr_tool.py:273 | the resume filter preserves order and splits over concatenated task lists |
| Ledger.PendingMembers | jcr_tool.py:273 | a task is pending exactly when it is a task whose raw `eISSN` is not in the completed set |
| Ledger.SkippedCount | jcr_tool.py:273-274 | `skipped_count` equals the number of tasks whose `eISSN` is completed, so it lies between 0 and the number of tasks |
| Ledger.NothingPending | jcr_tool.py:280-283 | nothing is pending exactly when every task's `eISSN` is completed |
| Ledger.RecordedTaskSkipped | jcr_tool.py:254 | a task logged under its `eISSN` is skipped on the next run when that `eISSN` is non-empty and carries no surrounding white space |
| Ledger.PaddedTaskNotSkipped | jcr_tool.py:254-273 | for every task list and every set of logs, a task whose `eISSN` carries surrounding white space stays pending, even when its record is in the log, because the filter compares the raw value against the stripped ledger |
| Spider.LastMarkerRedundant | jcr_tool.py:386 | the disconnect test equals its first three substring tests; "target window already closed" adds nothing |
| Spider.Step | jcr_tool.py:302-397 | an appended record always carries the task's eISSN and title; a step that appends a record and aborts did so because closing the detail tab raised a disconnect message |
| Spider.NormalPath | jcr_tool.py:342-380 | without exceptions, a task with a search box appends exactly one record and continues: "Not Found" without a result row, "Timeout" without the detail marker, otherwise "Success" with the extracted flags and rankings |
| Spider.MissingSearchBoxAborts | jcr_tool.py:316-327 | a missing search box aborts the run without a record |
| Spider.MissingUrlAborts | jcr_tool.py:309-310 | a page without a URL raises "Browser disconnected", which the handler classifies as a lost connection: abort, no record |
| Spider.ExceptionPath | jcr_tool.py:382-397 | an exception at a reached stage aborts exactly when its message contains "断开", "disconnected" or "closed", and continues otherwise; a record is appended only when the exception came from closing the detail tab |
| Spider.RunSpider | jcr_tool.py:302-397 | the crawl loop yields exactly the records, exit code and attempted count given by `Run` |
| Spider.RunEnds | jcr_tool.py:302-397 | the loop ends with 0 after all tasks, every step continuing, or with 1 right after the first aborting step; at most one record per attempted task |
| Spider.RunRecordsNameTasks | jcr_tool.py:345-378 | every logged record names the eISSN and title of an attempted task |
| Spider.Plan | jcr_tool.py:262-283 | the launch is `NoTasks` exactly when there are no tasks; all completed means no crawl, with every task skipped; otherwise the crawl gets exactly the order-preserving pending sublist `PendingTasks`, and `skipped + pending` equals the number of tasks |
| Spider.RunAll | jcr_tool.py:262-302 | with no tasks nothing is logged, the exit code is 0 and the analysis does not run; otherwise the analysis runs exactly when the exit code is 0; the exit code is 0 or 1; at most one record per started task and no more started tasks than pending ones; with exit code 0 every pending task was started; when the browser session does not start or the home-page load raises, no task is started and nothing is logged, and the exit code is 1 exactly when some task was pending |
| Spider.ResumeWithNothingLeft | jcr_tool.py:271-283 | when every task is in the ledger, nothing is navigated or logged, the browser's state does not matter, and the analysis still runs |
| Sorting.SortSorted | jcr_tool.py:498 | the sorted rows are in non-decreasing key order |
| Sorting.SortPermutation | jcr_tool.py:498 | the sorted rows are a permutation of the input rows |
| Sorting.SortStable | jcr_tool.py:498 | for every key, the rows with that key keep their input order |
| Analysis.QuartileScore | jcr_tool.py:423 | a score below 99 is 1 to 4 and names the quartile label it came from; every other text, "N/A" included, scores 99 |
| Analysis.QuartileRoundTrip | jcr_tool.py:423 | the score of the label "Qn" is n, for n from 1 to 4 |
| Analysis.BestOfIsFirstMinimum | jcr_tool.py:444-467 | the resolved best has a score no larger than any category's latest entry, capped at 99; below 99 it is the entry of the first category reaching that minimum; otherwise it is the initial "N/A" best |
| Analysis.BestIsUnique | jcr_tool.py:444-467 | at most one best fits that description, so it determines the loop's result |
| Analysis.BestQuartileKnown | jcr_tool.py:444-467 | the best quartile is Q1–Q4 or "N/A", and its score is the best score |
| Analysis.Requirement | jcr_tool.py:469-477 | PASS exactly when indexed with a quartile score of at most 2; "Not Indexed" exactly when not indexed; "Q3/Q4" exactly when indexed with a worse score |
| Analysis.IndexSummaryCases | jcr_tool.py:437-442 | the index summary is "SCIE + SSCI", "SCIE", "SSCI" or "None" according to the two flags |
| Analysis.ResolveRecord | jcr_tool.py:434-489 | the per-record resolution loop yields exactly the row `RowOf(rec)` |
| Analysis.Eligibility | jcr_tool.py:469-477 | PASS exactly when a flag is set and some category's latest entry is Q1 or Q2; "Not Indexed" exactly when neither flag is set; the label is always one of the three |
| Analysis.NoRankingsNeverPass | jcr_tool.py:444-477 | with no rankings or only empty histories: best quartile, rank and year are "N/A", and the label is "Q3/Q4" or "Not Indexed", never PASS |
| Analysis.LatestOfExtracted | jcr_tool.py:456-458 | on extracted histories the header skip never fires: a category's latest entry is its first |
| Analysis.KeyIsLexicographic | jcr_tool.py:494-498 | ordering by the single key equals ordering by eligibility column, then quartile column |
| Analysis.FallbackUnreachable | jcr_tool.py:494-496 | every produced row has a mapped eligibility label (sort value at most 2) and a best quartile that is a key of `quartile_map`, so neither fallback is used |
| Analysis.RunAnalysis | jcr_tool.py:411-498 | the analysis yields exactly `AnalysisOf(target)`: no data files, no valid data, or the sorted report |
| Analysis.ReportOrder | jcr_tool.py:491-498 | there is no report exactly when no line parsed; a report is in key order, is a permutation of the per-record rows, and keeps rows with equal keys in input order |
| Scenarios.IndexedQ1Passes | jcr_tool.py:469-477 | an SCIE journal ranked Q1 ("5/50", 2023) in one category passes with that quartile, rank and year |
| Scenarios.NoContainerNotIndexed | jcr_tool.py:185-192 | a detail page without a ranking container logs "Success" with no flags and no rankings; its row is "Not Indexed" |
| Scenarios.NotFoundIsCompleted | jcr_tool.py:342-347 | a search without a result row logs "Not Found"; the ledger then counts the journal as completed, so the next run skips it; its row is "Not Indexed" |
| Scenarios.LaterBetterCategoryWins | jcr_tool.py:463-467 | with categories ranked Q3 and then Q1, the Q1 entry becomes the best even though it comes second |
| Scenarios.HeaderRowSkipped | jcr_tool.py:456-458 | when the first entry's year is "JCR YEAR" and a second entry exists, the second entry is the latest |
| Scenarios.PaddedJournalRecrawled | jcr_tool.py:254-273 | for example, the task `"1234-5678 "` stays pending against a log line holding that same `issn` |

## Left out

- **`BrowserEngine`, the Chromium options and the session singleton.** These
  are a foreign library and process-global state. The model sees only what
  each wait observed.
- **`load_tasks`.** Excel reading and the column checks use a library. The
  tasks are an input sequence.
- **`save_raw_data`, JSON encoding and decoding, `glob`, and newest-file
  selection by ctime.** These are file I/O.
  - A saved record is an element appended to the run's log sequence.
  - A log line is given already decoded.
  - The analyzer takes the newest log's lines as input, or `None` when there
    is no log file.
- **JSON lines that parse to something other than an object.** In the source,
  the analyzer's `rec.get` crashes on such a line. The analyzer here sees
  only records the spider writes.
- **Cookie popup, autocomplete wait, keyboard actions, scrolling and sleeps.**
  These are best-effort UI and timing with no stated behaviour. The tab-closing
  loop at the start of a task is reduced to the `Navigate` stage, where an
  exception may escape.
- **Logging, `print`, `to_excel`, the report file name, and the module-level
  configuration and directories.** This is plumbing.
  - An exit is only an exit code. Whether the analysis then runs is a
    boolean.
  - The report is the ordered row sequence, without the Excel file.
- **`sys.exit(1)` after `page.quit()`.** The quit is best-effort and not
  modelled.
- **Dialogs.** Not modelled. A browser session that fails to start
  (jcr_tool.py:138) and a home-page load that raises (jcr_tool.py:293) are
  modelled only by their effect, as `RunAll`'s `browserReady` flag: the
  process ends with status 1 before any task.
- Spider.Step: an exception is modelled at the first stage that raises it,
  with its message. Whether a given DOM call can raise is a property of the
  browser library, so every reached stage is allowed to.
- Common.IsSpace: the white-space set is Python's `str.isspace()` as written
  out. Unicode tables beyond that set, and any normalisation, are not
  modelled.
- Analysis.SortRows: the pandas sort is modelled as a stable sort. Sorting on
  several columns goes through a lexicographic, stable indexer. No other
  pandas behaviour is modelled.
- **A record can be logged and the run still abort.** An exception from
  closing the detail tab (jcr_tool.py:380) comes after the record was saved
  (jcr_tool.py:366, 377-378). A connection lost at that point aborts the run
  with the task's record already logged, and `Spider.Step` models this.
- **Log files that fail while being read.** The outer `except Exception`
  (jcr_tool.py:246-258) passes over a file that cannot be opened and a file
  that fails to decode part-way. The model gives each file as the lines read
  before the failure. It does not model the opening or the decoding.
- **Whitespace around an `eISSN`.** The ledger strips identifiers
  (jcr_tool.py:254), but the resume filter compares the raw `eISSN`
  (jcr_tool.py:273). The model states the filter as written.
  `Ledger.RecordedTaskSkipped` and `Ledger.PaddedTaskNotSkipped` show both
  sides. No corrected filter is modelled.
