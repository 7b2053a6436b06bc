/** The scrape orchestrator: the per-task control flow of the crawl loop and
    the loop itself. Each browser interaction is replaced by what it
    observed: whether the page still has a URL, whether each awaited element
    appeared, the detail page snapshot, and the first stage, if any, at which
    an exception escaped. */
module Spider {
  import opened Common
  import opened Records
  import Extraction
  import Ledger

  /** The stages of one task, in the order the loop body runs them. */
  datatype Stage =
    | Navigate        // closing stray tabs and reloading the home page
    | FindSearchBox   // waiting for the search input
    | EnterQuery      // clearing the input, typing the eISSN, submitting
    | FindResultRow   // waiting for the first result row
    | OpenDetail      // clicking the title and waiting for the new tab
    | FindMarker      // waiting for the "Rank by Journal Impact Factor" text
    | ExtractDetails  // reading the ranking container
    | CloseDetail     // closing the detail tab

  /** An exception with message `message` escaping at `stage`. */
  datatype Fault = Fault(stage: Stage, message: string)

  /** What the browser showed while one task was processed. A `fault` has an
      effect only at a stage the task reaches (`Reaches`); one named at a
      later stage is never raised, and `Step` ignores it. */
  datatype Observation = Observation(
    urlPresent: bool,
    searchBoxFound: bool,
    resultRowFound: bool,
    markerFound: bool,
    detailPage: Option<Extraction.Container>,
    fault: Option<Fault>)

  datatype Verdict = Continue | Abort

  /** The effect of one task: the record appended to the log, if any, and
      whether the loop goes on or the process exits with status 1. */
  datatype StepResult = StepResult(appended: Option<Record>, verdict: Verdict)

  predicate RaisesAt(o: Observation, s: Stage) {
    o.fault.Some? && o.fault.value.stage == s
  }

  /** The message texts that mark a lost browser connection ("断开" is
      "disconnected"). */
  predicate IsDisconnect(msg: string) {
    || Contains(msg, "\U{65AD}\U{5F00}")
    || Contains(msg, "disconnected")
    || Contains(msg, "closed")
    || Contains(msg, "target window already closed")
  }

  /** The fourth marker adds nothing: a message containing it contains
      "closed". */
  lemma LastMarkerRedundant(msg: string)
    ensures IsDisconnect(msg) <==>
      Contains(msg, "\U{65AD}\U{5F00}") || Contains(msg, "disconnected") || Contains(msg, "closed")
  {
    if Contains(msg, "target window already closed") {
      var m := "target window already closed";
      assert m[22..22 + |"closed"|] == "closed";
      assert OccursAt(m, "closed", 22);
      ContainsAt(m, "closed");
      ContainsTransitive(msg, m, "closed");
    }
  }

  /** The `except Exception` branch: no further record, and the run aborts
      exactly when the message marks a lost connection. */
  function Handle(msg: string, appended: Option<Record>): StepResult {
    StepResult(appended, if IsDisconnect(msg) then Abort else Continue)
  }

  function NotFoundRecord(t: Task): Record {
    Record(t.eissn, t.title, NotFound, false, false, [])
  }

  function TimeoutRecord(t: Task): Record {
    Record(t.eissn, t.title, Timeout, false, false, [])
  }

  function SuccessRecord(t: Task, d: Extraction.Details): Record {
    Record(t.eissn, t.title, Success, d.isScie, d.isSsci, d.rankings)
  }

  /** One pass of the loop body for task `t`. */
  function Step(t: Task, o: Observation): (r: StepResult)
    ensures r.appended.Some? ==> r.appended.value.issn == t.eissn && r.appended.value.journalName == t.title
    ensures r.appended.Some? && r.verdict == Abort ==> RaisesAt(o, CloseDetail) && IsDisconnect(o.fault.value.message)
  {
    if !o.urlPresent then StepResult(None, Abort)  // raises "Browser disconnected"; see MissingUrlAborts
    else if RaisesAt(o, Navigate) || RaisesAt(o, FindSearchBox) then Handle(o.fault.value.message, None)
    else if !o.searchBoxFound then StepResult(None, Abort)
    else if RaisesAt(o, EnterQuery) || RaisesAt(o, FindResultRow) then Handle(o.fault.value.message, None)
    else if !o.resultRowFound then StepResult(Some(NotFoundRecord(t)), Continue)
    else if RaisesAt(o, OpenDetail) || RaisesAt(o, FindMarker) then Handle(o.fault.value.message, None)
    else if o.markerFound && RaisesAt(o, ExtractDetails) then Handle(o.fault.value.message, None)
    else
      var rec := if o.markerFound then SuccessRecord(t, Extraction.Extract(o.detailPage)) else TimeoutRecord(t);
      if RaisesAt(o, CloseDetail) then Handle(o.fault.value.message, Some(rec))
      else StepResult(Some(rec), Continue)
  }

  /** The loop body reaches stage `s` under observation `o` (an exception
      there is raised only then). */
  predicate Reaches(o: Observation, s: Stage) {
    match s
    case Navigate => o.urlPresent
    case FindSearchBox => o.urlPresent
    case EnterQuery => o.urlPresent && o.searchBoxFound
    case FindResultRow => o.urlPresent && o.searchBoxFound
    case OpenDetail => o.urlPresent && o.searchBoxFound && o.resultRowFound
    case FindMarker => o.urlPresent && o.searchBoxFound && o.resultRowFound
    case ExtractDetails => o.urlPresent && o.searchBoxFound && o.resultRowFound && o.markerFound
    case CloseDetail => o.urlPresent && o.searchBoxFound && o.resultRowFound
  }

  /** On the normal path each task appends exactly one record and the loop
      continues: "Not Found" without a result row, "Timeout" without the
      detail marker, "Success" with the extracted flags and rankings
      otherwise. */
  lemma NormalPath(t: Task, o: Observation)
    requires o.urlPresent && o.searchBoxFound && o.fault.None?
    ensures Step(t, o).verdict == Continue && Step(t, o).appended.Some?
    ensures var rec := Step(t, o).appended.value;
      && rec.issn == t.eissn && rec.journalName == t.title
      && rec.status == (if !o.resultRowFound then NotFound else if !o.markerFound then Timeout else Success)
      && (rec.status == Success ==>
            var d := Extraction.Extract(o.detailPage);
            rec.scieCheck == d.isScie && rec.ssciCheck == d.isSsci && rec.rankings == d.rankings)
      && (rec.status != Success ==> !rec.scieCheck && !rec.ssciCheck && rec.rankings == [])
  {
  }

  /** A missing search box aborts the run without a record. */
  lemma MissingSearchBoxAborts(t: Task, o: Observation)
    requires o.urlPresent && !o.searchBoxFound
    requires !RaisesAt(o, Navigate) && !RaisesAt(o, FindSearchBox)
    ensures Step(t, o) == StepResult(None, Abort)
  {
  }

  /** A page without a URL raises "Browser disconnected", which the handler
      reads as a lost connection: the run aborts without a record. */
  lemma MissingUrlAborts(t: Task, o: Observation)
    requires !o.urlPresent
    ensures Step(t, o) == Handle("Browser disconnected", None) == StepResult(None, Abort)
  {
    assert Contains("Browser disconnected", "disconnected") by {
      assert OccursAt("Browser disconnected", "disconnected", 8);
      ContainsAt("Browser disconnected", "disconnected");
    }
  }

  /** An exception raised at a reached stage aborts the run exactly when its
      message marks a lost connection; only an exception while closing the
      detail tab comes after the task's record was appended. */
  lemma ExceptionPath(t: Task, o: Observation, s: Stage, msg: string)
    requires o.fault == Some(Fault(s, msg)) && Reaches(o, s)
    ensures Step(t, o).verdict == (if IsDisconnect(msg) then Abort else Continue)
    ensures Step(t, o).appended.Some? <==> s == CloseDetail
  {
  }

  /** The result of the crawl loop: the records appended, how it ended, and
      how many tasks it started (each one reaches the URL check). */
  datatype RunResult = RunResult(log: seq<Record>, exitCode: nat, attempted: nat)

  function Appended(r: StepResult): seq<Record> {
    if r.appended.Some? then [r.appended.value] else []
  }

  /** The specification of the crawl loop over the pending tasks, `obs[i]`
      being what task `todo[i]` observes. */
  function Run(todo: seq<Task>, obs: seq<Observation>): RunResult
    requires |obs| == |todo|
    decreases |todo|
  {
    if todo == [] then RunResult([], 0, 0)
    else
      var r := Step(todo[0], obs[0]);
      if r.verdict == Abort then RunResult(Appended(r), 1, 1)
      else
        var rest := Run(todo[1..], obs[1..]);
        RunResult(Appended(r) + rest.log, rest.exitCode, 1 + rest.attempted)
  }

  /** One more task of the loop, seen from task `i` on. */
  lemma RunFrom(todo: seq<Task>, obs: seq<Observation>, i: nat)
    requires |obs| == |todo| && i < |todo|
    ensures var r := Step(todo[i], obs[i]);
      Run(todo[i..], obs[i..]) ==
        if r.verdict == Abort then RunResult(Appended(r), 1, 1)
        else var rest := Run(todo[i + 1..], obs[i + 1..]);
          RunResult(Appended(r) + rest.log, rest.exitCode, 1 + rest.attempted)
  {
    assert todo[i..][0] == todo[i] && obs[i..][0] == obs[i];
    assert todo[i..][1..] == todo[i + 1..] && obs[i..][1..] == obs[i + 1..];
  }

  /** The crawl loop: `for idx, task in enumerate(tasks_to_do)`, appending
      records and leaving with status 1 on an abort. */
  method RunSpider(todo: seq<Task>, obs: seq<Observation>) returns (log: seq<Record>, exitCode: nat, attempted: nat)
    requires |obs| == |todo|
    ensures RunResult(log, exitCode, attempted) == Run(todo, obs)
  {
    log, exitCode, attempted := [], 0, 0;
    var i := 0;
    assert todo[0..] == todo && obs[0..] == obs;
    while i < |todo|
      invariant 0 <= i <= |todo| && attempted == i
      invariant var rest := Run(todo[i..], obs[i..]);
        Run(todo, obs) == RunResult(log + rest.log, rest.exitCode, i + rest.attempted)
    {
      RunFrom(todo, obs, i);
      var r := Step(todo[i], obs[i]);
      log := log + Appended(r);
      attempted := attempted + 1;
      if r.verdict == Abort {
        exitCode := 1;
        return;
      }
      i := i + 1;
    }
  }

  /** Every step before the last attempted one continued. */
  predicate ContinuedBefore(todo: seq<Task>, obs: seq<Observation>, n: nat)
    requires |obs| == |todo| && n <= |todo|
  {
    forall j :: 0 <= j < n ==> Step(todo[j], obs[j]).verdict == Continue
  }

  /** The loop stops early only on an abort: with status 0 every task was
      attempted and every step continued; with status 1 the last attempted
      task aborted and all before it continued. At most one record is
      appended per attempted task. */
  lemma {:induction false} RunEnds(todo: seq<Task>, obs: seq<Observation>)
    requires |obs| == |todo|
    ensures var r := Run(todo, obs);
      && r.attempted <= |todo| && |r.log| <= r.attempted
      && (r.exitCode == 0 || r.exitCode == 1)
      && (r.exitCode == 0 ==> r.attempted == |todo| && ContinuedBefore(todo, obs, |todo|))
      && (r.exitCode == 1 ==> 1 <= r.attempted && ContinuedBefore(todo, obs, r.attempted - 1)
                              && Step(todo[r.attempted - 1], obs[r.attempted - 1]).verdict == Abort)
    decreases |todo|
  {
    if todo != [] {
      var s := Step(todo[0], obs[0]);
      if s.verdict == Continue {
        RunEnds(todo[1..], obs[1..]);
        var rest := Run(todo[1..], obs[1..]);
        forall j | 1 <= j < 1 + (if rest.exitCode == 0 then |todo| - 1 else rest.attempted - 1)
          ensures Step(todo[j], obs[j]).verdict == Continue
        {
          assert todo[j] == todo[1..][j - 1] && obs[j] == obs[1..][j - 1];
        }
        if rest.exitCode == 1 {
          assert todo[rest.attempted] == todo[1..][rest.attempted - 1];
          assert obs[rest.attempted] == obs[1..][rest.attempted - 1];
        }
      }
    }
  }

  /** Every logged record names one of the attempted tasks. */
  lemma {:induction false} RunRecordsNameTasks(todo: seq<Task>, obs: seq<Observation>, k: nat)
    requires |obs| == |todo| && k < |Run(todo, obs).log|
    ensures exists j :: 0 <= j < |todo| && j < Run(todo, obs).attempted
                        && Run(todo, obs).log[k].issn == todo[j].eissn
                        && Run(todo, obs).log[k].journalName == todo[j].title
    decreases |todo|
  {
    RunEnds(todo, obs);
    var s := Step(todo[0], obs[0]);
    var a := Appended(s);
    if k < |a| {
      assert Run(todo, obs).log[k] == s.appended.value;
      assert 0 < Run(todo, obs).attempted;
    } else {
      RunEnds(todo[1..], obs[1..]);
      RunRecordsNameTasks(todo[1..], obs[1..], k - |a|);
      var j :| 0 <= j < |todo[1..]| && j < Run(todo[1..], obs[1..]).attempted
               && Run(todo[1..], obs[1..]).log[k - |a|].issn == todo[1..][j].eissn
               && Run(todo[1..], obs[1..]).log[k - |a|].journalName == todo[1..][j].title;
      assert Run(todo, obs).log[k] == Run(todo[1..], obs[1..]).log[k - |a|];
      assert todo[1..][j] == todo[j + 1];
    }
  }

  /** How `run_spider` starts: with no tasks it exits with status 0 before
      the analysis; when every task is already completed it returns at once
      and the analysis follows; otherwise it crawls the pending tasks. */
  datatype Launch = NoTasks | AllCompleted(skipped: nat) | Crawl(todo: seq<Task>, skipped: nat)

  function Plan(allTasks: seq<Task>, completed: set<string>): (p: Launch)
    ensures p.NoTasks? <==> allTasks == []
    ensures p.AllCompleted? ==> p.skipped == |allTasks| && forall i :: 0 <= i < |allTasks| ==> allTasks[i].eissn in completed
    ensures p.Crawl? ==> p.todo != [] && |p.todo| + p.skipped == |allTasks|
                         && forall t :: t in p.todo <==> t in allTasks && t.eissn !in completed
    ensures p.Crawl? ==> p.todo == Ledger.PendingTasks(allTasks, completed)
  {
    if allTasks == [] then NoTasks
    else
      var todo := Ledger.PendingTasks(allTasks, completed);
      Ledger.SkippedCount(allTasks, completed);
      Ledger.NothingPending(allTasks, completed);
      forall t ensures t in todo <==> t in allTasks && t.eissn !in completed {
        Ledger.PendingMembers(allTasks, completed, t);
      }
      if todo == [] then AllCompleted(|allTasks|)
      else Crawl(todo, |allTasks| - |todo|)
  }

  /** How the whole spider phase ends. */
  datatype SpiderResult = SpiderResult(log: seq<Record>, exitCode: nat, runsAnalysis: bool, attempted: nat)

  /** `run_spider` from the task list and the ledger of earlier logs to the
      records it appends, its exit status, whether the analysis runs after
      it, and how many tasks it started. `browserReady` says whether the
      browser session started and the home page loaded, the two steps
      between the resume check and the first task that can end the process
      with status 1; `obs` holds one observation per pending task. */
  function RunAll(allTasks: seq<Task>, files: seq<seq<Ledger.LedgerLine>>, browserReady: bool, obs: seq<Observation>): (r: SpiderResult)
    requires |obs| == |Ledger.PendingTasks(allTasks, Ledger.Completed(files))|
    ensures allTasks == [] ==> r == SpiderResult([], 0, false, 0)
    ensures allTasks != [] ==> (r.runsAnalysis <==> r.exitCode == 0)
    ensures r.exitCode == 0 || r.exitCode == 1
    ensures |r.log| <= r.attempted <= |obs|
    ensures allTasks != [] && r.exitCode == 0 ==> r.attempted == |obs|
    ensures !browserReady ==> r.log == [] && r.attempted == 0 && (r.exitCode == 0 <==> obs == [])
  {
    match Plan(allTasks, Ledger.Completed(files))
    case NoTasks => SpiderResult([], 0, false, 0)
    case AllCompleted(_) => SpiderResult([], 0, true, 0)
    case Crawl(todo, _) =>
      if !browserReady then SpiderResult([], 1, false, 0)
      else
        RunEnds(todo, obs);
        var r := Run(todo, obs);
        SpiderResult(r.log, r.exitCode, r.exitCode == 0, r.attempted)
  }

  /** When every task is already in the ledger nothing is navigated and
      nothing is logged, the browser is never started, and the analysis
      still runs. */
  lemma ResumeWithNothingLeft(allTasks: seq<Task>, files: seq<seq<Ledger.LedgerLine>>, browserReady: bool)
    requires allTasks != []
    requires forall i :: 0 <= i < |allTasks| ==> allTasks[i].eissn in Ledger.Completed(files)
    ensures |Ledger.PendingTasks(allTasks, Ledger.Completed(files))| == 0
    ensures RunAll(allTasks, files, browserReady, []) == SpiderResult([], 0, true, 0)
  {
    Ledger.NothingPending(allTasks, Ledger.Completed(files));
  }
}
