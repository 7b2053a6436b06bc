/** The completion ledger and the resume filter: the identifiers already
    recorded in earlier result logs, and the tasks that remain to be crawled.
    A log file is the sequence of its lines as the reader delivers them; each
    line is already decoded. */
module Ledger {
  import opened Common
  import opened Records

  /** A line of a result log: blank or not a JSON object (`Unparsable`), an
      object whose `issn` is missing or null (`NoIssn`), or an object whose
      `issn` is the string `value`. */
  datatype LedgerLine = Unparsable | NoIssn | Issn(value: string)

  /** The line has a truthy `issn` (a non-empty string) that strips to `x`. */
  predicate LineRecords(line: LedgerLine, x: string) {
    line.Issn? && line.value != "" && Strip(line.value) == x
  }

  /** The identifier one line adds: its stripped `issn`, when the `issn` is
      truthy. */
  function LineIssns(line: LedgerLine): set<string> {
    if line.Issn? && line.value != "" then {Strip(line.value)} else {}
  }

  lemma LineIssnsMembers(line: LedgerLine, x: string)
    ensures x in LineIssns(line) <==> LineRecords(line, x)
  {
  }

  /** The identifiers the lines of one file add. */
  function FileIssns(lines: seq<LedgerLine>): set<string>
    decreases |lines|
  {
    if lines == [] then {} else FileIssns(lines[..|lines| - 1]) + LineIssns(lines[|lines| - 1])
  }

  /** The identifiers all files add: the specification of the scan. */
  function Completed(files: seq<seq<LedgerLine>>): set<string>
    decreases |files|
  {
    if files == [] then {} else Completed(files[..|files| - 1]) + FileIssns(files[|files| - 1])
  }

  /** Line `l` of file `f` is a recorded identifier that strips to `x`. */
  predicate RecordsIssn(files: seq<seq<LedgerLine>>, f: int, l: int, x: string) {
    0 <= f < |files| && 0 <= l < |files[f]| && LineRecords(files[f][l], x)
  }

  /** The scan over every log file and every line, adding to the set of
      completed identifiers; unparsable lines are passed over. */
  method ScanCompleted(files: seq<seq<LedgerLine>>) returns (completed: set<string>)
    ensures completed == Completed(files)
  {
    completed := {};
    for f := 0 to |files|
      invariant completed == Completed(files[..f])
    {
      var lines := files[f];
      for l := 0 to |lines|
        invariant completed == Completed(files[..f]) + FileIssns(lines[..l])
      {
        assert lines[..l + 1][..l] == lines[..l];
        match lines[l]
        case Issn(v) =>
          if v != "" {
            completed := completed + {Strip(v)};
          }
        case _ =>
      }
      assert lines[..|lines|] == lines;
      assert files[..f + 1][..f] == files[..f];
    }
    assert files[..|files|] == files;
  }

  lemma {:induction false} FileIssnsMembers(lines: seq<LedgerLine>, x: string)
    ensures x in FileIssns(lines) <==> exists l :: 0 <= l < |lines| && LineRecords(lines[l], x)
    decreases |lines|
  {
    if lines != [] {
      var init := lines[..|lines| - 1];
      FileIssnsMembers(init, x);
      LineIssnsMembers(lines[|lines| - 1], x);
      if exists l :: 0 <= l < |init| && LineRecords(init[l], x) {
        var l :| 0 <= l < |init| && LineRecords(init[l], x);
        assert lines[l] == init[l];
      }
      if exists l :: 0 <= l < |lines| && LineRecords(lines[l], x) {
        var l :| 0 <= l < |lines| && LineRecords(lines[l], x);
        if l < |init| {
          assert init[l] == lines[l];
        }
      }
    }
  }

  /** The completed set is exactly the stripped, truthy `issn` values of the
      parseable lines of all files; nothing else gets in. */
  lemma {:induction false} CompletedMembers(files: seq<seq<LedgerLine>>, x: string)
    ensures x in Completed(files) <==> exists f, l :: RecordsIssn(files, f, l, x)
    decreases |files|
  {
    if files != [] {
      var init := files[..|files| - 1];
      var last := files[|files| - 1];
      CompletedMembers(init, x);
      FileIssnsMembers(last, x);
      if exists f, l :: RecordsIssn(init, f, l, x) {
        var f, l :| RecordsIssn(init, f, l, x);
        assert RecordsIssn(files, f, l, x);
      }
      if x in FileIssns(last) {
        var l :| 0 <= l < |last| && LineRecords(last[l], x);
        assert RecordsIssn(files, |files| - 1, l, x);
      }
      if exists f, l :: RecordsIssn(files, f, l, x) {
        var f, l :| RecordsIssn(files, f, l, x);
        if f < |init| {
          assert RecordsIssn(init, f, l, x);
        } else {
          assert files[f] == last;
        }
      }
    }
  }

  /** Scanning several log sets at once is the union of scanning each. */
  lemma {:induction false} CompletedAppend(a: seq<seq<LedgerLine>>, b: seq<seq<LedgerLine>>)
    ensures Completed(a + b) == Completed(a) + Completed(b)
    decreases |b|
  {
    if b == [] {
      assert a + b == a;
    } else {
      var b' := b[..|b| - 1];
      assert (a + b)[..|a + b| - 1] == a + b';
      assert (a + b)[|a + b| - 1] == b[|b| - 1];
      CompletedAppend(a, b');
    }
  }

  /** The scan is idempotent: reading every log a second time adds nothing. */
  lemma ScanIdempotent(files: seq<seq<LedgerLine>>)
    ensures Completed(files + files) == Completed(files)
  {
    CompletedAppend(files, files);
  }

  /** The resume filter, `[t for t in all_tasks if t['eISSN'] not in
      completed_issns]`; note that it compares the task's `eISSN` as it is,
      while the ledger holds stripped identifiers. */
  function PendingTasks(tasks: seq<Task>, completed: set<string>): seq<Task>
    decreases |tasks|
  {
    if tasks == [] then []
    else PendingTasks(tasks[..|tasks| - 1], completed)
         + (if tasks[|tasks| - 1].eissn !in completed then [tasks[|tasks| - 1]] else [])
  }

  /** The number of tasks whose `eISSN` is already completed. */
  function CountCompleted(tasks: seq<Task>, completed: set<string>): nat
    decreases |tasks|
  {
    if tasks == [] then 0
    else CountCompleted(tasks[..|tasks| - 1], completed)
         + (if tasks[|tasks| - 1].eissn in completed then 1 else 0)
  }

  /** The filter keeps order and splits over concatenated task lists, and one
      task is kept exactly when its `eISSN` is not completed. */
  lemma {:induction false} PendingIsFilter(a: seq<Task>, b: seq<Task>, completed: set<string>)
    ensures PendingTasks(a + b, completed) == PendingTasks(a, completed) + PendingTasks(b, completed)
    decreases |b|
  {
    if b == [] {
      assert a + b == a;
    } else {
      var b' := b[..|b| - 1];
      assert (a + b)[..|a + b| - 1] == a + b';
      assert (a + b)[|a + b| - 1] == b[|b| - 1];
      PendingIsFilter(a, b', completed);
    }
  }

  /** A task is pending exactly when it is one of the tasks and its `eISSN`
      is not completed. */
  lemma {:induction false} PendingMembers(tasks: seq<Task>, completed: set<string>, t: Task)
    ensures t in PendingTasks(tasks, completed) <==> t in tasks && t.eissn !in completed
    decreases |tasks|
  {
    if tasks != [] {
      var init := tasks[..|tasks| - 1];
      PendingMembers(init, completed, t);
      assert tasks == init + [tasks[|tasks| - 1]];
    }
  }

  /** `skipped_count = len(all_tasks) - len(tasks_to_do)` is never negative:
      it is the number of tasks whose `eISSN` is completed. */
  lemma {:induction false} SkippedCount(tasks: seq<Task>, completed: set<string>)
    ensures |tasks| - |PendingTasks(tasks, completed)| == CountCompleted(tasks, completed)
    ensures CountCompleted(tasks, completed) <= |tasks|
    decreases |tasks|
  {
    if tasks != [] {
      SkippedCount(tasks[..|tasks| - 1], completed);
    }
  }

  /** Nothing is pending exactly when every task is already completed. */
  lemma {:induction false} NothingPending(tasks: seq<Task>, completed: set<string>)
    ensures PendingTasks(tasks, completed) == [] <==> forall i :: 0 <= i < |tasks| ==> tasks[i].eissn in completed
    decreases |tasks|
  {
    if tasks != [] {
      var init := tasks[..|tasks| - 1];
      NothingPending(init, completed);
      assert forall i :: 0 <= i < |init| ==> init[i] == tasks[i];
    }
  }

  /** The line the ledger reads back from a logged record. */
  function LineOf(r: Record): LedgerLine {
    Issn(r.issn)
  }

  /** A task recorded in a log is skipped on the next run when its `eISSN`
      is non-empty and carries no surrounding white space. */
  lemma RecordedTaskSkipped(tasks: seq<Task>, files: seq<seq<LedgerLine>>, log: seq<Record>, k: nat, t: Task)
    requires k < |log| && log[k].issn == t.eissn
    requires t.eissn != "" && Strip(t.eissn) == t.eissn
    ensures t !in PendingTasks(tasks, Completed(files + [seq(|log|, i requires 0 <= i < |log| => LineOf(log[i]))]))
  {
    var lines := seq(|log|, i requires 0 <= i < |log| => LineOf(log[i]));
    var all := files + [lines];
    assert RecordsIssn(all, |files|, k, t.eissn);
    CompletedMembers(all, t.eissn);
    PendingMembers(tasks, Completed(all), t);
  }

  /** A task whose `eISSN` carries surrounding white space is crawled again
      whatever the logs hold, even when its record is there: the ledger
      holds only stripped identifiers and the filter compares the raw one. */
  lemma PaddedTaskNotSkipped(tasks: seq<Task>, files: seq<seq<LedgerLine>>, t: Task)
    requires t in tasks && Strip(t.eissn) != t.eissn
    ensures t in PendingTasks(tasks, Completed(files))
  {
    if t.eissn in Completed(files) {
      CompletedMembers(files, t.eissn);
      var f, l :| RecordsIssn(files, f, l, t.eissn);
      StripTrims(files[f][l].value);
      assert false;
    }
    PendingMembers(tasks, Completed(files), t);
  }
}
